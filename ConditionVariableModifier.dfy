/**
 * The variable modifier: a typed read-modify-write of one stored variable.
 * The new value is a pure function of the stored value and the literal; a
 * missing key, or an operation outside the enum, writes nothing.
 */
module ConditionVariableModifier {
  import opened Wrappers
  import opened Int32
  import opened Variables
  import opened DialogueSystemCondition

  datatype BoolModifierType = SetBool | Toggle | AndBool | OrBool | XorBool | UnnamedBoolModifier(code: int)
  datatype IntModifierType = SetInt | Add | Subtract | Multiply | Divide | UnnamedIntModifier(code: int)
  datatype StringModifierType = SetString | Append | UnnamedStringModifier(code: int)

  /** The serialized fields of a modifier; the variable type is the newer condition's enum. */
  datatype Modifier = Modifier(
    valueType: DialogueVariableType,
    boolKey: string, boolModifier: BoolModifierType, boolValue: bool,
    intKey: string, intModifier: IntModifierType, intValue: Int32,
    stringKey: string, stringModifier: StringModifierType, stringValue: string)

  /** The value written for a bool variable holding `current`; None when the operation is unnamed. */
  function ModifiedBool(op: BoolModifierType, current: bool, literal: bool): (r: Option<bool>)
    ensures r.None? <==> op.UnnamedBoolModifier?
  {
    match op
    case SetBool => Some(literal)
    case Toggle => Some(!current)
    case AndBool => Some(current && literal)
    case OrBool => Some(current || literal)
    case XorBool => Some(current != literal)
    case UnnamedBoolModifier(_) => None
  }

  /** C# throws on `x / 0` and on `int.MinValue / -1`; every other operation is defined. */
  predicate IntOpDefined(op: IntModifierType, current: Int32, literal: Int32) {
    op == Divide ==> literal != 0 && !(current == MIN && literal == -1)
  }

  /**
   * The value written for an int variable holding `current`: 32-bit wrapping
   * for +, - and *, truncating division; None when the operation is unnamed.
   */
  function ModifiedInt(op: IntModifierType, current: Int32, literal: Int32): (r: Option<Int32>)
    requires IntOpDefined(op, current, literal)
    ensures r.None? <==> op.UnnamedIntModifier?
    ensures op == Add && MIN <= current + literal <= MAX ==> r == Some(current + literal)
    ensures op == Subtract && MIN <= current - literal <= MAX ==> r == Some(current - literal)
    ensures op == Multiply && MIN <= current * literal <= MAX ==> r == Some(current * literal)
  {
    match op
    case SetInt => Some(literal)
    case Add => Some(Wrap(current + literal))
    case Subtract => Some(Wrap(current - literal))
    case Multiply => Some(Wrap(current * literal))
    case Divide => Some(DivTrunc(current, literal))
    case UnnamedIntModifier(_) => None
  }

  function ModifiedString(op: StringModifierType, current: string, literal: string): (r: Option<string>)
    ensures r.None? <==> op.UnnamedStringModifier?
    ensures op == Append ==> |r.value| == |current| + |literal| && r.value[..|current|] == current && r.value[|current|..] == literal
  {
    match op
    case SetString => Some(literal)
    case Append => Some(current + literal)
    case UnnamedStringModifier(_) => None
  }

  /** The bool dictionary after the modifier: only the selected key of a bool modifier may change. */
  function AppliedBools(m: Modifier, bools: map<string, bool>): (r: map<string, bool>)
    ensures r.Keys == bools.Keys
    ensures forall k :: k in bools && (m.valueType != Bool || k != m.boolKey) ==> r[k] == bools[k]
    ensures m.valueType == Bool && m.boolKey in bools && !m.boolModifier.UnnamedBoolModifier? ==>
      r[m.boolKey] == ModifiedBool(m.boolModifier, bools[m.boolKey], m.boolValue).value
    ensures m.valueType != Bool || m.boolKey !in bools || m.boolModifier.UnnamedBoolModifier? ==> r == bools
  {
    if m.valueType == Bool && m.boolKey in bools then
      match ModifiedBool(m.boolModifier, bools[m.boolKey], m.boolValue)
      case Some(v) => bools[m.boolKey := v]
      case None => bools
    else bools
  }

  /** What ApplyModifier demands: an int division it performs is defined. */
  predicate DivisionDefined(m: Modifier, ints: map<string, Int32>) {
    m.valueType == Int && m.intKey in ints ==> IntOpDefined(m.intModifier, ints[m.intKey], m.intValue)
  }

  function AppliedInts(m: Modifier, ints: map<string, Int32>): (r: map<string, Int32>)
    requires DivisionDefined(m, ints)
    ensures r.Keys == ints.Keys
    ensures forall k :: k in ints && (m.valueType != Int || k != m.intKey) ==> r[k] == ints[k]
    ensures m.valueType == Int && m.intKey in ints && !m.intModifier.UnnamedIntModifier? ==>
      r[m.intKey] == ModifiedInt(m.intModifier, ints[m.intKey], m.intValue).value
    ensures m.valueType != Int || m.intKey !in ints || m.intModifier.UnnamedIntModifier? ==> r == ints
  {
    if m.valueType == Int && m.intKey in ints then
      match ModifiedInt(m.intModifier, ints[m.intKey], m.intValue)
      case Some(v) => ints[m.intKey := v]
      case None => ints
    else ints
  }

  function AppliedStrings(m: Modifier, strings: map<string, string>): (r: map<string, string>)
    ensures r.Keys == strings.Keys
    ensures forall k :: k in strings && (m.valueType != String || k != m.stringKey) ==> r[k] == strings[k]
    ensures m.valueType == String && m.stringKey in strings && !m.stringModifier.UnnamedStringModifier? ==>
      r[m.stringKey] == ModifiedString(m.stringModifier, strings[m.stringKey], m.stringValue).value
    ensures m.valueType != String || m.stringKey !in strings || m.stringModifier.UnnamedStringModifier? ==> r == strings
  {
    if m.valueType == String && m.stringKey in strings then
      match ModifiedString(m.stringModifier, strings[m.stringKey], m.stringValue)
      case Some(v) => strings[m.stringKey := v]
      case None => strings
    else strings
  }

  /**
   * Reads the selected variable and writes back its modified value. A
   * missing key (which the source reports as an error) writes nothing.
   */
  method ApplyModifier(m: Modifier, store: DialogueVariables)
    requires DivisionDefined(m, store.intVariables)
    modifies store
    ensures store.boolVariables == AppliedBools(m, old(store.boolVariables))
    ensures store.intVariables == AppliedInts(m, old(store.intVariables))
    ensures store.stringVariables == AppliedStrings(m, old(store.stringVariables))
  {
    match m.valueType {
      case Bool =>
        var current := store.GetBool(m.boolKey);
        if current.Some? {
          var next := ModifiedBool(m.boolModifier, current.value, m.boolValue);
          if next.Some? {
            store.SetBool(m.boolKey, next.value);
          }
        }
      case Int =>
        var current := store.GetInt(m.intKey);
        if current.Some? {
          var next := ModifiedInt(m.intModifier, current.value, m.intValue);
          if next.Some? {
            store.SetInt(m.intKey, next.value);
          }
        }
      case String =>
        var current := store.GetString(m.stringKey);
        if current.Some? {
          var next := ModifiedString(m.stringModifier, current.value, m.stringValue);
          if next.Some? {
            store.SetString(m.stringKey, next.value);
          }
        }
      case UnnamedVariableType(_) =>
    }
  }

  /**
   * What each operation writes to the selected variable, in terms of the
   * stored value `v` and the literal `l`: Set writes `l`; Toggle, And, Or and
   * Xor write the boolean combination; Add, Subtract and Multiply write the
   * 32-bit value congruent to the exact result modulo 2^32 (the exact result
   * itself when it fits); Divide writes the quotient truncated toward zero;
   * Append writes `v` followed by `l`; an unnamed operation writes nothing.
   * One lemma per value type.
   */
  lemma BoolModifierMeaning(m: Modifier, bools: map<string, bool>)
    requires m.valueType == Bool && m.boolKey in bools
    ensures var v, l, w := bools[m.boolKey], m.boolValue, AppliedBools(m, bools)[m.boolKey];
      && (m.boolModifier == SetBool ==> w == l)
      && (m.boolModifier == Toggle ==> w == !v)
      && (m.boolModifier == AndBool ==> w == (v && l))
      && (m.boolModifier == OrBool ==> w == (v || l))
      && (m.boolModifier == XorBool ==> w == (v != l))
      && (m.boolModifier.UnnamedBoolModifier? ==> w == v)
  {
  }

  lemma IntModifierMeaning(m: Modifier, ints: map<string, Int32>)
    requires m.valueType == Int && m.intKey in ints
    requires DivisionDefined(m, ints)
    ensures var v, l, w := ints[m.intKey], m.intValue, AppliedInts(m, ints)[m.intKey];
      && (m.intModifier == SetInt ==> w == l)
      && (m.intModifier == Add ==> (v + l - w) % MODULUS == 0 && (MIN <= v + l <= MAX ==> w == v + l))
      && (m.intModifier == Subtract ==> (v - l - w) % MODULUS == 0 && (MIN <= v - l <= MAX ==> w == v - l))
      && (m.intModifier == Multiply ==> (v * l - w) % MODULUS == 0 && (MIN <= v * l <= MAX ==> w == v * l))
      && (m.intModifier == Divide ==> Abs(v - w * l) < Abs(l) && (v - w * l == 0 || (v - w * l < 0 <==> v < 0)))
      && (m.intModifier.UnnamedIntModifier? ==> w == v)
  {
    if m.intModifier == Divide {
      DivTruncRemainder(ints[m.intKey], m.intValue);
    }
  }

  lemma StringModifierMeaning(m: Modifier, strings: map<string, string>)
    requires m.valueType == String && m.stringKey in strings
    ensures var v, l, w := strings[m.stringKey], m.stringValue, AppliedStrings(m, strings)[m.stringKey];
      && (m.stringModifier == SetString ==> w == l)
      && (m.stringModifier == Append ==> w == v + l)
      && (m.stringModifier.UnnamedStringModifier? ==> w == v)
  {
  }

  /** Toggling twice restores the stored bool. */
  lemma ToggleTwice(m: Modifier, bools: map<string, bool>)
    requires m.boolModifier == Toggle
    ensures AppliedBools(m, AppliedBools(m, bools)) == bools
  {
  }

  /** Xor with the same literal twice restores the stored bool. */
  lemma XorTwice(m: Modifier, bools: map<string, bool>)
    requires m.boolModifier == XorBool
    ensures AppliedBools(m, AppliedBools(m, bools)) == bools
  {
  }

  /** Two 32-bit values that agree modulo 2^32 are equal. */
  lemma CongruentInt32Equal(a: Int32, b: Int32)
    requires (a - b) % MODULUS == 0
    ensures a == b
  {
    var d := a - b;
    assert d == MODULUS * (d / MODULUS);
  }

  /** Adding and then subtracting the same literal restores the stored int, overflow or not. */
  lemma AddThenSubtract(m: Modifier, ints: map<string, Int32>)
    requires m.intModifier == Add
    ensures AppliedInts(m.(intModifier := Subtract), AppliedInts(m, ints)) == ints
  {
    if m.valueType == Int && m.intKey in ints {
      var v, l := ints[m.intKey], m.intValue;
      var w1 := Wrap(v + l);
      var w2 := Wrap(w1 - l);
      var k1, k2 := (v + l - w1) / MODULUS, (w1 - l - w2) / MODULUS;
      assert v + l - w1 == MODULUS * k1;
      assert w1 - l - w2 == MODULUS * k2;
      assert v - w2 == MODULUS * (k1 + k2);
      assert (v - w2) % MODULUS == 0;
      CongruentInt32Equal(v, w2);
      assert AppliedInts(m, ints)[m.intKey] == w1;
    }
  }

  /** Divide stores the quotient truncated toward zero: the remainder is smaller than the divisor and has the dividend's sign. */
  lemma DivideTruncates(m: Modifier, ints: map<string, Int32>)
    requires m.intModifier == Divide && m.valueType == Int && m.intKey in ints
    requires DivisionDefined(m, ints)
    ensures var v, l, q := ints[m.intKey], m.intValue, AppliedInts(m, ints)[m.intKey];
      && Abs(v - q * l) < Abs(l)
      && (v - q * l == 0 || (v - q * l < 0 <==> v < 0))
  {
    DivTruncRemainder(ints[m.intKey], m.intValue);
  }
}
