/**
 * The newer condition (Assets/DialogueSystem): a typed comparison of one
 * stored variable against a literal, with string comparators. A condition
 * only reads the variable store.
 */
module DialogueSystemCondition {
  import opened Wrappers
  import opened Int32
  import opened Variables

  /**
   * C# enum fields hold any int, so each enum has, beside its named members,
   * a constructor for the values outside them (`code` is the stored number).
   */
  datatype DialogueVariableType = Bool | Int | String | UnnamedVariableType(code: int)
  datatype BoolComparisonType = Is | And | Or | Xor | UnnamedBoolComparison(code: int)
  datatype IntComparisonType = Equal | NotEqual | Greater | GreaterOrEqual | Less | LessOrEqual
                             | UnnamedIntComparison(code: int)
  datatype StringComparisonType = StringEqual | StringNotEqual | Contains | StartsWith | EndsWith
                                | UnnamedStringComparison(code: int)

  /** The serialized fields of a condition; only the fields of `valueType` are consulted. */
  datatype Condition = Condition(
    valueType: DialogueVariableType,
    boolKey: string, boolComparison: BoolComparisonType, boolValue: bool,
    intKey: string, intComparison: IntComparisonType, intValue: Int32,
    stringKey: string, stringComparison: StringComparisonType, stringValue: string)

  /** Ordinal `String.StartsWith`. */
  predicate HasPrefix(s: string, prefix: string) {
    |prefix| <= |s| && s[..|prefix|] == prefix
  }

  /** Ordinal `String.EndsWith`. */
  predicate HasSuffix(s: string, suffix: string) {
    |suffix| <= |s| && s[|s| - |suffix|..] == suffix
  }

  /** Ordinal `String.Contains`: `t` is a prefix of some suffix of `s`. */
  predicate HasSubstring(s: string, t: string)
    decreases |s|
  {
    HasPrefix(s, t) || (|s| > 0 && HasSubstring(s[1..], t))
  }

  /** `t` occurs in `s` starting at position `i`. */
  predicate OccursAt(s: string, t: string, i: int) {
    0 <= i <= |s| - |t| && s[i..i + |t|] == t
  }

  /** HasSubstring holds exactly when `t` occurs at some position of `s`. */
  lemma {:induction false} HasSubstringAt(s: string, t: string)
    ensures HasSubstring(s, t) <==> exists i :: OccursAt(s, t, i)
    decreases |s|
  {
    if HasPrefix(s, t) {
      assert OccursAt(s, t, 0);
    }
    if |s| > 0 {
      HasSubstringAt(s[1..], t);
      if exists i :: OccursAt(s, t, i) {
        var i :| OccursAt(s, t, i);
        if i > 0 {
          assert OccursAt(s[1..], t, i - 1);
        } else {
          assert HasPrefix(s, t);
        }
      }
      if exists i :: OccursAt(s[1..], t, i) {
        var i :| OccursAt(s[1..], t, i);
        assert OccursAt(s, t, i + 1);
      }
    } else if exists i :: OccursAt(s, t, i) {
      var i :| OccursAt(s, t, i);
      assert HasPrefix(s, t);
    }
  }

  /** A prefix or a suffix is in particular a substring. */
  lemma AffixIsSubstring(s: string, t: string)
    ensures HasPrefix(s, t) ==> HasSubstring(s, t)
    ensures HasSuffix(s, t) ==> HasSubstring(s, t)
  {
    if HasSuffix(s, t) {
      HasSubstringAt(s, t);
      assert OccursAt(s, t, |s| - |t|);
    }
  }

  function CompareBool(comparison: BoolComparisonType, stored: bool, literal: bool): bool {
    match comparison
    case Is => stored == literal
    case And => stored && literal
    case Or => stored || literal
    case Xor => stored != literal
    case UnnamedBoolComparison(_) => false
  }

  function CompareInt(comparison: IntComparisonType, stored: Int32, literal: Int32): bool {
    match comparison
    case Equal => stored == literal
    case NotEqual => stored != literal
    case Greater => stored > literal
    case GreaterOrEqual => stored >= literal
    case Less => stored < literal
    case LessOrEqual => stored <= literal
    case UnnamedIntComparison(_) => false
  }

  function CompareString(comparison: StringComparisonType, stored: string, literal: string): bool {
    match comparison
    case StringEqual => stored == literal
    case StringNotEqual => stored != literal
    case Contains => HasSubstring(stored, literal)
    case StartsWith => HasPrefix(stored, literal)
    case EndsWith => HasSuffix(stored, literal)
    case UnnamedStringComparison(_) => false
  }

  /** Whether the store has the key the condition's selected type names. */
  predicate SelectedKeyPresent(c: Condition, store: DialogueVariables)
    reads store
  {
    match c.valueType
    case Bool => c.boolKey in store.boolVariables
    case Int => c.intKey in store.intVariables
    case String => c.stringKey in store.stringVariables
    case UnnamedVariableType(_) => false
  }

  /** Evaluates the condition against the store; a missing key or an unnamed type or comparator gives false. */
  function Evaluate(c: Condition, store: DialogueVariables): (result: bool)
    reads store
    ensures result ==> SelectedKeyPresent(c, store)
    ensures result && c.valueType == Bool ==> !c.boolComparison.UnnamedBoolComparison?
    ensures result && c.valueType == Int ==> !c.intComparison.UnnamedIntComparison?
    ensures result && c.valueType == String ==> !c.stringComparison.UnnamedStringComparison?
  {
    match c.valueType
    case Bool =>
      (match store.GetBool(c.boolKey)
       case Some(value) => CompareBool(c.boolComparison, value, c.boolValue)
       case None => false)
    case Int =>
      (match store.GetInt(c.intKey)
       case Some(value) => CompareInt(c.intComparison, value, c.intValue)
       case None => false)
    case String =>
      (match store.GetString(c.stringKey)
       case Some(value) => CompareString(c.stringComparison, value, c.stringValue)
       case None => false)
    case UnnamedVariableType(_) => false
  }

  /** With the key present, each comparator means the relation it is named after. */
  lemma EvaluateMeaning(c: Condition, store: DialogueVariables)
    requires SelectedKeyPresent(c, store)
    ensures c.valueType == Bool ==> var v := store.boolVariables[c.boolKey];
      && (c.boolComparison == Is ==> (Evaluate(c, store) <==> v == c.boolValue))
      && (c.boolComparison == And ==> (Evaluate(c, store) <==> v && c.boolValue))
      && (c.boolComparison == Or ==> (Evaluate(c, store) <==> v || c.boolValue))
      && (c.boolComparison == Xor ==> (Evaluate(c, store) <==> v != c.boolValue))
    ensures c.valueType == Int ==> var v := store.intVariables[c.intKey];
      && (c.intComparison == Equal ==> (Evaluate(c, store) <==> v == c.intValue))
      && (c.intComparison == NotEqual ==> (Evaluate(c, store) <==> v != c.intValue))
      && (c.intComparison == Greater ==> (Evaluate(c, store) <==> v > c.intValue))
      && (c.intComparison == GreaterOrEqual ==> (Evaluate(c, store) <==> v >= c.intValue))
      && (c.intComparison == Less ==> (Evaluate(c, store) <==> v < c.intValue))
      && (c.intComparison == LessOrEqual ==> (Evaluate(c, store) <==> v <= c.intValue))
    ensures c.valueType == String ==> var v := store.stringVariables[c.stringKey];
      && (c.stringComparison == StringEqual ==> (Evaluate(c, store) <==> v == c.stringValue))
      && (c.stringComparison == StringNotEqual ==> (Evaluate(c, store) <==> v != c.stringValue))
      && (c.stringComparison == Contains ==>
            (Evaluate(c, store) <==> exists i :: OccursAt(v, c.stringValue, i)))
      && (c.stringComparison == StartsWith ==> (Evaluate(c, store) <==> c.stringValue <= v))
      && (c.stringComparison == EndsWith ==>
            (Evaluate(c, store) <==> exists p :: p + c.stringValue == v))
  {
    if c.valueType == String {
      var v, t := store.stringVariables[c.stringKey], c.stringValue;
      HasSubstringAt(v, t);
      if c.stringComparison == EndsWith {
        if HasSuffix(v, t) {
          assert v[..|v| - |t|] + t == v;
        }
        if exists p :: p + t == v {
          var p :| p + t == v;
          assert v[|v| - |t|..] == t;
        }
      }
    }
  }

  /** NotEqual is the negation of Equal, for ints and for strings, whenever the key is present. */
  lemma NotEqualNegatesEqual(c: Condition, store: DialogueVariables)
    requires SelectedKeyPresent(c, store)
    ensures c.valueType == Int ==>
      Evaluate(c.(intComparison := NotEqual), store) == !Evaluate(c.(intComparison := Equal), store)
    ensures c.valueType == String ==>
      Evaluate(c.(stringComparison := StringNotEqual), store) == !Evaluate(c.(stringComparison := StringEqual), store)
  {
  }

  /** A successful StartsWith or EndsWith test implies a successful Contains test on the same fields. */
  lemma AffixConditionImpliesContains(c: Condition, store: DialogueVariables)
    requires c.stringComparison == StartsWith || c.stringComparison == EndsWith
    ensures Evaluate(c, store) ==> Evaluate(c.(stringComparison := Contains), store)
  {
    if c.valueType == String && c.stringKey in store.stringVariables {
      AffixIsSubstring(store.stringVariables[c.stringKey], c.stringValue);
    }
  }

  /** Two conditions that agree on the selected type and on that type's key, comparator and literal agree. */
  lemma OnlySelectedFieldsMatter(c: Condition, d: Condition, store: DialogueVariables)
    requires c.valueType == d.valueType
    requires c.valueType == Bool ==>
      c.boolKey == d.boolKey && c.boolComparison == d.boolComparison && c.boolValue == d.boolValue
    requires c.valueType == Int ==>
      c.intKey == d.intKey && c.intComparison == d.intComparison && c.intValue == d.intValue
    requires c.valueType == String ==>
      c.stringKey == d.stringKey && c.stringComparison == d.stringComparison && c.stringValue == d.stringValue
    ensures Evaluate(c, store) == Evaluate(d, store)
  {
  }

  /** Entries the condition does not look at may change without changing its result. */
  lemma OnlySelectedEntryMatters(c: Condition, store: DialogueVariables, other: DialogueVariables)
    requires c.valueType == Bool ==>
      (c.boolKey in store.boolVariables <==> c.boolKey in other.boolVariables)
      && (c.boolKey in store.boolVariables ==> store.boolVariables[c.boolKey] == other.boolVariables[c.boolKey])
    requires c.valueType == Int ==>
      (c.intKey in store.intVariables <==> c.intKey in other.intVariables)
      && (c.intKey in store.intVariables ==> store.intVariables[c.intKey] == other.intVariables[c.intKey])
    requires c.valueType == String ==>
      (c.stringKey in store.stringVariables <==> c.stringKey in other.stringVariables)
      && (c.stringKey in store.stringVariables ==> store.stringVariables[c.stringKey] == other.stringVariables[c.stringKey])
    ensures Evaluate(c, store) == Evaluate(c, other)
  {
  }
}
