/**
 * The older condition (Assets/Scripts/DialogueBox): the same typed
 * comparison, but a string condition is plain equality with the literal.
 */
module DialogueBoxCondition {
  import opened Wrappers
  import opened Int32
  import opened Variables
  import Newer = DialogueSystemCondition

  datatype ValueType = Bool | Int | String | UnnamedValueType(code: int)
  datatype BoolComparisonType = Is | And | Or | Xor | UnnamedBoolComparison(code: int)
  datatype IntComparisonType = Equal | NotEqual | Greater | GreaterOrEqual | Less | LessOrEqual
                             | UnnamedIntComparison(code: int)

  datatype Condition = Condition(
    valueType: ValueType,
    boolKey: string, boolComparison: BoolComparisonType, boolValue: bool,
    intKey: string, intComparison: IntComparisonType, intValue: Int32,
    stringKey: string, stringValue: string)

  predicate SelectedKeyPresent(c: Condition, store: DialogueVariables)
    reads store
  {
    match c.valueType
    case Bool => c.boolKey in store.boolVariables
    case Int => c.intKey in store.intVariables
    case String => c.stringKey in store.stringVariables
    case UnnamedValueType(_) => false
  }

  /** Evaluates the condition against the store; a missing key or an unnamed type or comparator gives false. */
  function Evaluate(c: Condition, store: DialogueVariables): (result: bool)
    reads store
    ensures result ==> SelectedKeyPresent(c, store)
    ensures result && c.valueType == Bool ==> !c.boolComparison.UnnamedBoolComparison?
    ensures result && c.valueType == Int ==> !c.intComparison.UnnamedIntComparison?
    ensures c.valueType == String ==>
      (result <==> c.stringKey in store.stringVariables && store.stringVariables[c.stringKey] == c.stringValue)
  {
    match c.valueType
    case Bool =>
      (match store.GetBool(c.boolKey)
       case Some(value) =>
         (match c.boolComparison
          case Is => value == c.boolValue
          case And => value && c.boolValue
          case Or => value || c.boolValue
          case Xor => value != c.boolValue
          case UnnamedBoolComparison(_) => false)
       case None => false)
    case Int =>
      (match store.GetInt(c.intKey)
       case Some(value) =>
         (match c.intComparison
          case Equal => value == c.intValue
          case NotEqual => value != c.intValue
          case Greater => value > c.intValue
          case GreaterOrEqual => value >= c.intValue
          case Less => value < c.intValue
          case LessOrEqual => value <= c.intValue
          case UnnamedIntComparison(_) => false)
       case None => false)
    case String =>
      (match store.GetString(c.stringKey)
       case Some(value) => value == c.stringValue
       case None => false)
    case UnnamedValueType(_) => false
  }

  /** The newer revision's reading of an older condition: same fields, string comparator Equal. */
  function Upgraded(c: Condition): Newer.Condition {
    Newer.Condition(
      match c.valueType
        case Bool => Newer.Bool case Int => Newer.Int case String => Newer.String
        case UnnamedValueType(code) => Newer.UnnamedVariableType(code),
      c.boolKey,
      match c.boolComparison
        case Is => Newer.Is case And => Newer.And case Or => Newer.Or case Xor => Newer.Xor
        case UnnamedBoolComparison(code) => Newer.UnnamedBoolComparison(code),
      c.boolValue,
      c.intKey,
      match c.intComparison
        case Equal => Newer.Equal case NotEqual => Newer.NotEqual
        case Greater => Newer.Greater case GreaterOrEqual => Newer.GreaterOrEqual
        case Less => Newer.Less case LessOrEqual => Newer.LessOrEqual
        case UnnamedIntComparison(code) => Newer.UnnamedIntComparison(code),
      c.intValue,
      c.stringKey, Newer.StringEqual, c.stringValue)
  }

  /**
   * The bool and int comparators mean the same in both revisions, and the
   * older string test is the newer Equal comparator.
   */
  lemma AgreesWithNewerRevision(c: Condition, store: DialogueVariables)
    ensures Evaluate(c, store) == Newer.Evaluate(Upgraded(c), store)
  {
  }
}
