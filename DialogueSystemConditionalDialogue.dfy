/**
 * The newer conditional dialogue (Assets/DialogueSystem): aggregates its
 * conditions with All or Any, short-circuiting, and triggers the dialogue
 * of the matching branch.
 */
module DialogueSystemConditionalDialogue {
  import opened Wrappers
  import opened DialogueData
  import opened Variables
  import opened DialogueSystemCondition

  datatype ConditionType = All | Any | UnnamedConditionType(code: int)

  /** The serialized fields; `hasVariableNames` says whether the names asset is assigned. */
  datatype ConditionalDialogue = ConditionalDialogue(
    hasVariableNames: bool,
    conditions: Option<seq<Condition>>,
    conditionsToBeMet: ConditionType,
    dialogueOnTrue: TriggerableDialogue?,
    dialogueOnFalse: TriggerableDialogue?)

  predicate AllHold(conditions: seq<Condition>, store: DialogueVariables)
    reads store
  {
    forall i :: 0 <= i < |conditions| ==> Evaluate(conditions[i], store)
  }

  predicate AnyHolds(conditions: seq<Condition>, store: DialogueVariables)
    reads store
  {
    exists i :: 0 <= i < |conditions| && Evaluate(conditions[i], store)
  }

  /**
   * The flag-and-break loop. All stops after the first false condition and
   * Any after the first true one; `evaluated` counts the conditions looked
   * at. An unnamed aggregation evaluates nothing and yields false.
   */
  method Aggregate(conditions: seq<Condition>, conditionsToBeMet: ConditionType, store: DialogueVariables)
      returns (finalResult: bool, evaluated: nat)
    ensures conditionsToBeMet == All ==> (finalResult <==> AllHold(conditions, store))
    ensures conditionsToBeMet == Any ==> (finalResult <==> AnyHolds(conditions, store))
    ensures conditionsToBeMet.UnnamedConditionType? ==> !finalResult && evaluated == 0
    ensures evaluated <= |conditions|
    ensures !conditionsToBeMet.UnnamedConditionType? && conditions != [] ==> evaluated > 0
    ensures !conditionsToBeMet.UnnamedConditionType? ==>
      && (forall i :: 0 <= i < evaluated - 1 ==> Evaluate(conditions[i], store) == (conditionsToBeMet == All))
      && (evaluated < |conditions| ==> 0 < evaluated && Evaluate(conditions[evaluated - 1], store) != (conditionsToBeMet == All))
  {
    finalResult := false;
    evaluated := 0;
    if conditionsToBeMet == All {
      finalResult := true;
      while evaluated < |conditions|
        invariant evaluated <= |conditions|
        invariant forall i :: 0 <= i < evaluated ==> Evaluate(conditions[i], store)
      {
        evaluated := evaluated + 1;
        if !Evaluate(conditions[evaluated - 1], store) {
          finalResult := false;
          break;
        }
      }
    } else if conditionsToBeMet == Any {
      while evaluated < |conditions|
        invariant evaluated <= |conditions|
        invariant forall i :: 0 <= i < evaluated ==> !Evaluate(conditions[i], store)
      {
        evaluated := evaluated + 1;
        if Evaluate(conditions[evaluated - 1], store) {
          finalResult := true;
          break;
        }
      }
    }
  }

  /**
   * Warns and triggers nothing without a names asset or without conditions;
   * otherwise triggers the non-null target of the branch the result selects.
   */
  method Trigger(cd: ConditionalDialogue, store: DialogueVariables) returns (outcome: TriggerOutcome)
    ensures !cd.hasVariableNames ==> outcome == Warned
    ensures cd.conditions.None? || cd.conditions == Some([]) ==> outcome == Warned
    ensures cd.hasVariableNames && cd.conditions.Some? && cd.conditions.value != [] ==>
      && outcome.Evaluated?
      && (outcome.result <==>
            (cd.conditionsToBeMet == All && AllHold(cd.conditions.value, store))
            || (cd.conditionsToBeMet == Any && AnyHolds(cd.conditions.value, store)))
      && outcome.evaluated <= |cd.conditions.value|
      && (outcome.evaluated == 0 <==> cd.conditionsToBeMet.UnnamedConditionType?)
    ensures outcome.Evaluated? ==>
      outcome.triggered == (var target := if outcome.result then cd.dialogueOnTrue else cd.dialogueOnFalse;
                            if target == null then None else Some(target))
  {
    if !cd.hasVariableNames {
      return Warned;
    }
    if cd.conditions.None? || |cd.conditions.value| == 0 {
      return Warned;
    }
    var finalResult, evaluated := Aggregate(cd.conditions.value, cd.conditionsToBeMet, store);
    var triggered: Option<TriggerableDialogue> := None;
    if finalResult {
      if cd.dialogueOnTrue != null {
        triggered := Some(cd.dialogueOnTrue);
      }
    } else {
      if cd.dialogueOnFalse != null {
        triggered := Some(cd.dialogueOnFalse);
      }
    }
    return Evaluated(finalResult, evaluated, triggered);
  }
}
