/**
 * The runtime dialogue cursor (the `Dialogue` component): a walker over a
 * graph of DialogueSO nodes that keeps an append-only history for going back.
 */
module DialogueRuntime {
  import opened Wrappers
  import opened DialogueData

  /**
   * What the source demands before it follows `choice` from `d`: `d` is not
   * null, a multiple-choice index is in range (the end test indexes it before
   * any range check), and a single-choice dialogue has a first choice.
   */
  predicate CanAdvance(d: DialogueSO?, choice: int)
    reads d
  {
    d != null && (if d.kind == MultipleChoice then 0 <= choice < |d.choices| else |d.choices| >= 1)
  }

  /** The dialogue `choice` leads to; a single-choice dialogue always follows its first choice. */
  function Follow(d: DialogueSO, choice: int): DialogueSO?
    reads d
    requires CanAdvance(d, choice)
  {
    if d.kind == MultipleChoice then d.choices[choice].nextDialogue else d.choices[0].nextDialogue
  }

  class Dialogue {
    /** The starting dialogue selected in the inspector. */
    var dialogue: DialogueSO?
    var firstCall: bool
    var currentDialogue: DialogueSO?
    var lastDialogueIndex: int
    var dialoguesHistory: seq<DialogueSO>

    ghost predicate Valid()
      reads this
    {
      -1 <= lastDialogueIndex < |dialoguesHistory|
    }

    /** Awake: the component starts reset to its selected dialogue. */
    constructor (dialogue: DialogueSO?)
      ensures Valid() && this.dialogue == dialogue
      ensures firstCall && currentDialogue == dialogue
      ensures dialoguesHistory == [] && lastDialogueIndex == -1
    {
      this.dialogue := dialogue;
      firstCall := true;
      lastDialogueIndex := -1;
      currentDialogue := dialogue;
      dialoguesHistory := [];
    }

    /** The no-argument end test: never at the end before the first call has been consumed. */
    function IsEndOfDialogue(): (end: bool)
      reads this, currentDialogue
      requires firstCall || currentDialogue != null
      ensures firstCall ==> !end
      ensures end <==> !firstCall && |currentDialogue.choices| == 1 && Follow(currentDialogue, 0) == null
    {
      !firstCall && |currentDialogue.choices| == 1 && currentDialogue.choices[0].nextDialogue == null
    }

    /** The end test for a given choice: for a multiple-choice dialogue, whether that choice leads nowhere. */
    function IsEndOfDialogueFor(choice: int): (end: bool)
      reads this, currentDialogue
      requires CanAdvance(currentDialogue, choice)
      ensures currentDialogue.kind == MultipleChoice ==> (end <==> Follow(currentDialogue, choice) == null)
      ensures currentDialogue.kind != MultipleChoice ==> (end <==> IsEndOfDialogue())
      ensures end && !firstCall ==> Follow(currentDialogue, choice) == null
      ensures !end && (currentDialogue.kind == MultipleChoice || (!firstCall && |currentDialogue.choices| == 1))
              ==> Follow(currentDialogue, choice) != null
    {
      if currentDialogue.kind == MultipleChoice then currentDialogue.choices[choice].nextDialogue == null
      else IsEndOfDialogue()
    }

    function IsChoiceAvailable(): (available: bool)
      reads this, currentDialogue
      requires currentDialogue != null
      ensures available <==> |currentDialogue.choices| > 1
    {
      |currentDialogue.choices| > 1
    }

    /** The texts of the current choices, in order, when there is a choice to make; null otherwise. */
    method GetCurrentChoices() returns (texts: Option<seq<string>>)
      requires currentDialogue != null
      ensures texts.Some? <==> IsChoiceAvailable()
      ensures texts.Some? ==> |texts.value| == |currentDialogue.choices|
      ensures texts.Some? ==> forall i :: 0 <= i < |texts.value| ==> texts.value[i] == currentDialogue.choices[i].text
    {
      if !IsChoiceAvailable() {
        return None;
      }
      var choices: seq<string> := [];
      var i := 0;
      while i < |currentDialogue.choices|
        invariant 0 <= i <= |currentDialogue.choices|
        invariant |choices| == i
        invariant forall k :: 0 <= k < i ==> choices[k] == currentDialogue.choices[k].text
      {
        choices := choices + [currentDialogue.choices[i].text];
        i := i + 1;
      }
      return Some(choices);
    }

    /**
     * Returns the next dialogue. The first call after a reset returns the
     * current dialogue without moving; at an end it returns null and changes nothing.
     */
    method GetNext(choice: int) returns (next: DialogueSO?)
      requires Valid()
      requires firstCall || CanAdvance(currentDialogue, choice)
      modifies this
      ensures Valid() && dialogue == old(dialogue) && !firstCall
      ensures old(firstCall) ==>
        && next == old(currentDialogue) && currentDialogue == old(currentDialogue)
        && dialoguesHistory == old(dialoguesHistory) && lastDialogueIndex == old(lastDialogueIndex)
      ensures !old(firstCall) && old(IsEndOfDialogueFor(choice)) ==>
        && next == null && currentDialogue == old(currentDialogue)
        && dialoguesHistory == old(dialoguesHistory) && lastDialogueIndex == old(lastDialogueIndex)
      ensures !old(firstCall) && !old(IsEndOfDialogueFor(choice)) ==>
        && dialoguesHistory == old(dialoguesHistory) + [old(currentDialogue)]
        && lastDialogueIndex == old(lastDialogueIndex) + 1
        && currentDialogue == old(Follow(currentDialogue, choice))
        && next == currentDialogue
      ensures !old(firstCall) && !old(IsEndOfDialogueFor(choice))
              && (old(currentDialogue.kind) == MultipleChoice || old(|currentDialogue.choices|) == 1) ==>
        next != null
    {
      if firstCall {
        firstCall := false;
        return currentDialogue;
      }
      if IsEndOfDialogueFor(choice) {
        return null;
      }
      MoveNext(choice);
      return currentDialogue;
    }

    method GetCurrent() returns (current: DialogueSO?)
      ensures current == currentDialogue
    {
      return currentDialogue;
    }

    /** Steps back through the history; returns null, changing nothing, when there is no earlier dialogue. */
    method GetBack() returns (previous: DialogueSO?)
      requires Valid()
      modifies this
      ensures Valid() && dialogue == old(dialogue) && firstCall == old(firstCall)
      ensures dialoguesHistory == old(dialoguesHistory)
      ensures old(lastDialogueIndex) < 0 ==>
        previous == null && currentDialogue == old(currentDialogue) && lastDialogueIndex == old(lastDialogueIndex)
      ensures old(lastDialogueIndex) >= 0 ==>
        && currentDialogue == old(dialoguesHistory[lastDialogueIndex])
        && lastDialogueIndex == old(lastDialogueIndex) - 1
        && previous == currentDialogue && previous != null
    {
      if lastDialogueIndex < 0 {
        return null;
      }
      MoveBack();
      return currentDialogue;
    }

    /** Back to the selected dialogue, with the first-call rule re-armed and an empty history. */
    method ResetToFirstDialogue()
      modifies this
      ensures Valid() && dialogue == old(dialogue)
      ensures firstCall && currentDialogue == dialogue
      ensures dialoguesHistory == [] && lastDialogueIndex == -1
    {
      firstCall := true;
      lastDialogueIndex := -1;
      currentDialogue := dialogue;
      dialoguesHistory := [];
    }

    /**
     * Advances along `choice`: the current dialogue is appended to the history
     * (at its end, whatever the index) and the index moves up by one.
     */
    method MoveNext(choice: int)
      requires Valid()
      requires CanAdvance(currentDialogue, choice)
      modifies this
      ensures Valid() && dialogue == old(dialogue) && firstCall == old(firstCall)
      ensures old(IsEndOfDialogueFor(choice)) ==>
        && currentDialogue == old(currentDialogue)
        && dialoguesHistory == old(dialoguesHistory) && lastDialogueIndex == old(lastDialogueIndex)
      ensures !old(IsEndOfDialogueFor(choice)) ==>
        && dialoguesHistory == old(dialoguesHistory) + [old(currentDialogue)]
        && lastDialogueIndex == old(lastDialogueIndex) + 1
        && currentDialogue == old(Follow(currentDialogue, choice))
    {
      if IsEndOfDialogueFor(choice) {
        return;
      }
      dialoguesHistory := dialoguesHistory + [currentDialogue];
      lastDialogueIndex := lastDialogueIndex + 1;
      if currentDialogue.kind == MultipleChoice {
        currentDialogue := currentDialogue.choices[choice].nextDialogue;
      } else {
        currentDialogue := currentDialogue.choices[0].nextDialogue;
      }
    }

    /** Moves the index down by one and restores that history entry; the entry itself is kept. */
    method MoveBack()
      requires Valid()
      modifies this
      ensures Valid() && dialogue == old(dialogue) && firstCall == old(firstCall)
      ensures dialoguesHistory == old(dialoguesHistory)
      ensures old(lastDialogueIndex) < 0 ==>
        currentDialogue == old(currentDialogue) && lastDialogueIndex == old(lastDialogueIndex)
      ensures old(lastDialogueIndex) >= 0 ==>
        && currentDialogue == old(dialoguesHistory[lastDialogueIndex])
        && lastDialogueIndex == old(lastDialogueIndex) - 1
    {
      if lastDialogueIndex < 0 {
        return;
      }
      currentDialogue := dialoguesHistory[lastDialogueIndex];
      lastDialogueIndex := lastDialogueIndex - 1;
    }
  }

  /**
   * A walk A -> B -> C followed by three steps back visits B, then A, then
   * stops at A; going forward again from A appends A once more, so the
   * history keeps B after the index has moved below it.
   */
  method BackThenForwardWalk()
  {
    var c := new DialogueSO.Initialize("C", "c", [DialogueChoiceData("end", null)], SingleChoice, false);
    var b := new DialogueSO.Initialize("B", "b", [DialogueChoiceData("next", c)], SingleChoice, false);
    var a := new DialogueSO.Initialize("A", "a", [DialogueChoiceData("next", b)], SingleChoice, true);
    var cursor := new Dialogue(a);
    var d := cursor.GetNext(0);
    assert d == a && cursor.dialoguesHistory == [];
    d := cursor.GetNext(0);
    assert d == b;
    d := cursor.GetNext(0);
    assert d == c && cursor.dialoguesHistory == [a, b];
    assert cursor.IsEndOfDialogue();
    d := cursor.GetNext(0);
    assert d == null && cursor.currentDialogue == c;
    d := cursor.GetBack();
    assert d == b;
    d := cursor.GetBack();
    assert d == a;
    d := cursor.GetBack();
    assert d == null && cursor.currentDialogue == a;
    d := cursor.GetNext(0);
    assert d == b && cursor.dialoguesHistory == [a, b, a] && cursor.lastDialogueIndex == 0;
  }
}
