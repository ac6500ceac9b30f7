/** The saved dialogue graph as the runtime sees it: dialogues by group plus the ungrouped ones. */
module DialogueContainer {
  import opened Sequences
  import opened DialogueData
  import opened CollectionUtility

  /** The filter of the name getters: every dialogue when `startingOnly` is off, starting dialogues when it is on. */
  predicate Admitted(d: DialogueSO, startingOnly: bool) {
    !startingOnly || d.isStartingDialogue
  }

  /** `idx` lists, in increasing order, positions of `dialogues`, and `names` holds the names found there. */
  ghost predicate NamesAt(names: seq<string>, dialogues: seq<DialogueSO>, idx: seq<nat>) {
    && |idx| == |names|
    && (forall k :: 0 <= k < |idx| ==> idx[k] < |dialogues| && names[k] == dialogues[idx[k]].dialogueName)
    && (forall k, l :: 0 <= k < l < |idx| ==> idx[k] < idx[l])
  }

  /** The positions in `idx` are exactly those the filter admits. */
  ghost predicate AdmittedAt(dialogues: seq<DialogueSO>, startingOnly: bool, idx: seq<nat>) {
    forall i :: 0 <= i < |dialogues| ==> (i in idx <==> Admitted(dialogues[i], startingOnly))
  }

  /**
   * `names` are the names of `dialogues`, kept in list order, at exactly the
   * positions the filter admits.
   */
  ghost predicate SelectedNames(names: seq<string>, dialogues: seq<DialogueSO>, startingOnly: bool) {
    exists idx :: NamesAt(names, dialogues, idx) && AdmittedAt(dialogues, startingOnly, idx)
  }

  /** The loop shared by the two name getters: skip non-starting dialogues when filtering, keep the rest in order. */
  function DialogueNames(dialogues: seq<DialogueSO>, startingOnly: bool): (names: seq<string>)
    ensures |names| <= |dialogues|
    ensures !startingOnly ==> |names| == |dialogues|
    ensures !startingOnly ==> forall i :: 0 <= i < |names| ==> names[i] == dialogues[i].dialogueName
  {
    if dialogues == [] then []
    else
      var init := dialogues[..|dialogues| - 1];
      var last := dialogues[|dialogues| - 1];
      var names := DialogueNames(init, startingOnly);
      if Admitted(last, startingOnly) then names + [last.dialogueName] else names
  }

  lemma {:induction false} DialogueNamesSelected(dialogues: seq<DialogueSO>, startingOnly: bool)
    ensures SelectedNames(DialogueNames(dialogues, startingOnly), dialogues, startingOnly)
  {
    if dialogues == [] {
      assert NamesAt([], dialogues, []) && AdmittedAt(dialogues, startingOnly, []);
    } else {
      var n := |dialogues| - 1;
      var init := dialogues[..n];
      DialogueNamesSelected(init, startingOnly);
      var idx: seq<nat> :| NamesAt(DialogueNames(init, startingOnly), init, idx) && AdmittedAt(init, startingOnly, idx);
      var keep := Admitted(dialogues[n], startingOnly);
      var idx' := if keep then idx + [n] else idx;
      NamesSnoc(DialogueNames(init, startingOnly), dialogues, idx, keep);
      AdmittedSnoc(dialogues, startingOnly, idx, keep);
      assert NamesAt(DialogueNames(dialogues, startingOnly), dialogues, idx');
    }
  }

  lemma {:induction false} NamesSnoc(names: seq<string>, dialogues: seq<DialogueSO>, idx: seq<nat>, keep: bool)
    requires dialogues != [] && NamesAt(names, dialogues[..|dialogues| - 1], idx)
    ensures var n := |dialogues| - 1;
      NamesAt(if keep then names + [dialogues[n].dialogueName] else names, dialogues, if keep then idx + [n] else idx)
  {
    var n := |dialogues| - 1;
    var init := dialogues[..n];
    forall k | 0 <= k < |idx| ensures init[idx[k]] == dialogues[idx[k]] { }
    if keep {
      var idx', names' := idx + [n], names + [dialogues[n].dialogueName];
      forall k, l | 0 <= k < l < |idx'|
        ensures idx'[k] < idx'[l]
      {
        if l < |idx| {
          assert idx'[k] == idx[k] && idx'[l] == idx[l];
        } else {
          assert idx'[k] == idx[k] < n;
        }
      }
      forall k | 0 <= k < |idx'|
        ensures idx'[k] < |dialogues| && names'[k] == dialogues[idx'[k]].dialogueName
      {
        if k < |idx| {
          assert idx'[k] == idx[k] && names'[k] == names[k];
        }
      }
    }
  }

  lemma {:induction false} AdmittedSnoc(dialogues: seq<DialogueSO>, startingOnly: bool, idx: seq<nat>, keep: bool)
    requires dialogues != [] && keep == Admitted(dialogues[|dialogues| - 1], startingOnly)
    requires forall k :: 0 <= k < |idx| ==> idx[k] < |dialogues| - 1
    requires AdmittedAt(dialogues[..|dialogues| - 1], startingOnly, idx)
    ensures AdmittedAt(dialogues, startingOnly, if keep then idx + [|dialogues| - 1] else idx)
  {
    var n := |dialogues| - 1;
    var init := dialogues[..n];
    var idx' := if keep then idx + [n] else idx;
    forall i | 0 <= i < |dialogues|
      ensures i in idx' <==> Admitted(dialogues[i], startingOnly)
    {
      if i < n {
        assert dialogues[i] == init[i];
        assert i in idx' <==> i in idx;
      } else {
        assert i !in idx;
        if keep {
          assert idx'[|idx|] == i;
        }
      }
    }
  }

  class DialogueContainerSO {
    var fileName: string
    var dialogueGroups: SerializableDictionary<DialogueGroupSO, DialogueSO>
    var ungroupedDialogues: seq<DialogueSO>

    /** Sets the file name and starts with no groups and no ungrouped dialogues. */
    constructor Initialize(fileName: string)
      ensures this.fileName == fileName
      ensures fresh(dialogueGroups) && dialogueGroups.Valid() && dialogueGroups.contents.keys == []
      ensures ungroupedDialogues == []
    {
      this.fileName := fileName;
      dialogueGroups := new SerializableDictionary();
      ungroupedDialogues := [];
    }

    /** One group name per group key, in key order. */
    function GetdialogueGroupNames(): (names: seq<string>)
      reads this, dialogueGroups
      ensures |names| == |dialogueGroups.contents.keys|
      ensures forall i :: 0 <= i < |names| ==> names[i] == dialogueGroups.contents.keys[i].groupName
    {
      var keys := dialogueGroups.contents.keys;
      seq(|keys|, i requires 0 <= i < |keys| => keys[i].groupName)
    }

    /** The dialogue names of one group; the group must be a key, as the dictionary indexer throws otherwise. */
    function GetGroupedDialogueNames(dialogueGroup: DialogueGroupSO, startingDialoguesOnly: bool): (names: seq<string>)
      reads this, dialogueGroups
      requires dialogueGroup in dialogueGroups.contents.entries
      ensures SelectedNames(names, dialogueGroups.contents.entries[dialogueGroup], startingDialoguesOnly)
    {
      var dialogues := dialogueGroups.contents.entries[dialogueGroup];
      DialogueNamesSelected(dialogues, startingDialoguesOnly);
      DialogueNames(dialogues, startingDialoguesOnly)
    }

    function GetUngroupedDialogueNames(startingDialoguesOnly: bool): (names: seq<string>)
      reads this
      ensures SelectedNames(names, ungroupedDialogues, startingDialoguesOnly)
    {
      DialogueNamesSelected(ungroupedDialogues, startingDialoguesOnly);
      DialogueNames(ungroupedDialogues, startingDialoguesOnly)
    }
  }
}
