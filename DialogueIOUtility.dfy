/**
 * The bookkeeping of the editor's save and load: which assets a save must
 * delete, how nodes are grouped, how choices are copied and linked. Asset
 * database calls are replaced by a log of the deletions they would issue.
 */
module DialogueIO {
  import opened Wrappers
  import opened Sequences
  import opened CollectionUtility
  import opened DialogueData

  /** A deletion issued by a save: a group folder, or a dialogue asset in a group or in the global folder. */
  datatype Removal =
    | GroupFolder(group: string)
    | GroupedDialogueAsset(group: string, dialogueName: string)
    | UngroupedDialogueAsset(dialogueName: string)

  /**
   * The names the previous save recorded in the graph's save data; None
   * stands for a null field (a graph that was never saved).
   */
  class GraphSaveData {
    var oldGroupNames: Option<seq<string>>
    var oldGroupedNodeNames: Option<Multimap<string, string>>
    var oldUngroupedNodeNames: Option<seq<string>>

    ghost predicate Valid()
      reads this
    {
      oldGroupedNodeNames.Some? ==> oldGroupedNodeNames.value.Valid()
    }
  }

  /**
   * The names of the previous save that the current save no longer has,
   * without repetitions and in their old order; nothing when there is no
   * previous list or it is empty.
   */
  function StaleNames(oldNames: Option<seq<string>>, current: seq<string>): (stale: seq<string>)
    ensures forall n :: n in stale <==> oldNames.Some? && n in oldNames.value && n !in current
    ensures Distinct(stale)
    ensures oldNames.Some? ==> IsSubsequence(stale, oldNames.value)
  {
    if oldNames.Some? && |oldNames.value| > 0 then
      ExceptIsSetDifference(oldNames.value, current);
      ExceptIsSubsequence(oldNames.value, current);
      Except(oldNames.value, current)
    else
      assert SubsequenceAt([], if oldNames.Some? then oldNames.value else [], []);
      []
  }

  function FolderRemovals(groups: seq<string>): (removed: seq<Removal>)
    ensures |removed| == |groups|
    ensures forall i :: 0 <= i < |groups| ==> removed[i] == GroupFolder(groups[i])
  {
    if groups == [] then [] else FolderRemovals(groups[..|groups| - 1]) + [GroupFolder(groups[|groups| - 1])]
  }

  function UngroupedRemovals(names: seq<string>): (removed: seq<Removal>)
    ensures |removed| == |names|
    ensures forall i :: 0 <= i < |names| ==> removed[i] == UngroupedDialogueAsset(names[i])
  {
    if names == [] then [] else UngroupedRemovals(names[..|names| - 1]) + [UngroupedDialogueAsset(names[|names| - 1])]
  }

  function GroupedRemovals(group: string, names: seq<string>): (removed: seq<Removal>)
    ensures |removed| == |names|
    ensures forall i :: 0 <= i < |names| ==> removed[i] == GroupedDialogueAsset(group, names[i])
  {
    if names == [] then [] else GroupedRemovals(group, names[..|names| - 1]) + [GroupedDialogueAsset(group, names[|names| - 1])]
  }

  /**
   * Deletes the folder of every group the previous save had and this one
   * has not, then records the current group names as the old ones.
   */
  method UpdateOldGroups(currentGroupNames: seq<string>, graphData: GraphSaveData) returns (removed: seq<Removal>)
    modifies graphData
    ensures removed == FolderRemovals(StaleNames(old(graphData.oldGroupNames), currentGroupNames))
    ensures graphData.oldGroupNames == Some(currentGroupNames)
    ensures graphData.oldGroupedNodeNames == old(graphData.oldGroupedNodeNames)
    ensures graphData.oldUngroupedNodeNames == old(graphData.oldUngroupedNodeNames)
  {
    removed := [];
    if graphData.oldGroupNames.Some? && |graphData.oldGroupNames.value| > 0 {
      var groupsToRemove := Except(graphData.oldGroupNames.value, currentGroupNames);
      var i := 0;
      while i < |groupsToRemove|
        invariant 0 <= i <= |groupsToRemove|
        invariant removed == FolderRemovals(groupsToRemove[..i])
      {
        assert groupsToRemove[..i + 1][..i] == groupsToRemove[..i];
        removed := removed + [GroupFolder(groupsToRemove[i])];
        i := i + 1;
      }
      assert groupsToRemove[..i] == groupsToRemove;
    }
    graphData.oldGroupNames := Some(currentGroupNames);
  }

  /** The same reconciliation for the dialogues outside any group. */
  method UpdateOldUngroupedNodes(currentUngroupedNodeNames: seq<string>, graphData: GraphSaveData)
      returns (removed: seq<Removal>)
    modifies graphData
    ensures removed == UngroupedRemovals(StaleNames(old(graphData.oldUngroupedNodeNames), currentUngroupedNodeNames))
    ensures graphData.oldUngroupedNodeNames == Some(currentUngroupedNodeNames)
    ensures graphData.oldGroupNames == old(graphData.oldGroupNames)
    ensures graphData.oldGroupedNodeNames == old(graphData.oldGroupedNodeNames)
  {
    removed := [];
    if graphData.oldUngroupedNodeNames.Some? && |graphData.oldUngroupedNodeNames.value| > 0 {
      var nodesToRemove := Except(graphData.oldUngroupedNodeNames.value, currentUngroupedNodeNames);
      var i := 0;
      while i < |nodesToRemove|
        invariant 0 <= i <= |nodesToRemove|
        invariant removed == UngroupedRemovals(nodesToRemove[..i])
      {
        assert nodesToRemove[..i + 1][..i] == nodesToRemove[..i];
        removed := removed + [UngroupedDialogueAsset(nodesToRemove[i])];
        i := i + 1;
      }
      assert nodesToRemove[..i] == nodesToRemove;
    }
    graphData.oldUngroupedNodeNames := Some(currentUngroupedNodeNames);
  }

  /** The names the current save lists under `group`; a group it lacks lists none. */
  function CurrentNames(current: Multimap<string, string>, group: string): (names: seq<string>)
    ensures group !in current.entries ==> names == []
    ensures group in current.entries ==> names == current.entries[group]
  {
    if group in current.entries then current.entries[group] else []
  }

  /**
   * The deletions for the old groups `keys`, in key order: in each old
   * group, the old names the current save no longer lists under it. A group
   * the current save lacks (it was deleted, or it survives without nodes)
   * lists none, so all its old dialogues go.
   */
  function StaleGroupedAssets(keys: seq<string>, oldEntries: map<string, seq<string>>,
                              current: Multimap<string, string>): (removed: seq<Removal>)
    requires forall k :: k in keys ==> k in oldEntries
  {
    if keys == [] then []
    else
      var key := keys[|keys| - 1];
      StaleGroupedAssets(keys[..|keys| - 1], oldEntries, current)
      + GroupedRemovals(key, Except(oldEntries[key], CurrentNames(current, key)))
  }

  /** Exactly the old dialogues of each old group that the current save no longer lists under it are deleted. */
  lemma {:induction false} StaleGroupedAssetsExact(keys: seq<string>, oldEntries: map<string, seq<string>>,
                                                   current: Multimap<string, string>)
    requires forall k :: k in keys ==> k in oldEntries
    ensures forall r :: r in StaleGroupedAssets(keys, oldEntries, current) <==>
      && r.GroupedDialogueAsset?
      && r.group in keys
      && r.dialogueName in oldEntries[r.group]
      && !(r.group in current.entries && r.dialogueName in current.entries[r.group])
  {
    if keys != [] {
      var init, key := keys[..|keys| - 1], keys[|keys| - 1];
      StaleGroupedAssetsExact(init, oldEntries, current);
      assert forall k :: k in keys <==> k in init || k == key;
      ExceptIsSetDifference(oldEntries[key], CurrentNames(current, key));
    }
  }

  /**
   * UpdateOldGroupedNodes as written: line 146 looks each old group up in
   * the current dictionary before the ContainsKey test, so the first old
   * group that the current save lacks throws KeyNotFoundException. The
   * outcome is the deletions issued so far and whether it threw.
   */
  function StaleGroupedAssetsAsWritten(keys: seq<string>, oldEntries: map<string, seq<string>>,
                                       current: Multimap<string, string>): (outcome: (seq<Removal>, bool))
    requires forall k :: k in keys ==> k in oldEntries
    ensures outcome.1 <==> exists k :: k in keys && k !in current.entries
  {
    if keys == [] then ([], false)
    else
      var key := keys[|keys| - 1];
      var earlier := StaleGroupedAssetsAsWritten(keys[..|keys| - 1], oldEntries, current);
      assert forall k :: k in keys <==> k in keys[..|keys| - 1] || k == key;
      if earlier.1 then earlier
      else if key !in current.entries then (earlier.0, true)
      else (earlier.0 + GroupedRemovals(key, Except(oldEntries[key], current.entries[key])), false)
  }

  /** Where no old group is missing, the code as written and the corrected reconciliation agree. */
  lemma {:induction false} AsWrittenAgreesWhenGroupsSurvive(keys: seq<string>, oldEntries: map<string, seq<string>>,
                                                            current: Multimap<string, string>)
    requires forall k :: k in keys ==> k in oldEntries
    requires forall k :: k in keys ==> k in current.entries
    ensures StaleGroupedAssetsAsWritten(keys, oldEntries, current) == (StaleGroupedAssets(keys, oldEntries, current), false)
  {
    if keys != [] {
      AsWrittenAgreesWhenGroupsSurvive(keys[..|keys| - 1], oldEntries, current);
    }
  }

  /**
   * Where some old group is missing, the code as written stops at the first
   * one, `keys[f]`: the deletions for the groups before it have happened,
   * and those for it and every later group never do.
   */
  lemma {:induction false} AsWrittenStopsAtFirstMissing(keys: seq<string>, oldEntries: map<string, seq<string>>,
                                                        current: Multimap<string, string>) returns (f: nat)
    requires forall k :: k in keys ==> k in oldEntries
    requires exists k :: k in keys && k !in current.entries
    ensures f < |keys| && keys[f] !in current.entries
    ensures forall i :: 0 <= i < f ==> keys[i] in current.entries
    ensures StaleGroupedAssetsAsWritten(keys, oldEntries, current) == (StaleGroupedAssets(keys[..f], oldEntries, current), true)
  {
    var init, key := keys[..|keys| - 1], keys[|keys| - 1];
    assert forall k :: k in keys <==> k in init || k == key;
    if exists k :: k in init && k !in current.entries {
      f := AsWrittenStopsAtFirstMissing(init, oldEntries, current);
      assert keys[..f] == init[..f];
    } else {
      f := |keys| - 1;
      assert keys[..f] == init;
      AsWrittenAgreesWhenGroupsSurvive(init, oldEntries, current);
    }
  }

  /**
   * Deleting the group "G" (with dialogue "a") from the graph makes the next
   * save throw as written, before any deletion; the corrected reconciliation
   * deletes the stale dialogue "a".
   */
  lemma RemovedGroupThrowsAsWritten()
    ensures StaleGroupedAssetsAsWritten(["G"], map["G" := ["a"]], Empty()) == ([], true)
    ensures StaleGroupedAssets(["G"], map["G" := ["a"]], Empty()) == [GroupedDialogueAsset("G", "a")]
  {
    assert "G" in ["G"];
    assert Except(["a"], []) == ["a"] by {
      ExceptIsSetDifference(["a"], []);
    }
  }

  /** The reconciliation over the previous save's record; nothing when it is null or has no groups. */
  function StaleGroupedNodes(oldGroupedNodeNames: Option<Multimap<string, string>>,
                             current: Multimap<string, string>): seq<Removal>
    requires oldGroupedNodeNames.Some? ==> oldGroupedNodeNames.value.Valid()
  {
    if oldGroupedNodeNames.Some? && |oldGroupedNodeNames.value.keys| > 0 then
      var oldNames := oldGroupedNodeNames.value;
      assert forall k :: k in oldNames.keys ==> k in oldNames.entries by {
        forall k | k in oldNames.keys ensures k in oldNames.entries {
          var i :| 0 <= i < |oldNames.keys| && oldNames.keys[i] == k;
        }
      }
      StaleGroupedAssets(oldNames.keys, oldNames.entries, current)
    else []
  }

  /** The inner loop of UpdateOldGroupedNodes: one deletion per stale dialogue of `group`, in order. */
  method RemoveStaleDialogues(group: string, nodesToRemove: seq<string>) returns (groupRemoved: seq<Removal>)
    ensures groupRemoved == GroupedRemovals(group, nodesToRemove)
  {
    groupRemoved := [];
    var j := 0;
    while j < |nodesToRemove|
      invariant 0 <= j <= |nodesToRemove|
      invariant groupRemoved == GroupedRemovals(group, nodesToRemove[..j])
    {
      assert nodesToRemove[..j + 1][..j] == nodesToRemove[..j];
      groupRemoved := groupRemoved + [GroupedDialogueAsset(group, nodesToRemove[j])];
      j := j + 1;
    }
    assert nodesToRemove[..j] == nodesToRemove;
  }

  /**
   * UpdateOldGroupedNodes, corrected: for every old group, deletes the
   * dialogues the current save no longer lists under it (all of them when
   * the current save lacks the group), then records the current grouping as
   * the old one.
   */
  method UpdateOldGroupedNodes(currentGroupedNodeNames: Multimap<string, string>, graphData: GraphSaveData)
      returns (removed: seq<Removal>)
    requires graphData.Valid() && currentGroupedNodeNames.Valid()
    modifies graphData
    ensures graphData.Valid()
    ensures removed == StaleGroupedNodes(old(graphData.oldGroupedNodeNames), currentGroupedNodeNames)
    ensures graphData.oldGroupedNodeNames == Some(currentGroupedNodeNames)
    ensures graphData.oldGroupNames == old(graphData.oldGroupNames)
    ensures graphData.oldUngroupedNodeNames == old(graphData.oldUngroupedNodeNames)
  {
    removed := [];
    if graphData.oldGroupedNodeNames.Some? && |graphData.oldGroupedNodeNames.value.keys| > 0 {
      var oldNames := graphData.oldGroupedNodeNames.value;
      var keys := oldNames.keys;
      assert forall k :: k in keys ==> k in oldNames.entries by {
        forall k | k in keys ensures k in oldNames.entries {
          var i :| 0 <= i < |keys| && keys[i] == k;
        }
      }
      var i := 0;
      while i < |keys|
        invariant 0 <= i <= |keys|
        invariant removed == StaleGroupedAssets(keys[..i], oldNames.entries, currentGroupedNodeNames)
        invariant unchanged(graphData)
      {
        var key := keys[i];
        assert keys[..i + 1][..i] == keys[..i] && keys[..i + 1][i] == key;
        var currentNames: seq<string> := [];
        if key in currentGroupedNodeNames.entries {
          currentNames := currentGroupedNodeNames.entries[key];
        }
        assert currentNames == CurrentNames(currentGroupedNodeNames, key);
        var groupRemoved := RemoveStaleDialogues(key, Except(oldNames.entries[key], currentNames));
        removed := removed + groupRemoved;
        i := i + 1;
      }
      assert keys[..i] == keys;
    }
    graphData.oldGroupedNodeNames := Some(currentGroupedNodeNames);
  }

  /** A choice as the graph and its save data hold it; an empty `nodeID` means the choice is not connected. */
  datatype DialogueChoiceSaveData = DialogueChoiceSaveData(text: string, nodeID: string)

  /** What saving reads from a graph node; `groupTitle` is None for a node outside any group. */
  datatype GraphNode = GraphNode(id: string, dialogueName: string, groupTitle: Option<string>,
                                 choices: seq<DialogueChoiceSaveData>)

  /** The names of the nodes whose group is `group`, in node order. */
  function NamesInGroup(nodes: seq<GraphNode>, group: Option<string>): (names: seq<string>)
    ensures |names| <= |nodes|
  {
    if nodes == [] then []
    else
      var last := nodes[|nodes| - 1];
      NamesInGroup(nodes[..|nodes| - 1], group) + (if last.groupTitle == group then [last.dialogueName] else [])
  }

  /** Some node among the first `n` carries the group title `t`. */
  ghost predicate TitleSeen(nodes: seq<GraphNode>, n: nat, t: string)
  {
    exists j :: 0 <= j < n && j < |nodes| && nodes[j].groupTitle == Some(t)
  }

  /** After the first `i` nodes: each name is under its group's title, or in the ungrouped list, in node order. */
  ghost predicate GroupedUpTo(nodes: seq<GraphNode>, i: nat, grouped: Multimap<string, string>, ungrouped: seq<string>)
    requires i <= |nodes|
  {
    && grouped.Valid()
    && ungrouped == NamesInGroup(nodes[..i], None)
    && (forall t :: t in grouped.entries <==> TitleSeen(nodes, i, t))
    && (forall t :: t in grouped.entries ==> grouped.entries[t] == NamesInGroup(nodes[..i], Some(t)))
    && grouped.Total() + |ungrouped| == i
  }

  lemma NamesInGroupSnoc(nodes: seq<GraphNode>, i: nat, group: Option<string>)
    requires i < |nodes|
    ensures NamesInGroup(nodes[..i + 1], group)
      == NamesInGroup(nodes[..i], group) + (if nodes[i].groupTitle == group then [nodes[i].dialogueName] else [])
  {
    assert nodes[..i + 1][..i] == nodes[..i];
  }

  lemma {:induction false} NamesInGroupAbsent(nodes: seq<GraphNode>, i: nat, t: string)
    requires i <= |nodes| && !TitleSeen(nodes, i, t)
    ensures NamesInGroup(nodes[..i], Some(t)) == []
  {
    if i > 0 {
      NamesInGroupAbsent(nodes, i - 1, t);
      NamesInGroupSnoc(nodes, i - 1, Some(t));
    }
  }

  lemma TitleSeenSnoc(nodes: seq<GraphNode>, i: nat, t: string)
    requires i < |nodes|
    ensures TitleSeen(nodes, i + 1, t) <==> TitleSeen(nodes, i, t) || nodes[i].groupTitle == Some(t)
  {
    if TitleSeen(nodes, i + 1, t) && nodes[i].groupTitle != Some(t) {
      var j :| 0 <= j < i + 1 && j < |nodes| && nodes[j].groupTitle == Some(t);
      assert TitleSeen(nodes, i, t);
    }
  }

  lemma GroupedStepGrouped(nodes: seq<GraphNode>, i: nat, grouped: Multimap<string, string>, ungrouped: seq<string>)
    requires i < |nodes| && nodes[i].groupTitle.Some? && GroupedUpTo(nodes, i, grouped, ungrouped)
    ensures GroupedUpTo(nodes, i + 1, WithItem(grouped, nodes[i].groupTitle.value, nodes[i].dialogueName), ungrouped)
  {
    var node := nodes[i];
    var title := node.groupTitle.value;
    var r := WithItem(grouped, title, node.dialogueName);
    NamesInGroupSnoc(nodes, i, None);
    WithItemCounts(grouped, title, node.dialogueName);
    forall t ensures t in r.entries <==> TitleSeen(nodes, i + 1, t) {
      TitleSeenSnoc(nodes, i, t);
    }
    forall t | t in r.entries ensures r.entries[t] == NamesInGroup(nodes[..i + 1], Some(t)) {
      NamesInGroupSnoc(nodes, i, Some(t));
      if t == title && title !in grouped.entries {
        NamesInGroupAbsent(nodes, i, title);
      }
    }
  }

  lemma GroupedStepUngrouped(nodes: seq<GraphNode>, i: nat, grouped: Multimap<string, string>, ungrouped: seq<string>)
    requires i < |nodes| && nodes[i].groupTitle.None? && GroupedUpTo(nodes, i, grouped, ungrouped)
    ensures GroupedUpTo(nodes, i + 1, grouped, ungrouped + [nodes[i].dialogueName])
  {
    NamesInGroupSnoc(nodes, i, None);
    forall t ensures t in grouped.entries <==> TitleSeen(nodes, i + 1, t) {
      TitleSeenSnoc(nodes, i, t);
    }
    forall t | t in grouped.entries ensures grouped.entries[t] == NamesInGroup(nodes[..i + 1], Some(t)) {
      NamesInGroupSnoc(nodes, i, Some(t));
    }
  }

  /**
   * The grouping loop of SaveNodes: every node's name goes either under its
   * group's title or into the ungrouped list, keeping node order.
   */
  method GroupNodeNames(nodes: seq<GraphNode>) returns (grouped: Multimap<string, string>, ungrouped: seq<string>)
    ensures grouped.Valid()
    ensures ungrouped == NamesInGroup(nodes, None)
    ensures forall t :: t in grouped.entries <==> exists j :: 0 <= j < |nodes| && nodes[j].groupTitle == Some(t)
    ensures forall t :: t in grouped.entries ==> grouped.entries[t] == NamesInGroup(nodes, Some(t))
    ensures grouped.Total() + |ungrouped| == |nodes|
  {
    var groupedNodeNames := new SerializableDictionary<string, string>();
    ungrouped := [];
    var i := 0;
    while i < |nodes|
      invariant 0 <= i <= |nodes|
      invariant groupedNodeNames.Valid()
      invariant GroupedUpTo(nodes, i, groupedNodeNames.contents, ungrouped)
    {
      var node := nodes[i];
      if node.groupTitle.Some? {
        GroupedStepGrouped(nodes, i, groupedNodeNames.contents, ungrouped);
        groupedNodeNames.AddItem(node.groupTitle.value, node.dialogueName);
      } else {
        GroupedStepUngrouped(nodes, i, groupedNodeNames.contents, ungrouped);
        ungrouped := ungrouped + [node.dialogueName];
      }
      i := i + 1;
    }
    assert nodes[..i] == nodes;
    grouped := groupedNodeNames.contents;
  }

  /** A null list of choices is reported and copied as an empty list; otherwise text and target ID are copied in order. */
  method CloneNodeChoices(choices: Option<seq<DialogueChoiceSaveData>>) returns (clonedChoices: seq<DialogueChoiceSaveData>)
    ensures clonedChoices == ClonedChoices(choices)
    ensures choices.None? ==> clonedChoices == []
    ensures choices.Some? ==> |clonedChoices| == |choices.value|
    ensures choices.Some? ==> forall i :: 0 <= i < |clonedChoices| ==>
      clonedChoices[i].text == choices.value[i].text && clonedChoices[i].nodeID == choices.value[i].nodeID
  {
    if choices.None? {
      return [];
    }
    clonedChoices := [];
    var i := 0;
    while i < |choices.value|
      invariant 0 <= i <= |choices.value|
      invariant |clonedChoices| == i
      invariant forall k :: 0 <= k < i ==>
        clonedChoices[k].text == choices.value[k].text && clonedChoices[k].nodeID == choices.value[k].nodeID
    {
      var choice := choices.value[i];
      clonedChoices := clonedChoices + [DialogueChoiceSaveData(choice.text, choice.nodeID)];
      i := i + 1;
    }
  }

  /** The runtime choices of a saved node: same texts in the same order, none connected yet. */
  method ConvertNodeChoicesToDialogueChoices(choices: seq<DialogueChoiceSaveData>)
      returns (dialogueChoices: seq<DialogueChoiceData>)
    ensures |dialogueChoices| == |choices|
    ensures forall i :: 0 <= i < |choices| ==>
      dialogueChoices[i].text == choices[i].text && dialogueChoices[i].nextDialogue == null
  {
    dialogueChoices := [];
    var i := 0;
    while i < |choices|
      invariant 0 <= i <= |choices|
      invariant |dialogueChoices| == i
      invariant forall k :: 0 <= k < i ==>
        dialogueChoices[k].text == choices[k].text && dialogueChoices[k].nextDialogue == null
    {
      dialogueChoices := dialogueChoices + [DialogueChoiceData(choices[i].text, null)];
      i := i + 1;
    }
  }

  /**
   * The runtime choices after linking: a connected choice points to the
   * dialogue created for its target ID, an unconnected one is kept as it is.
   */
  function Linked(dialogueChoices: seq<DialogueChoiceData>, saved: seq<DialogueChoiceSaveData>,
                  createdDialogues: map<string, DialogueSO>): (linked: seq<DialogueChoiceData>)
    requires |dialogueChoices| == |saved|
    requires forall i :: 0 <= i < |saved| && saved[i].nodeID != "" ==> saved[i].nodeID in createdDialogues
    ensures |linked| == |saved|
    ensures forall i :: 0 <= i < |saved| ==> linked[i].text == dialogueChoices[i].text
    ensures forall i :: 0 <= i < |saved| && saved[i].nodeID == "" ==> linked[i] == dialogueChoices[i]
    ensures forall i :: 0 <= i < |saved| && saved[i].nodeID != "" ==>
      linked[i].nextDialogue == createdDialogues[saved[i].nodeID]
  {
    seq(|saved|, i requires 0 <= i < |saved| =>
      if saved[i].nodeID == "" then dialogueChoices[i]
      else dialogueChoices[i].(nextDialogue := createdDialogues[saved[i].nodeID]))
  }

  /** What UpdateDialogueChoicesConnections demands: created dialogues for every node and every connected target. */
  predicate Linkable(nodes: seq<GraphNode>, createdDialogues: map<string, DialogueSO>)
    reads set id | id in createdDialogues :: createdDialogues[id]
  {
    && (forall j :: 0 <= j < |nodes| ==> nodes[j].id in createdDialogues)
    && (forall j :: 0 <= j < |nodes| ==> |createdDialogues[nodes[j].id].choices| == |nodes[j].choices|)
    && (forall j, i :: 0 <= j < |nodes| && 0 <= i < |nodes[j].choices| && nodes[j].choices[i].nodeID != "" ==>
          nodes[j].choices[i].nodeID in createdDialogues)
    && (forall j, k :: 0 <= j < k < |nodes| ==> createdDialogues[nodes[j].id] != createdDialogues[nodes[k].id])
  }

  /** The inner loop: links the choices of one created dialogue. */
  method ConnectChoices(dialogue: DialogueSO, saved: seq<DialogueChoiceSaveData>, createdDialogues: map<string, DialogueSO>)
    requires |dialogue.choices| == |saved|
    requires forall i :: 0 <= i < |saved| && saved[i].nodeID != "" ==> saved[i].nodeID in createdDialogues
    modifies dialogue
    ensures dialogue.choices == Linked(old(dialogue.choices), saved, createdDialogues)
  {
    var choiceIndex := 0;
    while choiceIndex < |saved|
      invariant 0 <= choiceIndex <= |saved|
      invariant |dialogue.choices| == |saved|
      invariant forall i :: 0 <= i < |saved| ==>
        dialogue.choices[i] == (if i < choiceIndex then Linked(old(dialogue.choices), saved, createdDialogues)[i]
                                else old(dialogue.choices)[i])
    {
      var choice := saved[choiceIndex];
      if choice.nodeID != "" {
        dialogue.choices := dialogue.choices[choiceIndex :=
          dialogue.choices[choiceIndex].(nextDialogue := createdDialogues[choice.nodeID])];
      }
      choiceIndex := choiceIndex + 1;
    }
  }

  /** Links, for every saved node, the choices of its created dialogue to the dialogues created for their targets. */
  method UpdateDialogueChoicesConnections(nodes: seq<GraphNode>, createdDialogues: map<string, DialogueSO>)
    requires Linkable(nodes, createdDialogues)
    modifies set id | id in createdDialogues :: createdDialogues[id]
    ensures forall j :: 0 <= j < |nodes| ==>
      createdDialogues[nodes[j].id].choices
        == Linked(old(createdDialogues[nodes[j].id].choices), nodes[j].choices, createdDialogues)
    ensures forall d :: (d in (set id | id in createdDialogues :: createdDialogues[id])
                         && forall j :: 0 <= j < |nodes| ==> d != createdDialogues[nodes[j].id])
                        ==> d.choices == old(d.choices)
  {
    var n := 0;
    while n < |nodes|
      invariant 0 <= n <= |nodes|
      invariant forall j :: 0 <= j < n ==>
        createdDialogues[nodes[j].id].choices
          == Linked(old(createdDialogues[nodes[j].id].choices), nodes[j].choices, createdDialogues)
      invariant forall d :: (d in (set id | id in createdDialogues :: createdDialogues[id])
                           && forall j :: 0 <= j < n ==> d != createdDialogues[nodes[j].id])
                          ==> d.choices == old(d.choices)
    {
      var dialogue := createdDialogues[nodes[n].id];
      ConnectChoices(dialogue, nodes[n].choices, createdDialogues);
      n := n + 1;
    }
  }

  // Loading a saved graph back into the editor.

  datatype GroupSaveData = GroupSaveData(id: string, name: string)

  /** A saved node; an empty group ID means the node was saved outside any group. */
  datatype NodeSaveData = NodeSaveData(id: string, name: string, text: string, groupID: string,
                                       choices: Option<seq<DialogueChoiceSaveData>>)

  /** A group placed in the graph view, with the IDs of the nodes added to it, in order. */
  datatype LoadedGroup = LoadedGroup(name: string, elements: seq<string>)

  /** A node placed in the graph view. */
  datatype LoadedNode = LoadedNode(name: string, text: string, choices: seq<DialogueChoiceSaveData>,
                                   group: Option<string>)

  /** The choices a loaded node receives: a copy of the saved ones, or none when the list is null. */
  function ClonedChoices(choices: Option<seq<DialogueChoiceSaveData>>): seq<DialogueChoiceSaveData>
  {
    if choices.None? then [] else choices.value
  }

  function AsLoaded(node: NodeSaveData): LoadedNode
  {
    LoadedNode(node.name, node.text, ClonedChoices(node.choices), if node.groupID == "" then None else Some(node.groupID))
  }

  /** The groups registered after loading `groups` on top of `loaded`, in order. */
  function GroupsLoaded(loaded: map<string, LoadedGroup>, groups: seq<GroupSaveData>): map<string, LoadedGroup>
  {
    if groups == [] then loaded
    else
      var last := groups[|groups| - 1];
      GroupsLoaded(loaded, groups[..|groups| - 1])[last.id := LoadedGroup(last.name, [])]
  }

  /** The nodes registered after loading `nodes` on top of `loaded`, in order. */
  function NodesLoaded(loaded: map<string, LoadedNode>, nodes: seq<NodeSaveData>): map<string, LoadedNode>
  {
    if nodes == [] then loaded
    else
      var last := nodes[|nodes| - 1];
      NodesLoaded(loaded, nodes[..|nodes| - 1])[last.id := AsLoaded(last)]
  }

  /** The IDs of the nodes saved in group `groupID`, in order. */
  function MembersOf(nodes: seq<NodeSaveData>, groupID: string): (members: seq<string>)
    ensures |members| <= |nodes|
  {
    if nodes == [] then []
    else
      var last := nodes[|nodes| - 1];
      MembersOf(nodes[..|nodes| - 1], groupID) + (if last.groupID == groupID then [last.id] else [])
  }

  /** Every non-empty group ID among `nodes` names a loaded group. */
  predicate GroupsKnown(loaded: map<string, LoadedGroup>, nodes: seq<NodeSaveData>)
  {
    forall i :: 0 <= i < |nodes| && nodes[i].groupID != "" ==> nodes[i].groupID in loaded
  }

  /** The groups after each grouped node of `nodes` has been added to its group, in order; no group is created. */
  function NodesAttached(loaded: map<string, LoadedGroup>, nodes: seq<NodeSaveData>): (attached: map<string, LoadedGroup>)
    requires GroupsKnown(loaded, nodes)
    ensures attached.Keys == loaded.Keys
  {
    if nodes == [] then loaded
    else
      var last := nodes[|nodes| - 1];
      var before := NodesAttached(loaded, nodes[..|nodes| - 1]);
      if last.groupID == "" then before
      else before[last.groupID := before[last.groupID].(elements := before[last.groupID].elements + [last.id])]
  }

  lemma {:induction false} GroupsLoadedKeys(loaded: map<string, LoadedGroup>, groups: seq<GroupSaveData>)
    ensures GroupsLoaded(loaded, groups).Keys == loaded.Keys + set i | 0 <= i < |groups| :: groups[i].id
  {
    if groups != [] {
      var n := |groups| - 1;
      GroupsLoadedKeys(loaded, groups[..n]);
      assert (set i | 0 <= i < |groups| :: groups[i].id)
        == (set i | 0 <= i < n :: groups[..n][i].id) + {groups[n].id};
    }
  }

  /**
   * LoadGroups with distinct new IDs: the registered IDs grow by exactly the
   * saved ones, each saved group is registered under its ID with its name
   * and no members, and previously loaded groups are kept.
   */
  lemma {:induction false} GroupsLoadedExact(loaded: map<string, LoadedGroup>, groups: seq<GroupSaveData>)
    requires forall i, j :: 0 <= i < j < |groups| ==> groups[i].id != groups[j].id
    ensures GroupsLoaded(loaded, groups).Keys == loaded.Keys + set i | 0 <= i < |groups| :: groups[i].id
    ensures forall i :: 0 <= i < |groups| ==>
      GroupsLoaded(loaded, groups)[groups[i].id] == LoadedGroup(groups[i].name, [])
    ensures forall id :: id in loaded && (forall i :: 0 <= i < |groups| ==> groups[i].id != id) ==>
      GroupsLoaded(loaded, groups)[id] == loaded[id]
  {
    GroupsLoadedKeys(loaded, groups);
    if groups != [] {
      var n := |groups| - 1;
      var prefix := groups[..n];
      GroupsLoadedExact(loaded, prefix);
      GroupsLoadedKeys(loaded, prefix);
      forall i | 0 <= i < |groups|
        ensures GroupsLoaded(loaded, groups)[groups[i].id] == LoadedGroup(groups[i].name, [])
      {
        if i < n {
          assert prefix[i] == groups[i];
        }
      }
      forall id | id in loaded && (forall i :: 0 <= i < |groups| ==> groups[i].id != id)
        ensures GroupsLoaded(loaded, groups)[id] == loaded[id]
      {
        assert forall i :: 0 <= i < n ==> prefix[i].id == groups[i].id;
      }
    }
  }

  lemma {:induction false} NodesLoadedKeys(loaded: map<string, LoadedNode>, nodes: seq<NodeSaveData>)
    ensures NodesLoaded(loaded, nodes).Keys == loaded.Keys + set i | 0 <= i < |nodes| :: nodes[i].id
  {
    if nodes != [] {
      var n := |nodes| - 1;
      NodesLoadedKeys(loaded, nodes[..n]);
      assert (set i | 0 <= i < |nodes| :: nodes[i].id)
        == (set i | 0 <= i < n :: nodes[..n][i].id) + {nodes[n].id};
    }
  }

  /**
   * LoadNodes with distinct new IDs: each saved node is registered under its
   * ID with its name, text, copied choices and group (none exactly for an
   * empty group ID), and previously loaded nodes are kept.
   */
  lemma {:induction false} NodesLoadedExact(loaded: map<string, LoadedNode>, nodes: seq<NodeSaveData>)
    requires forall i, j :: 0 <= i < j < |nodes| ==> nodes[i].id != nodes[j].id
    ensures NodesLoaded(loaded, nodes).Keys == loaded.Keys + set i | 0 <= i < |nodes| :: nodes[i].id
    ensures forall i :: 0 <= i < |nodes| ==> NodesLoaded(loaded, nodes)[nodes[i].id] == AsLoaded(nodes[i])
    ensures forall i :: 0 <= i < |nodes| ==>
      (NodesLoaded(loaded, nodes)[nodes[i].id].group.None? <==> nodes[i].groupID == "")
    ensures forall id :: id in loaded && (forall i :: 0 <= i < |nodes| ==> nodes[i].id != id) ==>
      NodesLoaded(loaded, nodes)[id] == loaded[id]
  {
    NodesLoadedKeys(loaded, nodes);
    if nodes != [] {
      var n := |nodes| - 1;
      var prefix := nodes[..n];
      NodesLoadedExact(loaded, prefix);
      NodesLoadedKeys(loaded, prefix);
      forall i | 0 <= i < |nodes| ensures NodesLoaded(loaded, nodes)[nodes[i].id] == AsLoaded(nodes[i]) {
        if i < n {
          assert prefix[i] == nodes[i];
        }
      }
      forall id | id in loaded && (forall i :: 0 <= i < |nodes| ==> nodes[i].id != id)
        ensures NodesLoaded(loaded, nodes)[id] == loaded[id]
      {
        assert forall i :: 0 <= i < n ==> prefix[i].id == nodes[i].id;
      }
    }
  }

  /**
   * LoadNodes attaches every grouped node, and only those, to the group
   * loaded under its group ID: each group's members grow by the IDs of its
   * saved nodes in save order, and its name is kept.
   */
  lemma {:induction false} NodesAttachedExact(loaded: map<string, LoadedGroup>, nodes: seq<NodeSaveData>)
    requires GroupsKnown(loaded, nodes)
    ensures forall g :: g in loaded && g != "" ==>
      NodesAttached(loaded, nodes)[g] == LoadedGroup(loaded[g].name, loaded[g].elements + MembersOf(nodes, g))
    ensures "" in loaded ==> NodesAttached(loaded, nodes)[""] == loaded[""]
  {
    if nodes != [] {
      var n := |nodes| - 1;
      var prefix := nodes[..n];
      assert GroupsKnown(loaded, prefix) by {
        forall i | 0 <= i < n && prefix[i].groupID != "" ensures prefix[i].groupID in loaded {
          assert prefix[i] == nodes[i];
        }
      }
      NodesAttachedExact(loaded, prefix);
      forall g | g in loaded && g != ""
        ensures NodesAttached(loaded, nodes)[g] == LoadedGroup(loaded[g].name, loaded[g].elements + MembersOf(nodes, g))
      {
        assert loaded[g].elements + MembersOf(nodes, g)
          == (loaded[g].elements + MembersOf(prefix, g)) + (if nodes[n].groupID == g then [nodes[n].id] else []);
      }
    }
  }

  /** The graph view's registries of loaded groups and nodes, keyed by saved ID. */
  class GraphLoader {
    var loadedGroups: map<string, LoadedGroup>
    var loadedNodes: map<string, LoadedNode>

    constructor ()
      ensures loadedGroups == map[] && loadedNodes == map[]
    {
      loadedGroups := map[];
      loadedNodes := map[];
    }

    /**
     * Registers every saved group under its ID; a null list is reported and
     * loads nothing. Registering an ID twice throws, hence the precondition.
     */
    method LoadGroups(groups: Option<seq<GroupSaveData>>)
      requires groups.Some? ==> forall i, j :: 0 <= i < j < |groups.value| ==> groups.value[i].id != groups.value[j].id
      requires groups.Some? ==> forall i :: 0 <= i < |groups.value| ==> groups.value[i].id !in loadedGroups
      modifies this
      ensures groups.None? ==> loadedGroups == old(loadedGroups)
      ensures groups.Some? ==> loadedGroups == GroupsLoaded(old(loadedGroups), groups.value)
      ensures loadedNodes == old(loadedNodes)
    {
      if groups.None? {
        return;
      }
      var i := 0;
      while i < |groups.value|
        invariant 0 <= i <= |groups.value|
        invariant loadedGroups == GroupsLoaded(old(loadedGroups), groups.value[..i])
        invariant loadedNodes == old(loadedNodes)
      {
        var groupData := groups.value[i];
        assert groups.value[..i + 1][..i] == groups.value[..i];
        loadedGroups := loadedGroups[groupData.id := LoadedGroup(groupData.name, [])];
        i := i + 1;
      }
      assert groups.value[..i] == groups.value;
    }

    /**
     * Registers every saved node under its ID with copied choices, and adds
     * each node with a non-empty group ID to the group loaded under that ID;
     * a null list is reported and loads nothing. A duplicate node ID or an
     * unknown group ID throws, hence the preconditions.
     */
    method LoadNodes(nodes: Option<seq<NodeSaveData>>)
      requires nodes.Some? ==> forall i, j :: 0 <= i < j < |nodes.value| ==> nodes.value[i].id != nodes.value[j].id
      requires nodes.Some? ==> forall i :: 0 <= i < |nodes.value| ==> nodes.value[i].id !in loadedNodes
      requires nodes.Some? ==> GroupsKnown(loadedGroups, nodes.value)
      modifies this
      ensures nodes.None? ==> loadedNodes == old(loadedNodes) && loadedGroups == old(loadedGroups)
      ensures nodes.Some? ==> loadedNodes == NodesLoaded(old(loadedNodes), nodes.value)
      ensures nodes.Some? ==> loadedGroups == NodesAttached(old(loadedGroups), nodes.value)
    {
      if nodes.None? {
        return;
      }
      var i := 0;
      while i < |nodes.value|
        invariant 0 <= i <= |nodes.value|
        invariant loadedNodes == NodesLoaded(old(loadedNodes), nodes.value[..i])
        invariant loadedGroups == NodesAttached(old(loadedGroups), nodes.value[..i])
      {
        var nodeData := nodes.value[i];
        var prefix := nodes.value[..i + 1];
        assert prefix[..i] == nodes.value[..i] && prefix[i] == nodeData;
        var choices := CloneNodeChoices(nodeData.choices);
        var group: Option<string> := if nodeData.groupID == "" then None else Some(nodeData.groupID);
        loadedNodes := loadedNodes[nodeData.id := LoadedNode(nodeData.name, nodeData.text, choices, group)];
        if nodeData.groupID != "" {
          var g := loadedGroups[nodeData.groupID];
          loadedGroups := loadedGroups[nodeData.groupID := g.(elements := g.elements + [nodeData.id])];
        }
        i := i + 1;
      }
      assert nodes.value[..i] == nodes.value;
    }
  }
}
