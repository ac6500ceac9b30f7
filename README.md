# Dialogue system and gameplay state machines, modelled in Dafny

This project models the core of a small Unity game written in C#. It covers:

- **The runtime dialogue cursor** (`Dialogue`): it walks a graph of `DialogueSO` nodes. It keeps an append-only history and an index into it for going back.
- **The dialogue variable store** (`DialogueVariables`): three maps from a name to a bool, an int or a string. Conditions read the store, and variable modifiers write it.
  - Both revisions of the condition evaluator are modelled.
  - So are both revisions of the conditional dialogue, which aggregates conditions with All/Any and triggers one of two branches.
- **The dialogue container** (`DialogueContainerSO`): it answers name queries over grouped and ungrouped dialogues.
- **The editor side:**
  - the save/load utility that keeps the asset folders in step with the graph (`DialogueIOUtility`);
  - the graph view's bookkeeping of ungrouped nodes with duplicate names (`DialogueGraphView`);
  - the inspector's repair of a popup index after the option list changes (`DialogueInspector`).
- **Gameplay:**
  - the clamped health manager (`HealthManager`);
  - the enemy's patrol state with its unique pseudo-random point selection (`PatrolEnemyState`);
  - the enemy state-machine driver (`EnemyBehaviour`);
  - the player's single-slot interaction machine (`PlayerInteraction`).

C# `int` is the subset type `Int32.Int32`. Unchecked overflow is written out as `Int32.Wrap`, and C# division, which truncates toward zero, as `Int32.DivTrunc`. A C# enum field may hold a value outside its named members, so each enum gets an extra `Unnamed…` constructor, which the source's `default` and `else` branches handle. Where the source reads a null list, the model uses `Option`. Events, warnings and calls into other objects are recorded in sequence-valued fields (a call log), so that contracts can say what was fired and in which order.

Where the code does something other than its names and comments suggest, the model follows the code:

- **Going back does not pop.** `GetBack`/`MoveBack` only move `lastDialogueIndex` down. The history keeps its entries, and a later advance appends after them (Assets/DialogueSystem/Scripts/Dialogue.cs:114-125, 182-192). `DialogueRuntime.BackThenForwardWalk` walks the A→B→C example and shows the history `[a, b, a]` that results.
- **The dialogue-box revision of `Trigger` has no variable-names guard.** It warns and returns on a null or empty condition list, exactly like the newer revision.
- **`ClearAllVariables` keeps the strings.** It empties the bool and int maps only, and the string map keeps its entries (Assets/Scripts/DialogueBox/Conditions/DialogueVariables.cs:45-49).
- **`MoveNext`/`GetNext` index before checking the range.** For a multiple-choice dialogue they read `Choices[choice]` inside `IsEndOfDialogue(choice)` before the range guard. An out-of-range choice therefore throws rather than warns, and the model makes an in-range choice a precondition (`DialogueRuntime.CanAdvance`).

## Model

| member | source | states |
|---|---|---|
| DialogueRuntime.Dialogue.constructor | Assets/DialogueSystem/Scripts/Dialogue.cs:27-30 | Awake resets the cursor: current is the start dialogue, first call pending, empty history, index -1 |
| DialogueRuntime.Dialogue.IsEndOfDialogue | Assets/DialogueSystem/Scripts/Dialogue.cs:40 | never an end on the first call; otherwise an end iff the current dialogue has exactly one choice and it leads nowhere |
| DialogueRuntime.Dialogue.IsEndOfDialogueFor | Assets/DialogueSystem/Scripts/Dialogue.cs:42-50 | multiple-choice: an end iff the chosen choice leads nowhere; single-choice: the same answer as the argument-less test |
| DialogueRuntime.Dialogue.IsChoiceAvailable | Assets/DialogueSystem/Scripts/Dialogue.cs:52 | holds iff the current dialogue has more than one choice |
| DialogueRuntime.Dialogue.GetCurrentChoices | Assets/DialogueSystem/Scripts/Dialogue.cs:54-69 | absent unless a choice is available; otherwise the choice texts, in order, one per choice |
| DialogueRuntime.Dialogue.GetNext | Assets/DialogueSystem/Scripts/Dialogue.cs:81-98 | the first call returns the current dialogue and pushes nothing; at an end it returns null and changes nothing; otherwise it pushes the old current, advances the index by one and returns the followed dialogue; the history-index invariant is kept |
| DialogueRuntime.Dialogue.GetCurrent | Assets/DialogueSystem/Scripts/Dialogue.cs:103-106 | returns the current dialogue |
| DialogueRuntime.Dialogue.GetBack | Assets/DialogueSystem/Scripts/Dialogue.cs:114-125 | with index below 0 returns null and changes nothing; otherwise current becomes the history entry at the index, the index drops by one, and the history is unchanged |
| DialogueRuntime.Dialogue.ResetToFirstDialogue | Assets/DialogueSystem/Scripts/Dialogue.cs:134-140 | current is the start dialogue, first call pending, history empty, index -1 |
| DialogueRuntime.Dialogue.MoveNext | Assets/DialogueSystem/Scripts/Dialogue.cs:146-177 | at an end nothing changes; otherwise the old current is appended, the index grows by one, and current follows the chosen choice (single-choice always follows the first) |
| DialogueRuntime.Dialogue.MoveBack | Assets/DialogueSystem/Scripts/Dialogue.cs:182-192 | with index below 0 nothing changes; otherwise current is the history entry at the index, which drops by one; the history is never shortened |
| DialogueSystemCondition.Evaluate | Assets/DialogueSystem/Scripts/Conditions/Condition.cs:23-88 | true only if the selected type's key is present and its comparator is a named one |
| DialogueSystemCondition.EvaluateMeaning | Assets/DialogueSystem/Scripts/Conditions/Condition.cs:25-85 | with the key present, each bool, int and string comparator means its relation: Is/And/Or/Xor; =, ≠, >, ≥, <, ≤; equality, inequality, substring, prefix, suffix |
| DialogueSystemCondition.NotEqualNegatesEqual | Assets/DialogueSystem/Scripts/Conditions/Condition.cs:54-55 | for ints and for strings, NotEqual is the negation of Equal |
| DialogueSystemCondition.AffixConditionImpliesContains | Assets/DialogueSystem/Scripts/Conditions/Condition.cs:72-80 | a string that StartsWith or EndsWith the literal also Contains it |
| DialogueSystemCondition.OnlySelectedFieldsMatter | Assets/DialogueSystem/Scripts/Conditions/Condition.cs:25-85 | two conditions that agree on the selected type's key, comparator and literal evaluate alike |
| DialogueSystemCondition.OnlySelectedEntryMatters | Assets/DialogueSystem/Scripts/Conditions/Condition.cs:28-30 | two stores that agree on the selected key give the same result, so evaluation depends on nothing else in the store |
| DialogueSystemCondition.HasSubstringAt | Assets/DialogueSystem/Scripts/Conditions/Condition.cs:76 | the Contains test holds iff the literal occurs at some position of the stored string |
| DialogueSystemCondition.AffixIsSubstring | Assets/DialogueSystem/Scripts/Conditions/Condition.cs:77-78 | a prefix or a suffix is a substring |
| DialogueBoxCondition.Evaluate | Assets/Scripts/DialogueBox/Conditions/Condition.cs:22-79 | true only if the selected key is present and the comparator is named; a string condition is plain equality with the literal |
| DialogueBoxCondition.AgreesWithNewerRevision | Assets/Scripts/DialogueBox/Conditions/Condition.cs:22-79 | the older evaluator gives the same answer as the newer one on the corresponding condition (its string test is the newer Equal) |
| Variables.WithDefaults | Assets/Scripts/DialogueBox/Conditions/DialogueVariables.cs:51-67 | the keys are the old keys plus the declared names; every declared name reads the zero value; other keys keep their values |
| Variables.WithDefaultsIdempotent | Assets/Scripts/DialogueBox/Conditions/DialogueVariables.cs:53-66 | declaring names that are already declared changes nothing, so duplicate names are harmless |
| Variables.DialogueVariables.GetBool | Assets/Scripts/DialogueBox/Conditions/DialogueVariables.cs:10-13 | present iff the key is stored, and then the stored value |
| Variables.DialogueVariables.GetInt | Assets/Scripts/DialogueBox/Conditions/DialogueVariables.cs:22-25 | present iff the key is stored, and then the stored value |
| Variables.DialogueVariables.GetString | Assets/Scripts/DialogueBox/Conditions/DialogueVariables.cs:34-37 | present iff the key is stored, and then the stored value |
| Variables.DialogueVariables.SetBool | Assets/Scripts/DialogueBox/Conditions/DialogueVariables.cs:15-18 | upsert of one key; a following GetBool returns the value; the other maps are unchanged |
| Variables.DialogueVariables.SetInt | Assets/Scripts/DialogueBox/Conditions/DialogueVariables.cs:27-30 | upsert of one key; a following GetInt returns the value; the other maps are unchanged |
| Variables.DialogueVariables.SetString | Assets/Scripts/DialogueBox/Conditions/DialogueVariables.cs:39-42 | upsert of one key; a following GetString returns the value; the other maps are unchanged |
| Variables.DialogueVariables.ClearAllVariables | Assets/Scripts/DialogueBox/Conditions/DialogueVariables.cs:45-49 | the bool and int maps become empty; the string map is untouched |
| Variables.DialogueVariables.SetDialogueVariablesNamesSO | Assets/Scripts/DialogueBox/Conditions/DialogueVariables.cs:51-67 | each map gets the declared names at false, 0 and "", and keys outside the manifest are kept |
| ConditionVariableModifier.BoolModifierMeaning | Assets/Scripts/DialogueBox/Conditions/ConditionVariableModifier.cs:29-46 | the selected bool becomes the literal (Set), the negation (Toggle), or the And/Or/Xor of the old value and the literal; an unnamed operation keeps the old value |
| ConditionVariableModifier.IntModifierMeaning | Assets/Scripts/DialogueBox/Conditions/ConditionVariableModifier.cs:57-74 | the selected int becomes the literal (Set); for Add, Subtract and Multiply, the 32-bit value congruent to the exact result modulo 2^32, which is the exact result when it fits; for Divide, the quotient truncated toward zero; an unnamed operation keeps the old value |
| ConditionVariableModifier.StringModifierMeaning | Assets/Scripts/DialogueBox/Conditions/ConditionVariableModifier.cs:85-93 | the selected string becomes the literal (Set) or the old value followed by the literal (Append); an unnamed operation keeps the old value |
| ConditionVariableModifier.ModifiedBool | Assets/Scripts/DialogueBox/Conditions/ConditionVariableModifier.cs:29-46 | no new value only for an unnamed modifier |
| ConditionVariableModifier.ModifiedInt | Assets/Scripts/DialogueBox/Conditions/ConditionVariableModifier.cs:57-74 | Add, Subtract and Multiply give the exact result when it fits in 32 bits; no new value only for an unnamed modifier |
| ConditionVariableModifier.ModifiedString | Assets/Scripts/DialogueBox/Conditions/ConditionVariableModifier.cs:85-93 | Append gives the old value followed by the literal |
| ConditionVariableModifier.AppliedBools | Assets/Scripts/DialogueBox/Conditions/ConditionVariableModifier.cs:23-52 | the key set never changes (an absent key is only reported); only the selected key can change, to Set/Toggle/And/Or/Xor of the old value and the literal; an unnamed operation or an absent key leaves the map unchanged |
| ConditionVariableModifier.AppliedInts | Assets/Scripts/DialogueBox/Conditions/ConditionVariableModifier.cs:53-80 | the key set never changes; only the selected key can change, to the 32-bit result of the operation; an unnamed operation or an absent key leaves the map unchanged |
| ConditionVariableModifier.AppliedStrings | Assets/Scripts/DialogueBox/Conditions/ConditionVariableModifier.cs:81-99 | the key set never changes; only the selected key can change, to the literal or the old value with the literal appended; an unnamed operation or an absent key leaves the map unchanged |
| ConditionVariableModifier.ApplyModifier | Assets/Scripts/DialogueBox/Conditions/ConditionVariableModifier.cs:21-101 | the store's three maps become the applied maps; Divide needs a non-zero literal, since the division throws |
| ConditionVariableModifier.ToggleTwice | Assets/Scripts/DialogueBox/Conditions/ConditionVariableModifier.cs:34-36 | toggling twice restores the bool map |
| ConditionVariableModifier.XorTwice | Assets/Scripts/DialogueBox/Conditions/ConditionVariableModifier.cs:43-45 | xor with the same literal twice restores the bool map |
| ConditionVariableModifier.AddThenSubtract | Assets/Scripts/DialogueBox/Conditions/ConditionVariableModifier.cs:62-67 | adding then subtracting the same literal restores the int map, even with 32-bit wrap-around |
| ConditionVariableModifier.DivideTruncates | Assets/Scripts/DialogueBox/Conditions/ConditionVariableModifier.cs:71-72 | Divide stores the quotient truncated toward zero: the remainder is smaller than the divisor and has the dividend's sign |
| DialogueSystemConditionalDialogue.Aggregate | Assets/DialogueSystem/Scripts/Conditions/ConditionalDialogue.cs:30-60 | All is true iff every condition holds and Any iff some condition holds; evaluation stops at the first deciding condition; an unnamed aggregation is false |
| DialogueSystemConditionalDialogue.Trigger | Assets/DialogueSystem/Scripts/Conditions/ConditionalDialogue.cs:16-76 | without a variable-names manifest or with a null or empty condition list it only warns; otherwise it triggers the true branch iff the aggregate holds and the false branch otherwise, and nothing when that branch is null |
| DialogueBoxConditionalDialogue.Aggregate | Assets/Scripts/DialogueBox/Conditions/ConditionalDialogue.cs:23-49 | All is true iff every condition holds and Any iff some condition holds; evaluation stops at the first deciding condition; an unnamed aggregation is false |
| DialogueBoxConditionalDialogue.Trigger | Assets/Scripts/DialogueBox/Conditions/ConditionalDialogue.cs:15-65 | with a null or empty condition list it only warns; otherwise it triggers the branch the aggregate selects, and nothing when that branch is null |
| CollectionUtility.WithItem | Assets/Scripts/Utils/CollectionUtility.cs:5-14 | a present key gets the value appended to its list; an absent key is added last with a one-element list; every other key is unchanged |
| CollectionUtility.WithItemCounts | Assets/Scripts/Utils/CollectionUtility.cs:5-14 | adding an item grows the total number of values by exactly one and the number of keys by at most one |
| CollectionUtility.SerializableDictionary.AddItem | Assets/Scripts/Utils/CollectionUtility.cs:5-14 | the dictionary's contents become WithItem of the old contents |
| DialogueContainer.DialogueNames | Assets/DialogueSystem/Scripts/ScriptableObjects/DialogueContainerSO.cs:28-56 | without the starting-only filter: every dialogue's name, in order |
| DialogueContainer.DialogueNamesSelected | Assets/DialogueSystem/Scripts/ScriptableObjects/DialogueContainerSO.cs:28-56 | the names are exactly those of the admitted dialogues (all, or the starting ones), in their original order |
| DialogueContainer.DialogueContainerSO.Initialize | Assets/DialogueSystem/Scripts/ScriptableObjects/DialogueContainerSO.cs:11-16 | the file name is set, and the group dictionary and the ungrouped list start empty |
| DialogueContainer.DialogueContainerSO.GetdialogueGroupNames | Assets/DialogueSystem/Scripts/ScriptableObjects/DialogueContainerSO.cs:18-26 | one name per group, in the dictionary's key order |
| DialogueContainer.DialogueContainerSO.GetGroupedDialogueNames | Assets/DialogueSystem/Scripts/ScriptableObjects/DialogueContainerSO.cs:28-40 | the names of the group's dialogues admitted by the filter, in order |
| DialogueContainer.DialogueContainerSO.GetUngroupedDialogueNames | Assets/DialogueSystem/Scripts/ScriptableObjects/DialogueContainerSO.cs:42-56 | the names of the ungrouped dialogues admitted by the filter, in order |
| DialogueIO.StaleNames | Assets/Editor/DialogueSystem/Utilities/DialogueIOUtility.cs:74-76 | a name is stale iff it was saved before and is not current; stale names are distinct and in their saved order |
| DialogueIO.UpdateOldGroups | Assets/Editor/DialogueSystem/Utilities/DialogueIOUtility.cs:72-85 | removes exactly the folders of the stale group names, then records the current group names; the other saved lists are unchanged |
| DialogueIO.UpdateOldUngroupedNodes | Assets/Editor/DialogueSystem/Utilities/DialogueIOUtility.cs:163-175 | removes exactly the assets of the stale ungrouped names, then records the current names |
| DialogueIO.StaleGroupedAssetsExact | Assets/Editor/DialogueSystem/Utilities/DialogueIOUtility.cs:142-157 | an asset is removed iff its group was saved, the node was saved in it, and the current dictionary does not list the node under that group; a group missing from the current dictionary counts as having no nodes |
| DialogueIO.StaleGroupedAssetsAsWritten | Assets/Editor/DialogueSystem/Utilities/DialogueIOUtility.cs:146 | the code as written fails (the dictionary indexer throws) iff some saved group is missing from the current dictionary |
| DialogueIO.AsWrittenStopsAtFirstMissing | Assets/Editor/DialogueSystem/Utilities/DialogueIOUtility.cs:144-151 | the code as written throws at the first saved group missing from the current dictionary, after removing the stale assets of every group before it |
| DialogueIO.AsWrittenAgreesWhenGroupsSurvive | Assets/Editor/DialogueSystem/Utilities/DialogueIOUtility.cs:144-151 | when every saved group still exists, the code as written and the corrected definition remove the same assets |
| DialogueIO.RemovedGroupThrowsAsWritten | Assets/Editor/DialogueSystem/Utilities/DialogueIOUtility.cs:146-148 | deleting the only group makes the code as written throw, where the corrected definition removes that group's saved dialogue asset |
| DialogueIO.UpdateOldGroupedNodes | Assets/Editor/DialogueSystem/Utilities/DialogueIOUtility.cs:140-161 | removes the stale grouped assets (corrected: a group missing from the current dictionary has all its saved dialogues removed), then records a copy of the current dictionary |
| DialogueIO.RemoveStaleDialogues | Assets/Editor/DialogueSystem/Utilities/DialogueIOUtility.cs:153-156 | removes exactly the given dialogue assets from the group's folder, in order |
| DialogueIO.NamesInGroup | Assets/Editor/DialogueSystem/Utilities/DialogueIOUtility.cs:120-133 | the names of the nodes in one group (or ungrouped), never more than there are nodes |
| DialogueIO.GroupNodeNames | Assets/Editor/DialogueSystem/Utilities/DialogueIOUtility.cs:115-138 | ungrouped nodes go to the list and grouped ones to their group's entry, in node order; a group key exists iff some node carries that title; every node is counted exactly once |
| DialogueIO.CloneNodeChoices | Assets/Editor/DialogueSystem/Utilities/DialogueIOUtility.cs:444-465 | a null list clones to an empty one; otherwise an element-by-element copy of text and node ID |
| DialogueIO.ConvertNodeChoicesToDialogueChoices | Assets/Editor/DialogueSystem/Utilities/DialogueIOUtility.cs:222-235 | one runtime choice per saved choice, with the same text and no target yet |
| DialogueIO.Linked | Assets/Editor/DialogueSystem/Utilities/DialogueIOUtility.cs:242-251 | texts are kept; a choice with an empty node ID is unchanged; any other choice targets the dialogue created for its node ID |
| DialogueIO.ConnectChoices | Assets/Editor/DialogueSystem/Utilities/DialogueIOUtility.cs:241-253 | the dialogue's choices become the linked choices |
| DialogueIO.UpdateDialogueChoicesConnections | Assets/Editor/DialogueSystem/Utilities/DialogueIOUtility.cs:237-255 | every created dialogue's choices are linked to the dialogues their saved node IDs name |
| DialogueIO.GroupsLoadedExact | Assets/Editor/DialogueSystem/Utilities/DialogueIOUtility.cs:345-352 | each loaded group is registered under its ID with its name and no elements; groups loaded earlier are kept |
| DialogueIO.NodesLoadedExact | Assets/Editor/DialogueSystem/Utilities/DialogueIOUtility.cs:314-324 | each loaded node is registered under its ID with its name, text, cloned choices and group, if any; nodes loaded earlier are kept |
| DialogueIO.NodesAttachedExact | Assets/Editor/DialogueSystem/Utilities/DialogueIOUtility.cs:326-333 | every group gains, in order, the nodes whose group ID names it; nodes without a group ID attach to no group |
| DialogueIO.NodesAttached | Assets/Editor/DialogueSystem/Utilities/DialogueIOUtility.cs:326-333 | attaching nodes never adds or removes a group |
| DialogueIO.GraphLoader.constructor | Assets/Editor/DialogueSystem/Utilities/DialogueIOUtility.cs:263-282 | loading starts with no groups and no nodes |
| DialogueIO.GraphLoader.LoadGroups | Assets/Editor/DialogueSystem/Utilities/DialogueIOUtility.cs:337-353 | a null list loads nothing; otherwise the groups become GroupsLoaded of the old groups |
| DialogueIO.GraphLoader.LoadNodes | Assets/Editor/DialogueSystem/Utilities/DialogueIOUtility.cs:306-335 | a null list loads nothing; otherwise the nodes become NodesLoaded and the groups NodesAttached of the old state |
| GraphView.CompatiblePortsMembers | Assets/Editor/DialogueSystem/Windows/DialogueGraphView.cs:25-36 | a port is compatible iff it is not the start port and belongs to another node |
| GraphView.CompatiblePortsOrdered | Assets/Editor/DialogueSystem/Windows/DialogueGraphView.cs:25-36 | the compatible ports keep the graph's port order |
| GraphView.DialogueGraphView.GetCompatiblePorts | Assets/Editor/DialogueSystem/Windows/DialogueGraphView.cs:25-36 | the loop's result is exactly the compatible ports |
| GraphView.RemoveFirstAt | Assets/Editor/DialogueSystem/Windows/DialogueGraphView.cs:120 | list removal takes out the first occurrence, and only it |
| GraphView.RemoveFirstDropsOne | Assets/Editor/DialogueSystem/Windows/DialogueGraphView.cs:120 | removing a present element lowers its multiplicity by one and leaves the rest |
| GraphView.WithoutKeepsOthers | Assets/Editor/DialogueSystem/Windows/DialogueGraphView.cs:109-129 | removing a node keeps every other name's list, removes no other key and never leaves an empty list |
| GraphView.WithoutDropsOne | Assets/Editor/DialogueSystem/Windows/DialogueGraphView.cs:119-124 | the removed node's list loses one occurrence of it, and the key goes once the list is empty |
| GraphView.DialogueGraphView.AddUngroupedNode | Assets/Editor/DialogueSystem/Windows/DialogueGraphView.cs:76-107 | a new name gets a one-node list with no error style; a taken name gets the node appended and every node under it flagged; the invariant (error style iff the name is shared) is kept |
| GraphView.DialogueGraphView.RemoveUngroupedNode | Assets/Editor/DialogueSystem/Windows/DialogueGraphView.cs:109-129 | an absent name changes nothing; otherwise the list under the name loses the node's first occurrence and the name goes once its list is empty; a single survivor loses its error style; the invariant is kept |
| GraphView.DialogueGraphView.CollectSelectedNodes | Assets/Editor/DialogueSystem/Windows/DialogueGraphView.cs:138-146 | exactly the selected elements that are dialogue nodes, in selection order |
| GraphView.DialogueGraphView.DeleteSelection | Assets/Editor/DialogueSystem/Windows/DialogueGraphView.cs:135-154 | every selected node is taken out of the name table and out of the graph's elements; the invariant is kept |
| DialogueInspector.IndexOf | Assets/Editor/DialogueSystem/Inspectors/DialogueInspector.cs:164-166 | -1 iff the name is absent; otherwise its first position |
| DialogueInspector.UpdateIndexOnDialogueGroupUpdate | Assets/Editor/DialogueSystem/Inspectors/DialogueInspector.cs:151-173 | a missing old selection gives 0; a still-matching index is kept; otherwise the first position of the old name, or 0 when it is gone; the result is a valid index of a non-empty list in the first two cases |
| Health.Clamp | Assets/Scripts/HealthManager.cs:38 | within [min, max] when min ≤ max; below min gives min, then above max gives max |
| Health.DamageNeverRaises | Assets/Scripts/HealthManager.cs:33-42 | damage never raises health in range: it subtracts exactly, or stops at zero |
| Health.HealNeverLowers | Assets/Scripts/HealthManager.cs:44-51 | a non-negative heal that does not overflow never lowers health and stops at the maximum |
| Health.OverflowingHealWraps | Assets/Scripts/HealthManager.cs:47 | a heal whose 32-bit sum overflows wraps around before clamping |
| Health.HealthManager.constructor | Assets/Scripts/HealthManager.cs:8-9 | 100 out of 100, alive, nothing notified |
| Health.HealthManager.CheckDeath | Assets/Scripts/HealthManager.cs:71-79 | health at or below zero becomes zero, the manager is dead and one death is notified; otherwise nothing changes |
| Health.HealthManager.DealDamage | Assets/Scripts/HealthManager.cs:33-42 | health becomes the clamped 32-bit difference; one change is notified with the old and new values; death exactly when health reaches zero |
| Health.HealthManager.Heal | Assets/Scripts/HealthManager.cs:44-51 | health becomes the clamped 32-bit sum; one change is notified; death exactly when health is zero |
| Health.HealthManager.FullHeal | Assets/Scripts/HealthManager.cs:53-59 | health becomes the maximum, one change is notified, and the death flag stays as it was |
| Health.HealthManager.InstaKill | Assets/Scripts/HealthManager.cs:61-68 | health becomes zero, one change is notified, and the manager dies |
| Patrol.MissingResidue | Assets/Scripts/Enemies/PatrolEnemyState.cs:100-108 | fewer than N distinct numbers below N leave one out, which is why the selection loop terminates |
| Patrol.UniqueRandomList | Assets/Scripts/Enemies/PatrolEnemyState.cs:95-111 | fails (C# throws) iff N < 2 or M is outside [1, N]; otherwise M distinct numbers, each in [0, N) |
| Patrol.PatrolEnemyState.RefreshPatrolPoints | Assets/Scripts/Enemies/PatrolEnemyState.cs:20-38 | fewer than two possible points switch patrolling off and change nothing else; otherwise the two points are possible points at distinct positions and the index restarts at 0 |
| Patrol.PatrolEnemyState.ManagePatroling | Assets/Scripts/Enemies/PatrolEnemyState.cs:54-63 | heads for the current point, and switches to the other one once it is reached |
| Patrol.PatrolEnemyState.CheckPlayerRange | Assets/Scripts/Enemies/PatrolEnemyState.cs:65-82 | a player in detection range becomes the chase target and switches the enemy to Chase; otherwise a player beyond the idle range switches it to Idle; otherwise nothing changes |
| Patrol.PatrolEnemyState.Update | Assets/Scripts/Enemies/PatrolEnemyState.cs:45-52 | the range check always runs first, with its switch to Chase or Idle; then, only while patrolling is on, one patrol step, even after such a switch |
| Enemy.IconsFor | Assets/Scripts/Enemies/EnemyBehaviour.cs:134-156 | each icon is shown iff the state is its own, and none in Idle |
| Enemy.AtMostOneIcon | Assets/Scripts/Enemies/EnemyBehaviour.cs:134-156 | at most one icon is active, and exactly one outside Idle |
| Enemy.TransitionCalls | Assets/Scripts/Enemies/EnemyBehaviour.cs:129-131 | the old state's exit, when there is one, comes before the new state's enter, which is last |
| Enemy.EnemyBehaviour.ChangeState | Assets/Scripts/Enemies/EnemyBehaviour.cs:122-157 | the state becomes the new one, the hook calls are appended in exit-then-enter order, and the icons are those of the new state |
| Enemy.EnemyBehaviour.Start | Assets/Scripts/Enemies/EnemyBehaviour.cs:71-87 | the enemy enters Idle with no icon shown |
| Enemy.EnemyBehaviour.Update | Assets/Scripts/Enemies/EnemyBehaviour.cs:89-93 | forwards one update to the current state, and nothing without one |
| Interaction.PlayerInteraction.OnTriggerEnter | Assets/InteractionSystem/Scripts/PlayerInteraction.cs:36-47 | ignored while something is held; otherwise the slot takes the collider's interactable, if any; the icon is shown iff something is held |
| Interaction.PlayerInteraction.OnTriggerExit | Assets/InteractionSystem/Scripts/PlayerInteraction.cs:49-60 | releases the slot and hides the icon only when the leaving collider's interactable is the held one |
| Interaction.PlayerInteraction.OnInteractionInput | Assets/InteractionSystem/Scripts/PlayerInteraction.cs:23-34 | with nothing held nothing changes; otherwise one interaction with the held object, then the slot is released and the icon hidden |

## Left out

- File and asset-database I/O (creating, loading and deleting assets and folders) is left out. Removals are returned as values (`DialogueIO.Removal`), so the contracts say which assets would be deleted.
- Logging and warnings are left out. Where a warning is the only effect of a branch, the contract says that nothing changes or returns a `Warned` outcome.
- `SaveGroups`, `SaveGroupToScriptableObject`, `SaveGroupToGraph`, `SaveNodeToGraph` and `SaveNodeToScriptableObject` are not modelled beyond the choice conversion and linking they call: the rest is asset creation.
- `LoadNodesConnections` is not modelled: it reconnects graph-view ports, which are drawing objects.
- The graph-save asset type (`DialogueGraphSaveDataSO`) is not part of this model beyond the three saved name lists it holds (`DialogueIO.GraphSaveData`).
- Unity's overloaded equality, which makes destroyed objects compare equal to null, is not modelled. References are plain nullable references.
- The static state of the IO utility and of the variable store becomes object fields and parameters.
- GraphView.DialogueGraphView: node drawing and the error colour are left out. A node's error style is a bool.
- GraphView.DialogueGraphView: the name table is a map, so the dictionary's key order is not modelled.
- DialogueIO.UpdateDialogueChoicesConnections: two nodes with the same dialogue name in the same folder share one `DialogueSO`, because `CreateAsset` loads the asset already at that path (Assets/Editor/DialogueSystem/Utilities/DialogueIOUtility.cs:201, 206). The source then relinks the shared asset node after node, so the last node linked wins. It throws at line 251 when a node has more choices than the shared asset was last initialised with. `Linkable` requires a distinct dialogue per node, with as many choices as the node has, so this case is not modelled.
- DialogueIO.GraphLoader.LoadNodes: the caller must supply distinct node IDs that are not yet loaded, and group IDs that are already loaded. The source would throw on the dictionary access otherwise, and that failure is not modelled as a value.
- Health.HealthManager.DealDamage: the damage is taken as the already computed non-negative `int`. The float defense formula and its rounding that produce it are left out.
- Patrol.UniqueRandomList: the seed is a natural number and `seed * count` is not wrapped to 32 bits. The result is stated as M distinct numbers in range, not as the particular numbers the generator picks. The iteration order of the C# hash set is not modelled.
- Patrol.PatrolEnemyState.ManagePatroling: the navigation agent's arrival test (`pathPending` and the remaining distance against the reach precision) is a bool parameter.
- Patrol.PatrolEnemyState.Update: the two physics overlap tests of `CheckPlayerRange` are parameters (the sighted player's transform, and whether the player is inside the idle radius). The enemy's `ChangeState` is recorded as the requested state in `stateChanges`, and its effect on the enemy is modelled in `Enemy.EnemyBehaviour.ChangeState`.
- Enemy.EnemyBehaviour: the states' own behaviours (idle waits, chasing, attacking), rotation and navigation-agent set-up are left out. States are the four `StateKind` values, and their hooks are recorded as calls.
- Interaction.PlayerInteraction: the icon's initial visibility is a scene setting. The model starts hidden with nothing held, and the `Interact` call is recorded as an entry in `interactions`.
- The inspector's drawing code is left out. `DialogueInspector.UpdateIndexOnDialogueGroupUpdate` takes the serialized property's values as parameters and returns the new index.
- Culture-sensitive string comparison is left out. `Contains`, `StartsWith` and `EndsWith` are compared ordinally on character sequences.

## Findings

| source | as written | input that shows it | evidently intended | confidence | as-written member | corrected member |
|---|---|---|---|---|---|---|
| Assets/Editor/DialogueSystem/Utilities/DialogueIOUtility.cs:146 | the current group's list is read with the dictionary indexer before the `ContainsKey` check on line 148, so a saved group missing from the current graph throws `KeyNotFoundException` | save a graph with group "G" holding node "a", delete the group, save again | a group missing from the current dictionary has no current nodes, so all its saved dialogue assets are removed. The key is missing both for a deleted group and for a group that survives with no nodes, because the current dictionary only gets a key when a node is added to it; the surviving group keeps its folder in `UpdateOldGroups`, so its stale dialogue assets must be removed here | not executed | DialogueIO.StaleGroupedAssetsAsWritten | DialogueIO.StaleGroupedAssets |
