/**
 * The dialogue inspector keeps a popup index into a freshly computed list of
 * names; when the list changes under it, the index is repaired so that it
 * keeps pointing at the previously selected name where possible.
 */
module DialogueInspector {

  /** C# `List.IndexOf`: the first position of `name`, or -1 when it does not occur. */
  method IndexOf(optionNames: seq<string>, name: string) returns (index: int)
    ensures name !in optionNames <==> index == -1
    ensures name in optionNames ==>
      0 <= index < |optionNames| && optionNames[index] == name && name !in optionNames[..index]
  {
    index := 0;
    while index < |optionNames|
      invariant 0 <= index <= |optionNames|
      invariant name !in optionNames[..index]
    {
      if optionNames[index] == name {
        return;
      }
      assert optionNames[..index + 1] == optionNames[..index] + [optionNames[index]];
      index := index + 1;
    }
    assert optionNames[..index] == optionNames;
    index := -1;
  }

  /**
   * The index after the option list was recomputed. `currentIndex` is the
   * property's stored index and `oldSelectedIndex` the value read from it
   * before; an old selection that is missing resets to 0, a stored index
   * that still names the old selection is kept, and otherwise the index
   * moves to the first option carrying the old name, or to 0. Reading the
   * list at a negative index throws, hence the precondition.
   */
  method UpdateIndexOnDialogueGroupUpdate(optionNames: seq<string>, currentIndex: int, oldSelectedIndex: int,
                                          oldName: string, isOldNull: bool) returns (index: int)
    requires !isOldNull ==> 0 <= oldSelectedIndex
    ensures isOldNull ==> index == 0
    ensures !isOldNull && oldSelectedIndex < |optionNames| && optionNames[oldSelectedIndex] == oldName ==>
      index == currentIndex
    ensures !isOldNull && (oldSelectedIndex >= |optionNames| || optionNames[oldSelectedIndex] != oldName) ==>
      if oldName in optionNames then 0 <= index < |optionNames| && optionNames[index] == oldName
        && oldName !in optionNames[..index]
      else index == 0
    ensures |optionNames| > 0 && (isOldNull || currentIndex == oldSelectedIndex) ==> 0 <= index < |optionNames|
  {
    if isOldNull {
      return 0;
    }
    index := currentIndex;
    var oldIndexIsOutOfBounds := oldSelectedIndex >= |optionNames|;
    var oldNameIsDifferentThanSelectedName := oldIndexIsOutOfBounds || oldName != optionNames[oldSelectedIndex];
    if oldNameIsDifferentThanSelectedName {
      if oldName in optionNames {
        index := IndexOf(optionNames, oldName);
      } else {
        index := 0;
      }
    }
  }
}
