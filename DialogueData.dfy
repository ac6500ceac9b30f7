/**
 * The runtime dialogue assets: DialogueSO nodes with their choices, the
 * DialogueGroupSO folders, and the abstract TriggerableDialogue handle.
 */
module DialogueData {
  import opened Wrappers

  /** The dialogue's type; every value other than MultipleChoice, unnamed ones included, behaves as single-choice. */
  datatype DialogueType = SingleChoice | MultipleChoice | UnnamedDialogueType(code: int)

  /** One outgoing choice; a null `nextDialogue` ends the dialogue on that branch. */
  datatype DialogueChoiceData = DialogueChoiceData(text: string, nextDialogue: DialogueSO?)

  /**
   * A dialogue node. Name, text, kind and the starting flag are fixed when the
   * asset is initialised; the choice links are patched afterwards, when the
   * graph is saved, so `choices` is mutable.
   */
  class DialogueSO {
    const dialogueName: string
    const text: string
    const kind: DialogueType
    const isStartingDialogue: bool
    var choices: seq<DialogueChoiceData>

    constructor Initialize(dialogueName: string, text: string, choices: seq<DialogueChoiceData>,
                           kind: DialogueType, isStartingDialogue: bool)
      ensures this.dialogueName == dialogueName && this.text == text && this.kind == kind
      ensures this.isStartingDialogue == isStartingDialogue && this.choices == choices
    {
      this.dialogueName := dialogueName;
      this.text := text;
      this.kind := kind;
      this.isStartingDialogue := isStartingDialogue;
      this.choices := choices;
    }
  }

  class DialogueGroupSO {
    const groupName: string

    constructor Initialize(groupName: string)
      ensures this.groupName == groupName
    {
      this.groupName := groupName;
    }
  }

  /** Anything a conditional dialogue can hand control to. */
  class TriggerableDialogue {
  }

  /**
   * What one `Trigger` call of a conditional dialogue did: it warned and
   * stopped, or it evaluated `evaluated` conditions to `result` and handed
   * control to `triggered`, if any. At most one target is ever triggered.
   */
  datatype TriggerOutcome =
    | Warned
    | Evaluated(result: bool, evaluated: nat, triggered: Option<TriggerableDialogue>)
}
