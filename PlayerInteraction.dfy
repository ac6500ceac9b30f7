/**
 * The player's interaction slot: the first interactable whose trigger the
 * player enters is held, with an icon shown, until the player leaves that
 * trigger or interacts with it.
 */
module Interaction {

  /** Something the player can interact with. */
  class Interactable {}

  /** A collider touched by the player, with the interactable component it carries, if any. */
  class Collider {
    const interactable: Interactable?

    constructor (interactable: Interactable?)
      ensures this.interactable == interactable
    {
      this.interactable := interactable;
    }
  }

  class PlayerInteraction {
    var held: Interactable?
    var iconActive: bool
    /** Every Interact call made, oldest first. */
    var interactions: seq<Interactable>

    /** The icon is shown exactly while something is held. */
    ghost predicate Valid()
      reads this
    {
      iconActive <==> held != null
    }

    constructor ()
      ensures Valid() && held == null && !iconActive && interactions == []
    {
      held := null;
      iconActive := false;
      interactions := [];
    }

    /** Entering a trigger: ignored while something is held, otherwise captures the collider's interactable, if any. */
    method OnTriggerEnter(collision: Collider)
      requires Valid()
      modifies this`held, this`iconActive
      ensures Valid()
      ensures old(held) != null ==> held == old(held) && iconActive == old(iconActive)
      ensures old(held) == null ==> held == collision.interactable
    {
      if held != null {
        return;
      }
      held := collision.interactable;
      if held != null {
        iconActive := true;
      }
    }

    /** Leaving a trigger releases the slot only when it holds the leaving collider's interactable. */
    method OnTriggerExit(collision: Collider)
      requires Valid()
      modifies this`held, this`iconActive
      ensures Valid()
      ensures held == old(held) || (old(held) == collision.interactable && held == null)
      ensures old(held) == collision.interactable ==> held == null && !iconActive
      ensures old(held) != collision.interactable ==> held == old(held) && iconActive == old(iconActive)
    {
      var interactable := collision.interactable;
      if held != interactable {
        return;
      }
      held := null;
      iconActive := false;
    }

    /** Interaction input: interacts once with what is held and releases it; with nothing held it only warns. */
    method OnInteractionInput()
      requires Valid()
      modifies this
      ensures Valid()
      ensures old(held) == null ==> held == null && iconActive == old(iconActive) && interactions == old(interactions)
      ensures old(held) != null ==> held == null && !iconActive && interactions == old(interactions) + [old(held)]
    {
      if held == null {
        return;
      }
      interactions := interactions + [held];
      held := null;
      iconActive := false;
    }
  }
}
