/**
 * The enemy's state machine driver: it switches between the idle, chase,
 * patrol and attack states, calling the old state's exit hook before the new
 * state's enter hook, and shows the icon that belongs to the new state.
 */
module Enemy {
  import opened Wrappers

  datatype StateKind = Idle | Chase | Patrol | Attack

  /** A call the driver makes into a state object. */
  datatype StateCall = OnExit(state: StateKind) | OnEnter(state: StateKind) | OnUpdate(state: StateKind)

  /** Which of the three status icons are active. */
  datatype Icons = Icons(patrol: bool, chasing: bool, attacking: bool)

  /** The icons shown in `state`: none when idle, otherwise exactly the state's own. */
  function IconsFor(state: StateKind): (icons: Icons)
    ensures state == Idle <==> !icons.patrol && !icons.chasing && !icons.attacking
    ensures icons.patrol <==> state == Patrol
    ensures icons.chasing <==> state == Chase
    ensures icons.attacking <==> state == Attack
  {
    match state
    case Idle => Icons(false, false, false)
    case Chase => Icons(false, true, false)
    case Patrol => Icons(true, false, false)
    case Attack => Icons(false, false, true)
  }

  /** How many icons are active. */
  function ActiveCount(icons: Icons): nat
  {
    (if icons.patrol then 1 else 0) + (if icons.chasing then 1 else 0) + (if icons.attacking then 1 else 0)
  }

  /** At most one icon is active in any state, and exactly one outside Idle. */
  lemma AtMostOneIcon(state: StateKind)
    ensures ActiveCount(IconsFor(state)) <= 1
    ensures state != Idle ==> ActiveCount(IconsFor(state)) == 1
  {
  }

  /** The hook calls of a switch to `newState` from `current`: exit of the old state, if any, then enter. */
  function TransitionCalls(current: Option<StateKind>, newState: StateKind): (calls: seq<StateCall>)
    ensures |calls| >= 1 && calls[|calls| - 1] == OnEnter(newState)
    ensures current.None? <==> |calls| == 1
    ensures current.Some? ==> calls == [OnExit(current.value), OnEnter(newState)]
  {
    (if current.Some? then [OnExit(current.value)] else []) + [OnEnter(newState)]
  }

  class EnemyBehaviour {
    var currentState: Option<StateKind>
    var icons: Icons
    /** Every call made into a state object, oldest first. */
    var calls: seq<StateCall>

    /** An enemy before Start: no state, nothing called. */
    constructor ()
      ensures currentState == None && calls == []
    {
      currentState := None;
      icons := Icons(false, false, false);
      calls := [];
    }

    /** Leaves the current state, if any, enters `newState` and shows its icon. */
    method ChangeState(newState: StateKind)
      modifies this
      ensures currentState == Some(newState)
      ensures calls == old(calls) + TransitionCalls(old(currentState), newState)
      ensures icons == IconsFor(newState)
    {
      if currentState.Some? {
        calls := calls + [OnExit(currentState.value)];
      }
      currentState := Some(newState);
      calls := calls + [OnEnter(newState)];
      match newState
      case Idle => icons := Icons(false, false, false);
      case Chase => icons := Icons(false, true, false);
      case Patrol => icons := Icons(true, false, false);
      case Attack => icons := Icons(false, false, true);
    }

    /** Start: the enemy begins in the idle state. */
    method Start()
      modifies this
      ensures currentState == Some(Idle) && icons == IconsFor(Idle)
      ensures calls == old(calls) + TransitionCalls(old(currentState), Idle)
    {
      ChangeState(Idle);
    }

    /** Update forwards to the current state, when there is one. */
    method Update()
      modifies this`calls
      ensures currentState.None? ==> calls == old(calls)
      ensures currentState.Some? ==> calls == old(calls) + [OnUpdate(currentState.value)]
    {
      if currentState.Some? {
        calls := calls + [OnUpdate(currentState.value)];
      }
    }
  }
}
