/**
 * The patrol state of an enemy: two distinct patrol points drawn from the
 * possible ones by a deterministic pseudo-random generator, and a patrol
 * index that alternates between them whenever the current one is reached.
 */
module Patrol {
  import opened Wrappers
  import opened Sequences
  import Enemy

  /** Euclidean remainders are unique: a value `n * q + r` with `0 <= r < n` leaves remainder `r`. */
  lemma ModUnique(a: int, n: int, q: int, r: int)
    requires n > 0 && a == n * q + r && 0 <= r < n
    ensures a % n == r
  {
    var t := q - a / n;
    assert a == n * (a / n) + a % n;
    assert n * t == a % n - r by {
      assert n * q - n * (a / n) == n * (q - a / n);
    }
    if t > 0 {
      MulAtLeastN(n, t);
    } else if t < 0 {
      MulAtLeastN(n, -t);
    }
  }

  lemma {:induction false} MulAtLeastN(n: int, t: int)
    requires n > 0 && t >= 1
    ensures n * t >= n
  {
    if t > 1 {
      MulAtLeastN(n, t - 1);
      assert n * t == n * (t - 1) + n;
    }
  }

  /**
   * One step of the generator that does not hit the residue `target`
   * brings the base seed one step closer to the base seed that will:
   * the distance `(target - offset - baseSeed) % n` is positive and drops by one.
   */
  lemma StepCloser(target: int, offset: int, baseSeed: int, n: int)
    requires n > 0 && 0 <= baseSeed < n && 0 <= target < n
    requires (baseSeed + offset) % n != target
    ensures (target - offset - baseSeed) % n > 0
    ensures (target - offset - (baseSeed + 1) % n) % n == (target - offset - baseSeed) % n - 1
  {
    var x := target - offset - baseSeed;
    var q, d := x / n, x % n;
    assert x == n * q + d;
    if d == 0 {
      assert baseSeed + offset == n * (-q) + target;
      ModUnique(baseSeed + offset, n, -q, target);
    }
    if baseSeed + 1 < n {
      ModUnique(baseSeed + 1, n, 0, baseSeed + 1);
      ModUnique(x - 1, n, q, d - 1);
    } else {
      ModUnique(baseSeed + 1, n, 1, 0);
      assert target - offset - 0 == n * (q + 1) + (d - 1);
      ModUnique(target - offset, n, q + 1, d - 1);
    }
  }

  /** Pigeonhole: fewer than `n` distinct residues leave some residue below `n` unused. */
  lemma {:induction false} MissingResidue(s: seq<int>, n: int) returns (t: int)
    requires Distinct(s) && |s| < n
    requires forall i :: 0 <= i < |s| ==> 0 <= s[i] < n
    ensures 0 <= t < n && t !in s
    decreases n
  {
    if n - 1 !in s {
      return n - 1;
    }
    var k :| 0 <= k < |s| && s[k] == n - 1;
    var rest := s[..k] + s[k + 1..];
    assert forall i :: 0 <= i < |rest| ==> rest[i] == if i < k then s[i] else s[i + 1];
    assert forall i :: 0 <= i < |rest| ==> rest[i] != n - 1;
    t := MissingResidue(rest, n - 1);
    assert forall i :: 0 <= i < |s| && i != k ==> s[i] in rest by {
      forall i | 0 <= i < |s| && i != k ensures s[i] in rest {
        if i < k {
          assert rest[i] == s[i];
        } else {
          assert rest[i - 1] == s[i];
        }
      }
    }
  }

  /**
   * `M` distinct numbers below `N` from a seed. Each round offers
   * `(baseSeed + seed * count) % N`, where count is how many numbers are
   * already taken, and then advances `baseSeed` modulo N. The result is
   * absent (C# throws) when N < 2 or M lies outside [1, N].
   */
  method UniqueRandomList(seed: nat, n: int, m: int) returns (numbers: Option<seq<int>>)
    ensures numbers.None? <==> n < 2 || m > n || m < 1
    ensures numbers.Some? ==> |numbers.value| == m && Distinct(numbers.value)
    ensures numbers.Some? ==> forall i :: 0 <= i < m ==> 0 <= numbers.value[i] < n
  {
    if n < 2 || m > n || m < 1 {
      return None;
    }
    var selectedNumbers: seq<int> := [];
    var baseSeed := seed % n;
    ghost var target := MissingResidue(selectedNumbers, n);
    while |selectedNumbers| < m
      invariant Distinct(selectedNumbers) && |selectedNumbers| <= m
      invariant forall i :: 0 <= i < |selectedNumbers| ==> 0 <= selectedNumbers[i] < n
      invariant 0 <= baseSeed < n
      invariant |selectedNumbers| < m ==> 0 <= target < n && target !in selectedNumbers
      decreases m - |selectedNumbers|, (target - seed * |selectedNumbers| - baseSeed) % n
    {
      var newNumber := (baseSeed + seed * |selectedNumbers|) % n;
      if newNumber !in selectedNumbers {
        selectedNumbers := selectedNumbers + [newNumber];
        if |selectedNumbers| < m {
          target := MissingResidue(selectedNumbers, n);
        }
      } else {
        StepCloser(target, seed * |selectedNumbers|, baseSeed, n);
      }
      baseSeed := (baseSeed + 1) % n;
    }
    return Some(selectedNumbers);
  }

  /** A point in the scene the enemy can walk to. */
  class Transform {}

  class PatrolEnemyState {
    const patrolPoints: array<Transform?>
    var patrolAvailable: bool
    var patrolIndex: int
    /** Every destination handed to the navigation agent, oldest first. */
    var destinations: seq<Transform?>
    /** The enemy's chase target, as this state last set it. */
    var chasingTransform: Transform?
    /** Every state this state asked the enemy to change to, oldest first. */
    var stateChanges: seq<Enemy.StateKind>

    ghost predicate Valid()
      reads this
    {
      patrolPoints.Length == 2 && 0 <= patrolIndex <= 1
    }

    constructor ()
      ensures Valid() && fresh(patrolPoints)
      ensures patrolAvailable && patrolIndex == 0 && destinations == []
      ensures chasingTransform == null && stateChanges == []
      ensures patrolPoints[0] == null && patrolPoints[1] == null
    {
      patrolPoints := new Transform?[2](_ => null);
      patrolAvailable := true;
      patrolIndex := 0;
      destinations := [];
      chasingTransform := null;
      stateChanges := [];
    }

    /**
     * Draws two distinct possible points, seeded with the current
     * millisecond, and restarts at the first; with fewer than two possible
     * points patrolling is switched off and nothing else changes.
     */
    method RefreshPatrolPoints(possiblePatrolPoints: seq<Transform>, millisecond: nat)
      requires Valid()
      modifies this, patrolPoints
      ensures Valid()
      ensures |possiblePatrolPoints| < 2 ==>
        !patrolAvailable && patrolIndex == old(patrolIndex) && patrolPoints[..] == old(patrolPoints[..])
      ensures |possiblePatrolPoints| >= 2 ==> patrolIndex == 0 && patrolAvailable == old(patrolAvailable)
      ensures |possiblePatrolPoints| >= 2 ==> exists i, j ::
        0 <= i < |possiblePatrolPoints| && 0 <= j < |possiblePatrolPoints| && i != j
        && patrolPoints[0] == possiblePatrolPoints[i] && patrolPoints[1] == possiblePatrolPoints[j]
      ensures destinations == old(destinations)
      ensures chasingTransform == old(chasingTransform) && stateChanges == old(stateChanges)
    {
      if |possiblePatrolPoints| < 2 {
        patrolAvailable := false;
        return;
      }
      var randomPoints := UniqueRandomList(millisecond, |possiblePatrolPoints|, 2);
      var points := randomPoints.value;
      patrolPoints[0] := possiblePatrolPoints[points[0]];
      patrolPoints[1] := possiblePatrolPoints[points[1]];
      patrolIndex := 0;
    }

    /**
     * One patrol update: head for the current point, and switch to the
     * other point once this one is reached (`reached` stands for the
     * navigation agent's arrival test).
     */
    method ManagePatroling(reached: bool)
      requires Valid()
      modifies this`patrolIndex, this`destinations
      ensures Valid()
      ensures destinations == old(destinations) + [patrolPoints[old(patrolIndex)]]
      ensures reached ==> patrolIndex == 1 - old(patrolIndex)
      ensures !reached ==> patrolIndex == old(patrolIndex)
    {
      destinations := destinations + [patrolPoints[patrolIndex]];
      if reached {
        patrolIndex := (patrolIndex + 1) % 2;
      }
    }

    /**
     * Looks for the player: a player inside the detection radius (`sighted`,
     * the collider's transform, or null when the first overlap test finds
     * nothing) becomes the chase target and switches the enemy to Chase;
     * otherwise a player outside the idle radius (`!playerNearby`, the
     * second overlap test) switches it to Idle.
     */
    method CheckPlayerRange(sighted: Transform?, playerNearby: bool)
      modifies this`chasingTransform, this`stateChanges
      ensures sighted != null ==> chasingTransform == sighted && stateChanges == old(stateChanges) + [Enemy.Chase]
      ensures sighted == null ==> chasingTransform == old(chasingTransform)
      ensures sighted == null && !playerNearby ==> stateChanges == old(stateChanges) + [Enemy.Idle]
      ensures sighted == null && playerNearby ==> stateChanges == old(stateChanges)
    {
      if sighted != null {
        chasingTransform := sighted;
        stateChanges := stateChanges + [Enemy.Chase];
        return;
      }
      if !playerNearby {
        stateChanges := stateChanges + [Enemy.Idle];
      }
    }

    /**
     * Update: the range check first, whether or not patrolling is on; then,
     * while patrolling is on, one patrol step, which runs even when the
     * range check has just switched the enemy to another state.
     */
    method Update(sighted: Transform?, playerNearby: bool, reached: bool)
      requires Valid()
      modifies this`patrolIndex, this`destinations, this`chasingTransform, this`stateChanges
      ensures Valid()
      ensures sighted != null ==> chasingTransform == sighted && stateChanges == old(stateChanges) + [Enemy.Chase]
      ensures sighted == null ==> chasingTransform == old(chasingTransform)
      ensures sighted == null && !playerNearby ==> stateChanges == old(stateChanges) + [Enemy.Idle]
      ensures sighted == null && playerNearby ==> stateChanges == old(stateChanges)
      ensures !patrolAvailable ==> patrolIndex == old(patrolIndex) && destinations == old(destinations)
      ensures patrolAvailable ==> destinations == old(destinations) + [patrolPoints[old(patrolIndex)]]
      ensures patrolAvailable && reached ==> patrolIndex == 1 - old(patrolIndex)
      ensures patrolAvailable && !reached ==> patrolIndex == old(patrolIndex)
    {
      CheckPlayerRange(sighted, playerNearby);
      if !patrolAvailable {
        return;
      }
      ManagePatroling(reached);
    }
  }
}
