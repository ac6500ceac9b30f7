/** Facts about sequences shared by the list-building operations of the model. */
module Sequences {

  predicate Distinct<T(==)>(s: seq<T>) {
    forall i, j :: 0 <= i < j < |s| ==> s[i] != s[j]
  }

  /** `idx` lists, in increasing order, the positions of `s` that `r` is made of. */
  ghost predicate SubsequenceAt<T>(r: seq<T>, s: seq<T>, idx: seq<nat>) {
    && |idx| == |r|
    && (forall k :: 0 <= k < |idx| ==> idx[k] < |s| && r[k] == s[idx[k]])
    && (forall k, l :: 0 <= k < l < |idx| ==> idx[k] < idx[l])
  }

  /** `r` is `s` with some elements left out and the others kept in order. */
  ghost predicate IsSubsequence<T>(r: seq<T>, s: seq<T>) {
    exists idx :: SubsequenceAt(r, s, idx)
  }

  /**
   * LINQ `Enumerable.Except`: the distinct elements of `xs` that do not occur
   * in `ys`, in the order of their first occurrence in `xs`.
   */
  function Except<T(==)>(xs: seq<T>, ys: seq<T>): seq<T>
    decreases |xs|
  {
    if xs == [] then []
    else
      var r := Except(xs[..|xs| - 1], ys);
      var x := xs[|xs| - 1];
      if x in ys || x in r then r else r + [x]
  }

  /** Except is exactly the set difference, without repetitions. */
  lemma {:induction false} ExceptIsSetDifference<T>(xs: seq<T>, ys: seq<T>)
    ensures forall x :: x in Except(xs, ys) <==> x in xs && x !in ys
    ensures Distinct(Except(xs, ys))
    decreases |xs|
  {
    if xs != [] {
      var init := xs[..|xs| - 1];
      ExceptIsSetDifference(init, ys);
      assert xs == init + [xs[|xs| - 1]];
    }
  }

  /** Except keeps the order in which the elements first occur in `xs`. */
  lemma {:induction false} ExceptIsSubsequence<T>(xs: seq<T>, ys: seq<T>)
    ensures IsSubsequence(Except(xs, ys), xs)
    decreases |xs|
  {
    if xs == [] {
      assert SubsequenceAt(Except(xs, ys), xs, []);
    } else {
      var init := xs[..|xs| - 1];
      var x := xs[|xs| - 1];
      ExceptIsSubsequence(init, ys);
      var r := Except(init, ys);
      var idx: seq<nat> :| SubsequenceAt(r, init, idx);
      assert forall k :: 0 <= k < |init| ==> xs[k] == init[k];
      if x in ys || x in r {
        assert SubsequenceAt(Except(xs, ys), xs, idx);
      } else {
        var idx' := idx + [|xs| - 1];
        assert SubsequenceAt(Except(xs, ys), xs, idx');
      }
    }
  }

  /** Except of an empty `xs` is empty, whatever `ys` is. */
  lemma ExceptOfEmpty<T>(ys: seq<T>)
    ensures Except([], ys) == []
  {
  }

  /** Extending the scanned prefix of `xs` by one element extends Except by at most that element. */
  lemma ExceptStep<T>(xs: seq<T>, i: nat, ys: seq<T>)
    requires i < |xs|
    ensures Except(xs[..i + 1], ys)
         == if xs[i] in ys || xs[i] in Except(xs[..i], ys) then Except(xs[..i], ys)
            else Except(xs[..i], ys) + [xs[i]]
  {
    assert xs[..i + 1][..i] == xs[..i];
  }
}
