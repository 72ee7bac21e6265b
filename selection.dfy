/**
 * Order-preserving selection, the shape of a Python list comprehension with
 * an `if` clause (`[x for x in xs if keep(x)]`) and of a loop that appends
 * the elements it keeps to a list.
 */
module Selection {

  /** The elements of xs that satisfy keep, in their original order, duplicates included. */
  function Filter<T>(xs: seq<T>, keep: T -> bool): (r: seq<T>)
    ensures |r| <= |xs|
    ensures forall k :: 0 <= k < |r| ==> keep(r[k]) && r[k] in xs
    decreases |xs|
  {
    if xs == [] then []
    else
      var last := xs[|xs| - 1];
      Filter(xs[..|xs| - 1], keep) + (if keep(last) then [last] else [])
  }

  /** The positions of xs that satisfy keep, in increasing order. */
  function KeptPositions<T>(xs: seq<T>, keep: T -> bool): seq<nat>
    decreases |xs|
  {
    if xs == [] then []
    else
      KeptPositions(xs[..|xs| - 1], keep) + (if keep(xs[|xs| - 1]) then [|xs| - 1] else [])
  }

  predicate StrictlyIncreasing(idx: seq<nat>)
  {
    forall k, l :: 0 <= k < l < |idx| ==> idx[k] < idx[l]
  }

  /**
   * Filter picks exactly the positions that satisfy keep: the result is the
   * subsequence of xs at those positions, in increasing order, and no
   * satisfying position is skipped.
   */
  lemma {:induction false} FilterIsSubsequence<T>(xs: seq<T>, keep: T -> bool)
    ensures var idx := KeptPositions(xs, keep);
      && |idx| == |Filter(xs, keep)|
      && StrictlyIncreasing(idx)
      && (forall k :: 0 <= k < |idx| ==> idx[k] < |xs| && Filter(xs, keep)[k] == xs[idx[k]])
      && (forall j :: 0 <= j < |xs| ==> (keep(xs[j]) <==> j in idx))
    decreases |xs|
  {
    if xs != [] {
      var init := xs[..|xs| - 1];
      FilterIsSubsequence(init, keep);
      var idx0 := KeptPositions(init, keep);
      assert forall j :: 0 <= j < |init| ==> init[j] == xs[j];
      assert forall k :: 0 <= k < |idx0| ==> idx0[k] < |xs| - 1;
    }
  }

  /** Nothing is kept exactly when no element satisfies keep. */
  lemma {:induction false} FilterEmptyIff<T>(xs: seq<T>, keep: T -> bool)
    ensures Filter(xs, keep) == [] <==> forall j :: 0 <= j < |xs| ==> !keep(xs[j])
    decreases |xs|
  {
    if xs != [] {
      var init := xs[..|xs| - 1];
      FilterEmptyIff(init, keep);
      assert forall j :: 0 <= j < |init| ==> init[j] == xs[j];
    }
  }

  /** Extending the input by one element extends the selection by at most that element. */
  lemma FilterSnoc<T>(xs: seq<T>, x: T, keep: T -> bool)
    ensures Filter(xs + [x], keep) == Filter(xs, keep) + (if keep(x) then [x] else [])
  {
    assert (xs + [x])[..|xs|] == xs;
  }
}
