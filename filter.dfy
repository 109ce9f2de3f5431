/** `Array.prototype.filter` over an arbitrary callback, and what it keeps. */
module Filtering {

  /** `xs.filter(keep)`: the elements `keep` accepts, in their original order. */
  function Filter<T>(xs: seq<T>, keep: T -> bool): (r: seq<T>)
    ensures |r| <= |xs|
  {
    if xs == [] then []
    else
      var last := xs[|xs| - 1];
      Filter(xs[..|xs| - 1], keep) + (if keep(last) then [last] else [])
  }

  /** The positions, in increasing order, of the elements `keep` accepts. */
  ghost function Hits<T>(xs: seq<T>, keep: T -> bool): seq<nat>
  {
    if xs == [] then []
    else Hits(xs[..|xs| - 1], keep) + (if keep(xs[|xs| - 1]) then [|xs| - 1] else [])
  }

  /** `r` lists the elements of `xs` at the strictly increasing positions `idx`:
      an order-preserving subsequence, nothing added, repeated or reordered. */
  ghost predicate IsSelection<T>(r: seq<T>, xs: seq<T>, idx: seq<nat>)
  {
    |idx| == |r|
    && (forall k :: 0 <= k < |idx| ==> idx[k] < |xs| && r[k] == xs[idx[k]])
    && (forall k, l :: 0 <= k < l < |idx| ==> idx[k] < idx[l])
  }

  /** Everything the filter keeps comes from the input and is accepted. */
  lemma {:induction false} FilterKeepsAccepted<T>(xs: seq<T>, keep: T -> bool)
    ensures forall x :: x in Filter(xs, keep) ==> x in xs && keep(x)
  {
    if xs != [] {
      var n := |xs| - 1;
      FilterKeepsAccepted(xs[..n], keep);
      assert forall x :: x in xs[..n] ==> x in xs;
    }
  }

  /** The hit positions increase strictly, lie inside the input, and are
      exactly the positions of accepted elements. */
  lemma {:induction false} HitsAreAccepted<T>(xs: seq<T>, keep: T -> bool)
    ensures forall k :: 0 <= k < |Hits(xs, keep)| ==> Hits(xs, keep)[k] < |xs|
    ensures forall k, l :: 0 <= k < l < |Hits(xs, keep)| ==> Hits(xs, keep)[k] < Hits(xs, keep)[l]
    ensures forall i :: 0 <= i < |xs| ==> (i in Hits(xs, keep) <==> keep(xs[i]))
  {
    if xs != [] {
      var n := |xs| - 1;
      var init := xs[..n];
      HitsAreAccepted(init, keep);
      assert forall i :: 0 <= i < n ==> init[i] == xs[i];
    }
  }

  /** The filter lists the input's elements at the hit positions, in order. */
  lemma {:induction false} FilterAtHits<T>(xs: seq<T>, keep: T -> bool)
    ensures IsSelection(Filter(xs, keep), xs, Hits(xs, keep))
  {
    if xs != [] {
      var n := |xs| - 1;
      var init := xs[..n];
      FilterAtHits(init, keep);
      assert forall i :: 0 <= i < n ==> init[i] == xs[i];
      HitsAreAccepted(init, keep);
    }
  }

  /** Each value appears in the filtered list as often as in the input when it
      is accepted, and not at all otherwise. */
  lemma {:induction false} FilterCount<T>(xs: seq<T>, keep: T -> bool, x: T)
    ensures multiset(Filter(xs, keep))[x] == if keep(x) then multiset(xs)[x] else 0
  {
    if xs != [] {
      var init := xs[..|xs| - 1];
      FilterCount(init, keep, x);
      assert xs == init + [xs[|xs| - 1]];
    }
  }
}
