/**
 * List comprehensions `[x for x in xs if keep(x)]` and the order-preserving
 * subsequence relation they establish.
 */
module Seqs {

  /** `[x for x in xs if keep(x)]` */
  function Filter<T>(xs: seq<T>, keep: T -> bool): (r: seq<T>)
    ensures |r| <= |xs|
    ensures forall x | x in r :: x in xs && keep(x)
    ensures forall x | x in xs && keep(x) :: x in r
    decreases |xs|
  {
    if |xs| == 0 then []
    else
      var init := xs[..|xs| - 1];
      assert forall x | x in xs :: x in init || x == xs[|xs| - 1];
      Filter(init, keep) + (if keep(xs[|xs| - 1]) then [xs[|xs| - 1]] else [])
  }

  /** Extending a prefix by one element filters that element on its own. */
  lemma FilterSnoc<T>(xs: seq<T>, i: int, keep: T -> bool)
    requires 0 <= i < |xs|
    ensures Filter(xs[..i + 1], keep) == Filter(xs[..i], keep) + (if keep(xs[i]) then [xs[i]] else [])
  {
    assert xs[..i + 1][..i] == xs[..i];
  }

  /** Filtering a concatenation filters each part. */
  lemma {:induction false} FilterAppend<T>(a: seq<T>, b: seq<T>, keep: T -> bool)
    ensures Filter(a + b, keep) == Filter(a, keep) + Filter(b, keep)
    decreases |b|
  {
    if |b| > 0 {
      var b' := b[..|b| - 1];
      assert (a + b)[..|a + b| - 1] == a + b';
      FilterAppend(a, b', keep);
    } else {
      assert a + b == a;
    }
  }

  /** `idx` lists, in increasing order, the positions of `b` that make up `a`. */
  ghost predicate EmbeddedBy<T>(a: seq<T>, b: seq<T>, idx: seq<nat>) {
    && |idx| == |a|
    && (forall k | 0 <= k < |idx| :: idx[k] < |b| && a[k] == b[idx[k]])
    && (forall j, k | 0 <= j < k < |idx| :: idx[j] < idx[k])
  }

  /** `a` is `b` with some elements left out and the rest kept in order. */
  ghost predicate IsSubsequence<T>(a: seq<T>, b: seq<T>) {
    exists idx :: EmbeddedBy(a, b, idx)
  }

  /** The filtered list is an order-preserving subsequence of the input. */
  lemma {:induction false} FilterIsSubsequence<T>(xs: seq<T>, keep: T -> bool)
    ensures IsSubsequence(Filter(xs, keep), xs)
    decreases |xs|
  {
    var idx := FilterEmbedding(xs, keep);
  }

  lemma {:induction false} FilterEmbedding<T>(xs: seq<T>, keep: T -> bool) returns (idx: seq<nat>)
    ensures EmbeddedBy(Filter(xs, keep), xs, idx)
    ensures forall k | 0 <= k < |idx| :: idx[k] < |xs|
    decreases |xs|
  {
    if |xs| == 0 {
      idx := [];
    } else {
      var init := xs[..|xs| - 1];
      var before := FilterEmbedding(init, keep);
      if keep(xs[|xs| - 1]) {
        idx := before + [|xs| - 1];
      } else {
        idx := before;
      }
    }
  }

  /** A prefix of a subsequence is a subsequence. */
  lemma PrefixOfSubsequence<T>(a: seq<T>, b: seq<T>, n: nat)
    requires IsSubsequence(a, b) && n <= |a|
    ensures IsSubsequence(a[..n], b)
  {
    var idx :| EmbeddedBy(a, b, idx);
    assert EmbeddedBy(a[..n], b, idx[..n]);
  }
}
