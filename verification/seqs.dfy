/**
 Sequence vocabulary used by the bot's bookkeeping: duplicate-free sequences
 and the positions an order-preserving filter keeps.
 */
module Seqs {

  /** No element occurs twice. */
  predicate Distinct<T(==)>(s: seq<T>) {
    forall i, j :: 0 <= i < j < |s| ==> s[i] != s[j]
  }

  /** Strictly increasing sequence of indices. */
  predicate Increasing(p: seq<nat>) {
    forall i, j :: 0 <= i < j < |p| ==> p[i] < p[j]
  }

  /** The indices at which `mask` holds, in increasing order: what a filter
      that walks its input front to back keeps. `PositionsIncreasing`,
      `PositionsSound` and `PositionsComplete` state these three facts. */
  function Positions(mask: seq<bool>): (p: seq<nat>)
    ensures |p| <= |mask|
    ensures forall k :: 0 <= k < |p| ==> p[k] < |mask|
    decreases |mask|
  {
    if mask == [] then []
    else
      var n := |mask| - 1;
      Positions(mask[..n]) + (if mask[n] then [n] else [])
  }

  /** The positions are increasing. */
  lemma {:induction false} PositionsIncreasing(mask: seq<bool>)
    ensures Increasing(Positions(mask))
    decreases |mask|
  {
    if mask != [] {
      PositionsIncreasing(mask[..|mask| - 1]);
    }
  }

  /** Every position holds in the mask. */
  lemma {:induction false} PositionsSound(mask: seq<bool>)
    ensures forall k :: 0 <= k < |Positions(mask)| ==> mask[Positions(mask)[k]]
    decreases |mask|
  {
    if mask != [] {
      var n := |mask| - 1;
      PositionsSound(mask[..n]);
      assert forall i :: 0 <= i < n ==> mask[..n][i] == mask[i];
    }
  }

  /** Every index that holds in the mask is a position. */
  lemma {:induction false} PositionsComplete(mask: seq<bool>)
    ensures forall i :: 0 <= i < |mask| && mask[i] ==> i in Positions(mask)
    decreases |mask|
  {
    if mask != [] {
      var n := |mask| - 1;
      PositionsComplete(mask[..n]);
      assert forall i :: 0 <= i < n ==> mask[..n][i] == mask[i];
    }
  }

  /** Growing the mask by one entry adds that entry's index when it holds. */
  lemma PositionsSnoc(mask: seq<bool>, n: nat)
    requires n < |mask|
    ensures Positions(mask[..n + 1]) == Positions(mask[..n]) + (if mask[n] then [n] else [])
  {
    assert mask[..n + 1][..n] == mask[..n];
  }

  /** `out` lists the elements of `src` at the indices `pos`, in that order. */
  predicate Gathers<T(==)>(out: seq<T>, src: seq<T>, pos: seq<nat>) {
    |out| == |pos| && forall k :: 0 <= k < |pos| ==> pos[k] < |src| && out[k] == src[pos[k]]
  }

  /** One more source element, gathered when `keep` holds. */
  lemma GathersSnoc<T>(out: seq<T>, src: seq<T>, pos: seq<nat>, keep: bool)
    requires |src| > 0 && Gathers(out, src[..|src| - 1], pos)
    ensures Gathers(out + (if keep then [src[|src| - 1]] else []), src, pos + (if keep then [|src| - 1] else []))
  {
    assert forall k :: 0 <= k < |pos| ==> src[..|src| - 1][pos[k]] == src[pos[k]];
  }

  /** In an increasing sequence, the order of values is the order of places. */
  lemma IncreasingOrder(p: seq<nat>, k1: nat, k2: nat)
    requires Increasing(p) && k1 < |p| && k2 < |p| && p[k1] < p[k2]
    ensures k1 < k2
  {
  }

  /** Two duplicate-free sequences with no element in common concatenate to a
      duplicate-free sequence. */
  lemma DistinctConcat<T>(a: seq<T>, b: seq<T>)
    requires Distinct(a) && Distinct(b)
    requires forall x :: x in a ==> x !in b
    ensures Distinct(a + b)
  {
    var s := a + b;
    forall i, j | 0 <= i < j < |s|
      ensures s[i] != s[j]
    {
      if j < |a| {
        assert s[i] == a[i] && s[j] == a[j];
      } else if i >= |a| {
        assert s[i] == b[i - |a|] && s[j] == b[j - |a|];
      } else {
        assert s[i] == a[i] && s[j] == b[j - |a|];
        assert a[i] in a;
      }
    }
  }
}
