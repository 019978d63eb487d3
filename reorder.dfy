/** The in-place permutation engine (`reorderDirty`, `reorder`): applies a
    destination-index permutation to a buffer by following its cycles, with
    the index buffer itself as the only scratch space. */
module Reorder {

  /** `idx` is a bijection of `[0, |idx|)` onto itself: every entry is in
      range and no two entries are equal. */
  predicate IsPermutation(idx: seq<nat>)
  {
    (forall p :: 0 <= p < |idx| ==> idx[p] < |idx|) &&
    (forall p, q :: 0 <= p < q < |idx| ==> idx[p] != idx[q])
  }

  /** The positions `idx` does not yet map to themselves. */
  ghost function Unsettled(idx: seq<nat>): set<nat>
  {
    set p: nat | p < |idx| && idx[p] != p
  }

  /** In a permutation, `idx[i] == idx[idx[i]]` (the loop's exit test) holds
      exactly when `i` is a fixed point. */
  lemma SettledIffFixed(idx: seq<nat>, i: nat)
    requires IsPermutation(idx) && i < |idx|
    ensures idx[i] == idx[idx[i]] <==> idx[i] == i
  {
  }

  /** One swap of the inner loop, on the index sequence: with `j := idx[i]`
      and `k := idx[j]`, writing `k` at `i` and `j` at `j` keeps a
      permutation and settles `j`, so fewer positions are unsettled. */
  lemma {:induction false} IndexStep(idx: seq<nat>, i: nat)
    requires IsPermutation(idx) && i < |idx| && idx[i] != i
    ensures var j := idx[i]; var k := idx[j];
      IsPermutation(idx[i := k][j := j]) &&
      Unsettled(idx[i := k][j := j]) < Unsettled(idx)
  {
    var j := idx[i];
    var k := idx[j];
    var next := idx[i := k][j := j];
    forall p, q | 0 <= p < q < |next| ensures next[p] != next[q] {
      if p != i && p != j && q != i && q != j {
        assert next[p] == idx[p] && next[q] == idx[q];
      } else {
        assert forall r :: 0 <= r < |idx| && r != i && r != j ==> idx[r] != j && idx[r] != k;
      }
    }
    assert j in Unsettled(idx) - Unsettled(next);
    assert Unsettled(next) <= Unsettled(idx);
  }

  /** The same swap on the data: exchanging `x[j]` and `x[k]` keeps every
      position `p` of the index sequence pointing at the datum `target[p]`
      it pointed at before the step, and keeps the multiset of data. */
  lemma {:induction false} DataStep<T>(xs: seq<T>, idx: seq<nat>, target: seq<T>, i: nat)
    requires IsPermutation(idx) && |xs| == |idx| == |target| && i < |idx| && idx[i] != i
    requires forall p :: 0 <= p < |idx| ==> xs[idx[p]] == target[p]
    ensures var j := idx[i]; var k := idx[j];
      var next := idx[i := k][j := j];
      var moved := xs[j := xs[k]][k := xs[j]];
      (forall p :: 0 <= p < |next| ==> moved[next[p]] == target[p]) &&
      multiset(moved) == multiset(xs)
  {
    var j := idx[i];
    var k := idx[j];
    var next := idx[i := k][j := j];
    var moved := xs[j := xs[k]][k := xs[j]];
    forall p | 0 <= p < |next| ensures moved[next[p]] == target[p] {
      if p != i && p != j {
        assert idx[p] != j && idx[p] != k by {
          assert p != i && p != j;
        }
      }
    }
  }

  /** The state the permutation engine keeps between swaps: `idx` is still a
      permutation, and each index position `p` points at the datum
      `target[p]` that position `p` must finally hold. */
  ghost predicate Aligned<T>(x: array<T>, idx: array<nat>, target: seq<T>)
    reads x, idx
  {
    x.Length == idx.Length == |target| &&
    IsPermutation(idx[..]) &&
    forall p :: 0 <= p < idx.Length ==> x[idx[p]] == target[p]
  }

  /** The inner `while` loop of `reorderDirty` for one position `i`: walks
      the cycle through `i`, settling one position per swap, until `i` is a
      fixed point. */
  method SettleCycle<T>(x: array<T>, idx: array<nat>, i: nat, ghost target: seq<T>)
    requires x as object != idx as object
    requires i < idx.Length
    requires Aligned(x, idx, target)
    requires forall p :: 0 <= p < i ==> idx[p] == p
    modifies x, idx
    ensures Aligned(x, idx, target)
    ensures forall p :: 0 <= p <= i ==> idx[p] == p
    ensures multiset(x[..]) == multiset(old(x[..]))
  {
    while idx[i] != idx[idx[i]]
      invariant Aligned(x, idx, target)
      invariant forall p :: 0 <= p < i ==> idx[p] == p
      invariant multiset(x[..]) == multiset(old(x[..]))
      decreases Unsettled(idx[..])
    {
      ghost var before, data := idx[..], x[..];
      var j := idx[i];
      var k := idx[j];
      SettledIffFixed(before, i);
      IndexStep(before, i);
      DataStep(data, before, target, i);
      x[j], x[k] := x[k], x[j];
      idx[i], idx[j] := k, j;
      assert idx[..] == before[i := k][j := j];
      assert x[..] == data[j := data[k]][k := data[j]];
    }
    SettledIffFixed(idx[..], i);
  }

  /** `reorderDirty`: afterwards position `p` of `x` holds what was at
      position `idx[p]` before, `x` is a rearrangement of its old contents,
      and `idx` has been consumed: it is the identity. */
  method ReorderDirty<T>(x: array<T>, idx: array<nat>)
    requires x.Length == idx.Length
    requires IsPermutation(idx[..])
    requires x as object != idx as object
    modifies x, idx
    ensures forall p :: 0 <= p < x.Length ==> x[p] == old(x[idx[p]])
    ensures multiset(x[..]) == multiset(old(x[..]))
    ensures forall p :: 0 <= p < idx.Length ==> idx[p] == p
  {
    ghost var x0, idx0 := x[..], idx[..];
    // what each position must finally hold
    ghost var target := seq(x.Length, p requires 0 <= p < x.Length => x0[idx0[p]]);
    for i := 0 to idx.Length
      invariant Aligned(x, idx, target)
      invariant forall p :: 0 <= p < i ==> idx[p] == p
      invariant multiset(x[..]) == multiset(x0)
    {
      SettleCycle(x, idx, i, target);
    }
  }

  /** `reorder`: as `reorderDirty`, but on a private copy of the index
      sequence, so the caller's indices are left as they were. */
  method Reorder<T>(x: array<T>, idx: seq<nat>)
    requires x.Length == |idx|
    requires IsPermutation(idx)
    modifies x
    ensures forall p :: 0 <= p < x.Length ==> x[p] == old(x[idx[p]])
    ensures multiset(x[..]) == multiset(old(x[..]))
  {
    var scratch := new nat[|idx|](p requires 0 <= p < |idx| => idx[p]);
    assert scratch[..] == idx;
    ReorderDirty(x, scratch);
  }
}
