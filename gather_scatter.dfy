/** Index-driven copies (`gatherValues`, `scatterValues`): a running counter
    `j` walks the index sequence, gather writing `a[j] := x[idx[j]]` and
    scatter writing `a[idx[j]] := x[j]`.  Only the slots written change. */
module GatherScatter {

  /** The destination after gathering: slot `j` replaced by `x[idx[j]]`, for
      each `j` in order. */
  function Gathered<T>(x: seq<T>, idx: seq<nat>, a: seq<T>): (r: seq<T>)
    requires |idx| <= |a|
    requires forall j :: 0 <= j < |idx| ==> idx[j] < |x|
    ensures |r| == |a|
    ensures forall j :: 0 <= j < |idx| ==> r[j] == x[idx[j]]
    ensures forall j :: |idx| <= j < |a| ==> r[j] == a[j]
  {
    if |idx| == 0 then a
    else
      var n := |idx| - 1;
      Gathered(x, idx[..n], a)[n := x[idx[n]]]
  }

  /** The destination after scattering: slot `idx[j]` replaced by `x[j]`, for
      each `j` in order, so a later write to the same slot wins. */
  function Scattered<T>(x: seq<T>, idx: seq<nat>, a: seq<T>): (r: seq<T>)
    requires |idx| <= |x|
    requires forall j :: 0 <= j < |idx| ==> idx[j] < |a|
    ensures |r| == |a|
    ensures forall p :: 0 <= p < |a| && p !in idx ==> r[p] == a[p]
    ensures forall j :: 0 <= j < |idx| && idx[j] !in idx[j + 1..] ==> r[idx[j]] == x[j]
  {
    if |idx| == 0 then a
    else
      var n := |idx| - 1;
      var prefix := idx[..n];
      Scattered(x, prefix, a)[idx[n] := x[n]]
  }

  /** `gatherValues`: the first `|idx|` slots of `a` receive `x[idx[j]]`, the
      rest of `a` is left alone. */
  method GatherValues<T>(x: seq<T>, idx: seq<nat>, a: array<T>)
    requires |idx| <= a.Length
    requires forall j :: 0 <= j < |idx| ==> idx[j] < |x|
    modifies a
    ensures a[..] == Gathered(x, idx, old(a[..]))
  {
    var j := 0;
    while j < |idx|
      invariant 0 <= j <= |idx|
      invariant a[..] == Gathered(x, idx[..j], old(a[..]))
    {
      assert idx[..j + 1][..j] == idx[..j];
      a[j] := x[idx[j]];
      j := j + 1;
    }
    assert idx[..j] == idx;
  }

  /** `scatterValues`: slot `idx[j]` of `a` receives `x[j]` (the last write
      to a slot wins); slots not named in `idx` are left alone. */
  method ScatterValues<T>(x: seq<T>, idx: seq<nat>, a: array<T>)
    requires |idx| <= |x|
    requires forall j :: 0 <= j < |idx| ==> idx[j] < a.Length
    modifies a
    ensures a[..] == Scattered(x, idx, old(a[..]))
  {
    var j := 0;
    while j < |idx|
      invariant 0 <= j <= |idx|
      invariant a[..] == Scattered(x, idx[..j], old(a[..]))
    {
      assert idx[..j + 1][..j] == idx[..j];
      a[idx[j]] := x[j];
      j := j + 1;
    }
    assert idx[..j] == idx;
  }

  /** Gather followed by scatter through the same indices puts back, at
      every slot named in `idx`, the value `x` holds there; other slots keep
      the scatter destination's value.  With `z == x` the round trip gives
      back `x`, and when `idx` is a permutation every slot is named. */
  lemma {:induction false} ScatterAfterGather<T>(x: seq<T>, idx: seq<nat>, y: seq<T>, z: seq<T>)
    requires |idx| <= |y| && |z| == |x|
    requires forall j :: 0 <= j < |idx| ==> idx[j] < |x|
    ensures var r := Scattered(Gathered(x, idx, y), idx, z);
      forall p :: 0 <= p < |z| ==> r[p] == if p in idx then x[p] else z[p]
  {
    var g := Gathered(x, idx, y);
    var r := Scattered(g, idx, z);
    forall p | 0 <= p < |z| && p in idx ensures r[p] == x[p] {
      var j := LastIndexOf(idx, p);
      assert r[idx[j]] == g[j] == x[idx[j]];
    }
  }

  /** The position of the last occurrence of `p` in `idx`. */
  function LastIndexOf(idx: seq<nat>, p: nat): (j: nat)
    requires p in idx
    ensures j < |idx| && idx[j] == p && p !in idx[j + 1..]
  {
    var n := |idx| - 1;
    if idx[n] == p then n
    else
      assert p in idx[..n] by { assert idx == idx[..n] + [idx[n]]; }
      var j := LastIndexOf(idx[..n], p);
      assert idx[j + 1..] == idx[..n][j + 1..] + [idx[n]];
      j
  }
}
