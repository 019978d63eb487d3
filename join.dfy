/** The join family: `joinIf` / `joinUntilSize` fuse whole groups into the
    last output group while a predicate allows it, `joinValues` flattens,
    and the `joinAt*` variants read their candidate groups by index out of
    an existing nested sequence.  The out-parameter `a` is passed in and the
    new value handed back. */
module Join {
  import opened Nested
  import opened Partition

  /** One candidate group of `joinIf`: it becomes a group of its own when
      there is no group yet or `fn` refuses it, and is otherwise appended
      (`copyAppend`) to the last group. */
  function JoinStep<T>(a: seq<seq<T>>, x: seq<T>, fn: (seq<T>, seq<T>) -> bool): seq<seq<T>>
  {
    if |a| == 0 || !fn(a[|a| - 1], x) then a + [x]
    else a[..|a| - 1] + [a[|a| - 1] + x]
  }

  /** The groups after offering every group of `xs`, in order, to `a`. */
  function Joined<T>(xs: seq<seq<T>>, a: seq<seq<T>>, fn: (seq<T>, seq<T>) -> bool): seq<seq<T>>
  {
    if |xs| == 0 then a else JoinStep(Joined(xs[..|xs| - 1], a, fn), xs[|xs| - 1], fn)
  }

  /** The `joinUntilSize` predicate: fuse while the current group is still
      below `s` elements (checked before the candidate is appended). */
  function UntilSize<T>(s: nat): (seq<T>, seq<T>) -> bool
  {
    (b: seq<T>, x: seq<T>) => |b| < s
  }

  /** Each group of `a` as a one-constituent run. */
  function Runs<T>(a: seq<seq<T>>): (r: seq<seq<seq<T>>>)
    ensures |r| == |a| && forall k :: 0 <= k < |a| ==> r[k] == [a[k]]
  {
    seq(|a|, k requires 0 <= k < |a| => [a[k]])
  }

  /** `fn` seen from the input groups: a run of input groups stands for
      their concatenation. */
  function OnRuns<T>(fn: (seq<T>, seq<T>) -> bool): (seq<seq<T>>, seq<T>) -> bool
  {
    (run: seq<seq<T>>, x: seq<T>) => fn(Flatten(run), x)
  }

  /** The plan of a join: which input groups end up in which output group.
      Joining is partitioning the input groups under `fn` seen on runs. */
  function Plan<T>(xs: seq<seq<T>>, a: seq<seq<T>>, fn: (seq<T>, seq<T>) -> bool): seq<seq<seq<T>>>
  {
    Partitioned(xs, Runs(a), OnRuns(fn))
  }

  /** Flattening each run of a plan. */
  function FlattenEach<T>(p: seq<seq<seq<T>>>): (r: seq<seq<T>>)
    ensures |r| == |p| && forall k :: 0 <= k < |p| ==> r[k] == Flatten(p[k])
  {
    seq(|p|, k requires 0 <= k < |p| => Flatten(p[k]))
  }

  /** A one-group run flattens to that group. */
  lemma FlattenSingle<T>(g: seq<T>)
    ensures Flatten([g]) == g
  {
    FlattenSnoc([], g);
    assert [] + [g] == [g];
  }

  /** One join step is one partition step of the plan, flattened: the step
      that makes `joinIf` a partition of its candidate groups. */
  lemma JoinStepIsPlanStep<T>(p: seq<seq<seq<T>>>, x: seq<T>, fn: (seq<T>, seq<T>) -> bool)
    ensures JoinStep(FlattenEach(p), x, fn) == FlattenEach(Step(p, x, OnRuns(fn)))
  {
    var j := FlattenEach(p);
    if |p| == 0 || !fn(j[|j| - 1], x) {
      FlattenSingle(x);
      var q := FlattenEach(p + [[x]]);
      assert forall k :: 0 <= k < |p| ==> q[k] == Flatten(p[k]);
      assert q == j + [x];
    } else {
      var last := |p| - 1;
      FlattenSnoc(p[last], x);
      var q := FlattenEach(p[..last] + [p[last] + [x]]);
      assert forall k :: 0 <= k < last ==> q[k] == Flatten(p[k]);
      assert q == j[..last] + [j[last] + x];
    }
  }

  /** `joinIf` is a partition of the input groups followed by flattening
      each part: every output group is the concatenation of one run of
      consecutive candidates (the first of which may be a group of `a`). */
  lemma {:induction false} JoinedIsFlattenedPlan<T>(xs: seq<seq<T>>, a: seq<seq<T>>, fn: (seq<T>, seq<T>) -> bool)
    ensures Joined(xs, a, fn) == FlattenEach(Plan(xs, a, fn))
  {
    if |xs| == 0 {
      forall k | 0 <= k < |a| ensures Flatten([a[k]]) == a[k] {
        FlattenSingle(a[k]);
      }
    } else {
      var n := |xs| - 1;
      JoinedIsFlattenedPlan(xs[..n], a, fn);
      JoinStepIsPlanStep(Plan(xs[..n], a, fn), xs[n], fn);
    }
  }

  /** Replacing the last group of `p` by an extension of it keeps every
      group of `a` that `p` kept. */
  lemma ExtendLast<T>(p: seq<seq<T>>, a: seq<seq<T>>, g: seq<T>)
    requires Extends(p, a) && |p| > 0 && p[|p| - 1] <= g
    ensures Extends(p[..|p| - 1] + [g], a)
  {
    var r := p[..|p| - 1] + [g];
    assert forall k :: 0 <= k < |p| - 1 ==> r[k] == p[k];
  }

  /** The concatenation after one join step gains the candidate's elements. */
  lemma JoinStepFlatten<T>(p: seq<seq<T>>, x: seq<T>, fn: (seq<T>, seq<T>) -> bool)
    ensures Flatten(JoinStep(p, x, fn)) == Flatten(p) + x
  {
    if |p| == 0 || !fn(p[|p| - 1], x) {
      FlattenSnoc(p, x);
    } else {
      var last := |p| - 1;
      assert p == p[..last] + [p[last]];
      FlattenSnoc(p[..last], p[last]);
      FlattenSnoc(p[..last], p[last] + x);
    }
  }

  /** One join step only appends, and adds the candidate's elements. */
  lemma JoinStepAppends<T>(p: seq<seq<T>>, a: seq<seq<T>>, xs: seq<seq<T>>, x: seq<T>, fn: (seq<T>, seq<T>) -> bool)
    requires Extends(p, a) && |p| <= |a| + |xs| && Flatten(p) == Flatten(a) + Flatten(xs)
    ensures var r := JoinStep(p, x, fn);
      Extends(r, a) && |r| <= |a| + |xs| + 1 && Flatten(r) == Flatten(a) + Flatten(xs + [x])
  {
    var r := JoinStep(p, x, fn);
    var fa, fx := Flatten(a), Flatten(xs);
    FlattenSnoc(xs, x);
    JoinStepFlatten(p, x, fn);
    assert Flatten(r) == fa + fx + x;
    assert fa + fx + x == fa + (fx + x);
    if |p| == 0 || !fn(p[|p| - 1], x) {
      assert forall k :: 0 <= k < |p| ==> r[k] == p[k];
    } else {
      ExtendLast(p, a, p[|p| - 1] + x);
    }
  }

  /** Joining onto any accumulator only appends, and adds exactly the
      elements of the candidate groups. */
  lemma {:induction false} JoinedAppends<T>(xs: seq<seq<T>>, a: seq<seq<T>>, fn: (seq<T>, seq<T>) -> bool)
    ensures var r := Joined(xs, a, fn);
      Extends(r, a) && |r| <= |a| + |xs| && Flatten(r) == Flatten(a) + Flatten(xs)
  {
    if |xs| > 0 {
      var n := |xs| - 1;
      JoinedAppends(xs[..n], a, fn);
      JoinStepAppends(Joined(xs[..n], a, fn), a, xs[..n], xs[n], fn);
      assert xs[..n] + [xs[n]] == xs;
    }
  }

  /** From an empty accumulator, the plan of `joinIf` is a partition of the
      input groups: its runs are non-empty, consecutive and cover `xs` in
      order; a candidate was fused exactly when `fn` accepted it given the
      output group built so far; and output group `k` is run `k` flattened. */
  lemma JoinIfRuns<T>(xs: seq<seq<T>>, fn: (seq<T>, seq<T>) -> bool)
    ensures var p := Plan(xs, [], fn);
      IsPartition(p, xs, OnRuns(fn)) &&
      Joined(xs, [], fn) == FlattenEach(p)
  {
    assert Runs<T>([]) == [];
    PartitionedIsPartition(xs, OnRuns(fn));
    JoinedIsFlattenedPlan(xs, [], fn);
  }

  /** A group the size predicate refused to fuse into already had at least
      `s` elements. */
  lemma RefusedIsFull<T>(p: seq<seq<seq<T>>>, xs: seq<seq<T>>, s: nat, k: nat)
    requires IsPartition(p, xs, OnRuns(UntilSize(s))) && k + 1 < |p|
    ensures |Flatten(p[k])| >= s
  {
    assert !OnRuns(UntilSize<T>(s))(p[k], p[k + 1][0]);
  }

  /** Within a run the size predicate built, the constituents before the
      last total fewer than `s` elements, so the run exceeds `s` by less
      than its last constituent. */
  lemma AcceptedIsBelow<T>(g: seq<seq<T>>, s: nat)
    requires Accepted(g, OnRuns(UntilSize(s))) && |g| > 1
    ensures |Flatten(g[..|g| - 1])| < s && |Flatten(g)| < s + |g[|g| - 1]|
  {
    var m := |g| - 1;
    assert OnRuns(UntilSize<T>(s))(g[..m], g[m]);
    assert g == g[..m] + [g[m]];
    FlattenSnoc(g[..m], g[m]);
  }

  /** The soft cap of `joinUntilSize`, from an empty accumulator: every
      output group but the last reached `s` elements, and a candidate was
      only ever fused into a group still below `s`, so a group exceeds `s`
      by less than its last constituent. */
  lemma UntilSizeSoftCap<T>(xs: seq<seq<T>>, s: nat)
    ensures var r := Joined(xs, [], UntilSize(s));
      var p := Plan(xs, [], UntilSize(s));
      |r| == |p| &&
      (forall k :: 0 <= k < |r| - 1 ==> |r[k]| >= s) &&
      (forall k :: 0 <= k < |p| && |p[k]| > 1 ==>
         |Flatten(p[k][..|p[k]| - 1])| < s && |r[k]| < s + |p[k][|p[k]| - 1]|)
  {
    var fn := UntilSize<T>(s);
    var r := Joined(xs, [], fn);
    var p := Plan(xs, [], fn);
    JoinIfRuns(xs, fn);
    forall k | 0 <= k < |r| - 1 ensures |r[k]| >= s {
      RefusedIsFull(p, xs, s, k);
    }
    forall k | 0 <= k < |p| && |p[k]| > 1
      ensures |Flatten(p[k][..|p[k]| - 1])| < s && |r[k]| < s + |p[k][|p[k]| - 1]|
    {
      AcceptedIsBelow(p[k], s);
    }
  }

  /** With a cap of zero nothing is ever fused: each candidate is copied as
      a group of its own. */
  lemma {:induction false} UntilSizeZero<T>(xs: seq<seq<T>>, a: seq<seq<T>>)
    ensures Joined(xs, a, UntilSize(0)) == a + xs
  {
    if |xs| > 0 {
      var n := |xs| - 1;
      UntilSizeZero(xs[..n], a);
      assert a + xs[..n] + [xs[n]] == a + xs;
    }
  }

  /** `joinIf`: offers each group of `xs` in turn to `a`. */
  method JoinIf<T>(xs: seq<seq<T>>, a: seq<seq<T>>, fn: (seq<T>, seq<T>) -> bool)
    returns (r: seq<seq<T>>)
    ensures r == Joined(xs, a, fn)
    ensures Extends(r, a) && Flatten(r) == Flatten(a) + Flatten(xs)
  {
    r := a;
    for i := 0 to |xs|
      invariant r == Joined(xs[..i], a, fn)
    {
      assert xs[..i + 1][..i] == xs[..i];
      var x := xs[i];
      if |r| == 0 || !fn(r[|r| - 1], x) {
        r := r + [x];
      } else {
        r := r[..|r| - 1] + [r[|r| - 1] + x];
      }
    }
    assert xs[..|xs|] == xs;
    JoinedAppends(xs, a, fn);
  }

  /** `joinIfVector`: joins into a fresh nested sequence; the result is the
      input regrouped along a partition of the input groups. */
  method JoinIfVector<T>(xs: seq<seq<T>>, fn: (seq<T>, seq<T>) -> bool)
    returns (r: seq<seq<T>>)
    ensures IsPartition(Plan(xs, [], fn), xs, OnRuns(fn))
    ensures r == FlattenEach(Plan(xs, [], fn))
    ensures Flatten(r) == Flatten(xs)
  {
    r := JoinIf(xs, [], fn);
    JoinIfRuns(xs, fn);
  }

  /** `joinUntilSize`: `joinIf` with the size-cap predicate. */
  method JoinUntilSize<T>(xs: seq<seq<T>>, a: seq<seq<T>>, s: nat)
    returns (r: seq<seq<T>>)
    ensures r == Joined(xs, a, UntilSize(s))
    ensures Extends(r, a) && Flatten(r) == Flatten(a) + Flatten(xs)
  {
    r := JoinIf(xs, a, UntilSize(s));
  }

  /** `joinUntilSizeVector`: packs the input groups into groups of at least
      `s` elements (all but the last), each exceeding `s` by less than its
      last constituent, conserving all elements in order. */
  method JoinUntilSizeVector<T>(xs: seq<seq<T>>, s: nat)
    returns (r: seq<seq<T>>)
    ensures Flatten(r) == Flatten(xs)
    ensures forall k :: 0 <= k < |r| - 1 ==> |r[k]| >= s
    ensures var p := Plan(xs, [], UntilSize(s));
      IsPartition(p, xs, OnRuns(UntilSize(s))) && r == FlattenEach(p) &&
      forall k :: 0 <= k < |p| && |p[k]| > 1 ==> |r[k]| < s + |p[k][|p[k]| - 1]|
    ensures s == 0 ==> r == xs
  {
    r := JoinUntilSize(xs, [], s);
    JoinIfRuns(xs, UntilSize(s));
    UntilSizeSoftCap(xs, s);
    UntilSizeZero(xs, []);
  }

  /** `joinValues`: appends every group of `xs`, in order, to `a`. */
  method JoinValues<T>(xs: seq<seq<T>>, a: seq<T>) returns (r: seq<T>)
    ensures r == a + Flatten(xs)
  {
    r := a;
    for i := 0 to |xs|
      invariant r == a + Flatten(xs[..i])
    {
      assert xs[..i + 1] == xs[..i] + [xs[i]];
      FlattenSnoc(xs[..i], xs[i]);
      r := r + xs[i];
    }
    assert xs[..|xs|] == xs;
  }

  /** `joinValuesVector`: the concatenation of all groups; its length is
      what `size2d` counts. */
  method JoinValuesVector<T>(xs: seq<seq<T>>) returns (r: seq<T>)
    ensures r == Flatten(xs)
  {
    r := JoinValues(xs, []);
  }

  /** `joinAt`: appends `xs[i]` for each `i` of `idx`, in order (repeats and
      omissions allowed). */
  method JoinAt<T>(xs: seq<seq<T>>, idx: seq<nat>, a: seq<T>) returns (r: seq<T>)
    requires forall k :: 0 <= k < |idx| ==> idx[k] < |xs|
    ensures r == a + Flatten(Select(xs, idx))
  {
    r := a;
    for i := 0 to |idx|
      invariant r == a + Flatten(Select(xs, idx[..i]))
    {
      assert idx[..i + 1] == idx[..i] + [idx[i]];
      SelectSnoc(xs, idx[..i], idx[i]);
      FlattenSnoc(Select(xs, idx[..i]), xs[idx[i]]);
      r := r + xs[idx[i]];
    }
    assert idx[..|idx|] == idx;
  }

  /** `joinAtVector`: the concatenation of the selected groups. */
  method JoinAtVector<T>(xs: seq<seq<T>>, idx: seq<nat>) returns (r: seq<T>)
    requires forall k :: 0 <= k < |idx| ==> idx[k] < |xs|
    ensures r == Flatten(Select(xs, idx))
  {
    r := JoinAt(xs, idx, []);
  }

  /** `joinAtIf`: `joinIf` over the groups selected by `idx`. */
  method JoinAtIf<T>(xs: seq<seq<T>>, idx: seq<nat>, a: seq<seq<T>>, fn: (seq<T>, seq<T>) -> bool)
    returns (r: seq<seq<T>>)
    requires forall k :: 0 <= k < |idx| ==> idx[k] < |xs|
    ensures r == Joined(Select(xs, idx), a, fn)
    ensures Extends(r, a) && Flatten(r) == Flatten(a) + Flatten(Select(xs, idx))
  {
    r := a;
    for i := 0 to |idx|
      invariant r == Joined(Select(xs, idx[..i]), a, fn)
    {
      assert idx[..i + 1] == idx[..i] + [idx[i]];
      SelectSnoc(xs, idx[..i], idx[i]);
      assert Select(xs, idx[..i + 1])[..i] == Select(xs, idx[..i]);
      var x := xs[idx[i]];
      if |r| == 0 || !fn(r[|r| - 1], x) {
        r := r + [x];
      } else {
        r := r[..|r| - 1] + [r[|r| - 1] + x];
      }
    }
    assert idx[..|idx|] == idx;
    JoinedAppends(Select(xs, idx), a, fn);
  }

  /** `joinAtIfVector`: the selected groups regrouped along a partition of
      them. */
  method JoinAtIfVector<T>(xs: seq<seq<T>>, idx: seq<nat>, fn: (seq<T>, seq<T>) -> bool)
    returns (r: seq<seq<T>>)
    requires forall k :: 0 <= k < |idx| ==> idx[k] < |xs|
    ensures var p := Plan(Select(xs, idx), [], fn);
      IsPartition(p, Select(xs, idx), OnRuns(fn)) && r == FlattenEach(p)
    ensures Flatten(r) == Flatten(Select(xs, idx))
  {
    r := JoinAtIf(xs, idx, [], fn);
    JoinIfRuns(Select(xs, idx), fn);
  }

  /** `joinAtUntilSize`: `joinAtIf` with the size-cap predicate. */
  method JoinAtUntilSize<T>(xs: seq<seq<T>>, idx: seq<nat>, a: seq<seq<T>>, s: nat)
    returns (r: seq<seq<T>>)
    requires forall k :: 0 <= k < |idx| ==> idx[k] < |xs|
    ensures r == Joined(Select(xs, idx), a, UntilSize(s))
    ensures Extends(r, a) && Flatten(r) == Flatten(a) + Flatten(Select(xs, idx))
  {
    r := JoinAtIf(xs, idx, a, UntilSize(s));
  }

  /** `joinAtUntilSizeVector`: the selected groups packed under the soft
      cap `s`. */
  method JoinAtUntilSizeVector<T>(xs: seq<seq<T>>, idx: seq<nat>, s: nat)
    returns (r: seq<seq<T>>)
    requires forall k :: 0 <= k < |idx| ==> idx[k] < |xs|
    ensures Flatten(r) == Flatten(Select(xs, idx))
    ensures forall k :: 0 <= k < |r| - 1 ==> |r[k]| >= s
    ensures var p := Plan(Select(xs, idx), [], UntilSize(s));
      IsPartition(p, Select(xs, idx), OnRuns(UntilSize(s))) && r == FlattenEach(p) &&
      forall k :: 0 <= k < |p| && |p[k]| > 1 ==> |r[k]| < s + |p[k][|p[k]| - 1]|
    ensures s == 0 ==> r == Select(xs, idx)
  {
    r := JoinAtUntilSize(xs, idx, [], s);
    JoinIfRuns(Select(xs, idx), UntilSize(s));
    UntilSizeSoftCap(Select(xs, idx), s);
    UntilSizeZero(Select(xs, idx), []);
  }

  /** `joinAt2d`: appends one group per index group of `ig`, group `k`
      being the concatenation of the groups `ig[k]` selects. */
  method JoinAt2d<T>(xs: seq<seq<T>>, ig: seq<seq<nat>>, a: seq<seq<T>>)
    returns (r: seq<seq<T>>)
    requires forall k, j :: 0 <= k < |ig| && 0 <= j < |ig[k]| ==> ig[k][j] < |xs|
    ensures |r| == |a| + |ig| && r[..|a|] == a
    ensures forall k :: 0 <= k < |ig| ==> r[|a| + k] == Flatten(Select(xs, ig[k]))
  {
    r := a;
    for i := 0 to |ig|
      invariant |r| == |a| + i && r[..|a|] == a
      invariant forall k :: 0 <= k < i ==> r[|a| + k] == Flatten(Select(xs, ig[k]))
    {
      var g := JoinAtVector(xs, ig[i]);
      r := r + [g];
    }
  }

  /** `joinAt2dVector`: materialises the whole regrouping plan `ig`. */
  method JoinAt2dVector<T>(xs: seq<seq<T>>, ig: seq<seq<nat>>)
    returns (r: seq<seq<T>>)
    requires forall k, j :: 0 <= k < |ig| && 0 <= j < |ig[k]| ==> ig[k][j] < |xs|
    ensures |r| == |ig|
    ensures forall k :: 0 <= k < |ig| ==> r[k] == Flatten(Select(xs, ig[k]))
  {
    r := JoinAt2d(xs, ig, []);
  }

  /** Selecting `[2, 0, 2]` out of `[[10, 11], [20], [30, 31, 32]]`: groups
      may repeat and be skipped. */
  lemma JoinAtExample()
    ensures Flatten(Select([[10, 11], [20], [30, 31, 32]], [2, 0, 2])) == [30, 31, 32, 10, 11, 30, 31, 32]
  {
    var s := Select([[10, 11], [20], [30, 31, 32]], [2, 0, 2]);
    assert s == [[30, 31, 32], [10, 11], [30, 31, 32]];
    assert s[..2][..1] == [[30, 31, 32]] && s[..2] == [[30, 31, 32], [10, 11]];
    FlattenSingle([30, 31, 32]);
  }

  /** Packing `[[1, 2], [3], [4, 5], [6]]` under a cap of 3, the first two
      candidates: `[3]` joins `[1, 2]` (size 2 is below 3). */
  lemma UntilSizeExampleFirst()
    ensures Joined([[1, 2], [3]], [], UntilSize(3)) == [[1, 2, 3]]
  {
    var xs: seq<seq<int>> := [[1, 2], [3]];
    var f := UntilSize<int>(3);
    JoinedPrefix(xs, [], f, 0);
    assert xs[..0] == [] && xs[..1] == [[1, 2]];
    JoinedPrefix(xs, [], f, 1);
    assert f([1, 2], [3]) && [1, 2] + [3] == [1, 2, 3];
    assert xs[..2] == xs;
  }

  /** The whole packing: `[4, 5]` opens a group (size 3 is not below 3),
      and `[6]` joins it, giving `[[1, 2, 3], [4, 5, 6]]`. */
  lemma UntilSizeExample()
    ensures Joined([[1, 2], [3], [4, 5], [6]], [], UntilSize(3)) == [[1, 2, 3], [4, 5, 6]]
  {
    var xs: seq<seq<int>> := [[1, 2], [3], [4, 5], [6]];
    var f := UntilSize<int>(3);
    UntilSizeExampleFirst();
    assert xs[..2] == [[1, 2], [3]];
    JoinedPrefix(xs, [], f, 2);
    assert !f([1, 2, 3], [4, 5]);
    JoinedPrefix(xs, [], f, 3);
    assert f([4, 5], [6]) && [4, 5] + [6] == [4, 5, 6];
    assert xs[..4] == xs;
  }

  /** Joining one more candidate is one more step. */
  lemma JoinedPrefix<T>(xs: seq<seq<T>>, a: seq<seq<T>>, fn: (seq<T>, seq<T>) -> bool, n: nat)
    requires n < |xs|
    ensures Joined(xs[..n + 1], a, fn) == JoinStep(Joined(xs[..n], a, fn), xs[n], fn)
  {
    assert xs[..n + 1][..n] == xs[..n];
  }
}
