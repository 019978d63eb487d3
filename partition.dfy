/** `partitionValues`: cutting a flat sequence into groups, left to right,
    where a caller-supplied pure predicate `fn(groupSoFar, v)` says whether
    `v` may join the current (last) group. */
module Partition {
  import opened Nested

  /** One element of the scan: `v` opens a new group when there is no group
      yet or `fn` refuses it, and otherwise joins the last group.  (The last
      group is only looked at when there is one.) */
  function Step<T>(a: seq<seq<T>>, v: T, fn: (seq<T>, T) -> bool): seq<seq<T>>
  {
    if |a| == 0 || !fn(a[|a| - 1], v) then a + [[v]]
    else a[..|a| - 1] + [a[|a| - 1] + [v]]
  }

  /** The groups after scanning all of `x` onto the accumulator `a`. */
  function Partitioned<T>(x: seq<T>, a: seq<seq<T>>, fn: (seq<T>, T) -> bool): seq<seq<T>>
  {
    if |x| == 0 then a else Step(Partitioned(x[..|x| - 1], a, fn), x[|x| - 1], fn)
  }

  /** `r` grew out of `a` by appending: the groups of `a` are kept, except
      that the last one may have been extended at its end. */
  ghost predicate Extends<T>(r: seq<seq<T>>, a: seq<seq<T>>)
  {
    |a| <= |r| &&
    (forall k :: 0 <= k < |a| - 1 ==> r[k] == a[k]) &&
    (|a| > 0 ==> a[|a| - 1] <= r[|a| - 1])
  }

  /** Within the group `g`, every element after the first was accepted by
      `fn` given the part of `g` before it. */
  ghost predicate Accepted<T>(g: seq<T>, fn: (seq<T>, T) -> bool)
  {
    forall m :: 0 < m < |g| ==> fn(g[..m], g[m])
  }

  /** `r` is a partition of `x` under `fn`: its groups are non-empty and
      concatenate to `x`, every element after the first of a group was
      accepted by `fn` given the group before it, and the first element of
      every group but the first was refused by `fn` given the whole group
      before it. */
  ghost predicate IsPartition<T>(r: seq<seq<T>>, x: seq<T>, fn: (seq<T>, T) -> bool)
  {
    Flatten(r) == x &&
    (forall k :: 0 <= k < |r| ==> |r[k]| > 0 && Accepted(r[k], fn)) &&
    (forall k :: 0 < k < |r| ==> !fn(r[k - 1], r[k][0]))
  }

  /** One scan step only appends: it keeps `Extends`, adds `v` to the
      concatenation, and leaves every group it touches non-empty. */
  lemma StepAppends<T>(p: seq<seq<T>>, a: seq<seq<T>>, x: seq<T>, v: T, fn: (seq<T>, T) -> bool)
    requires Extends(p, a) && Flatten(p) == Flatten(a) + x
    requires forall k :: |a| <= k < |p| ==> |p[k]| > 0
    ensures var r := Step(p, v, fn);
      Extends(r, a) &&
      Flatten(r) == Flatten(a) + (x + [v]) &&
      (forall k :: |a| <= k < |r| ==> |r[k]| > 0)
  {
    var r := Step(p, v, fn);
    if |p| == 0 || !fn(p[|p| - 1], v) {
      FlattenSnoc(p, [v]);
      assert forall k :: 0 <= k < |p| ==> r[k] == p[k];
    } else {
      var last := |p| - 1;
      var g := p[last] + [v];
      assert p == p[..last] + [p[last]];
      FlattenSnoc(p[..last], p[last]);
      FlattenSnoc(p[..last], g);
      assert r == p[..last] + [g];
      assert Flatten(r) == Flatten(p) + [v];
      assert forall k :: 0 <= k < last ==> r[k] == p[k];
      assert p[last] <= r[last];
    }
  }

  /** Scanning onto any accumulator only appends: it keeps what was there,
      adds exactly the scanned elements, and every group it opens is
      non-empty. */
  lemma {:induction false} PartitionedAppends<T>(x: seq<T>, a: seq<seq<T>>, fn: (seq<T>, T) -> bool)
    ensures var r := Partitioned(x, a, fn);
      Extends(r, a) &&
      Flatten(r) == Flatten(a) + x &&
      (forall k :: |a| <= k < |r| ==> |r[k]| > 0)
  {
    if |x| > 0 {
      var n := |x| - 1;
      PartitionedAppends(x[..n], a, fn);
      StepAppends(Partitioned(x[..n], a, fn), a, x[..n], x[n], fn);
      assert x[..n] + [x[n]] == x;
    }
  }

  /** Opening a new group for `v`, when `fn` refuses it (or there is no
      group yet), keeps a partition a partition. */
  lemma OpenKeepsPartition<T>(p: seq<seq<T>>, x: seq<T>, v: T, fn: (seq<T>, T) -> bool)
    requires IsPartition(p, x, fn)
    requires |p| == 0 || !fn(p[|p| - 1], v)
    ensures IsPartition(p + [[v]], x + [v], fn)
  {
    var r := p + [[v]];
    FlattenSnoc(p, [v]);
    assert forall k :: 0 <= k < |p| ==> r[k] == p[k];
  }

  /** Appending `v` to the last group, when `fn` accepts it, keeps a
      partition a partition. */
  lemma ExtendKeepsPartition<T>(p: seq<seq<T>>, x: seq<T>, v: T, fn: (seq<T>, T) -> bool)
    requires IsPartition(p, x, fn)
    requires |p| > 0 && fn(p[|p| - 1], v)
    ensures IsPartition(p[..|p| - 1] + [p[|p| - 1] + [v]], x + [v], fn)
  {
    var last := |p| - 1;
    var g := p[last] + [v];
    var r := p[..last] + [g];
    assert p == p[..last] + [p[last]];
    FlattenSnoc(p[..last], p[last]);
    FlattenSnoc(p[..last], g);
    assert forall k :: 0 <= k < last ==> r[k] == p[k];
    assert Accepted(g, fn) by {
      forall m | 0 < m < |g| ensures fn(g[..m], g[m]) {
        if m < |p[last]| {
          assert g[..m] == p[last][..m];
        } else {
          assert g[..m] == p[last];
        }
      }
    }
    assert r[last] == g && g[0] == p[last][0];
  }

  /** Soundness: scanning from no groups yields a partition in the sense of
      `IsPartition`. */
  lemma {:induction false} PartitionedIsPartition<T>(x: seq<T>, fn: (seq<T>, T) -> bool)
    ensures IsPartition(Partitioned(x, [], fn), x, fn)
  {
    if |x| > 0 {
      var n := |x| - 1;
      var v := x[n];
      var p := Partitioned(x[..n], [], fn);
      PartitionedIsPartition(x[..n], fn);
      assert x[..n] + [v] == x;
      if |p| == 0 || !fn(p[|p| - 1], v) {
        OpenKeepsPartition(p, x[..n], v, fn);
      } else {
        ExtendKeepsPartition(p, x[..n], v, fn);
      }
    }
  }

  /** Completeness: a partition of `x` in the sense of `IsPartition` is the
      one the scan produces, so `IsPartition` pins the output down. */
  lemma {:induction false} PartitionIsPartitioned<T>(r: seq<seq<T>>, x: seq<T>, fn: (seq<T>, T) -> bool)
    requires IsPartition(r, x, fn)
    ensures r == Partitioned(x, [], fn)
    decreases |x|
  {
    if |r| == 0 {
      assert x == Flatten(r) == [];
    } else {
      var n := |r| - 1;
      var g := r[n];
      var front := r[..n];
      assert r == front + [g];
      FlattenSnoc(front, g);
      var v := g[|g| - 1];
      var x' := x[..|x| - 1];
      assert x == Flatten(front) + g;
      assert x[|x| - 1] == v;
      var g' := g[..|g| - 1];
      assert g == g' + [v];
      if |g| == 1 {
        assert x' == Flatten(front);
        assert IsPartition(front, x', fn) by {
          assert forall k :: 0 <= k < n ==> front[k] == r[k];
        }
        PartitionIsPartitioned(front, x', fn);
        if n > 0 {
          assert !fn(r[n - 1], r[n][0]);
        }
      } else {
        var r' := front + [g'];
        FlattenSnoc(front, g');
        assert x == Flatten(front) + g' + [v];
        assert x' == Flatten(r');
        assert IsPartition(r', x', fn) by {
          assert forall k :: 0 <= k < n ==> r'[k] == r[k];
          forall m | 0 < m < |g'| ensures fn(r'[n][..m], r'[n][m]) {
            assert r'[n][..m] == g[..m];
          }
        }
        PartitionIsPartitioned(r', x', fn);
        assert fn(g[..|g| - 1], g[|g| - 1]);
        assert r'[..n] == front;
      }
    }
  }

  /** `partitionValues`: appends the groups of `x` to the out-parameter `a`
      (passed in and handed back).  The first element may extend the last
      group already in `a`. */
  method PartitionValues<T>(x: seq<T>, a: seq<seq<T>>, fn: (seq<T>, T) -> bool)
    returns (r: seq<seq<T>>)
    ensures r == Partitioned(x, a, fn)
    ensures Extends(r, a) && Flatten(r) == Flatten(a) + x
    ensures forall k :: |a| <= k < |r| ==> |r[k]| > 0
  {
    r := a;
    for i := 0 to |x|
      invariant r == Partitioned(x[..i], a, fn)
    {
      assert x[..i + 1][..i] == x[..i];
      var v := x[i];
      if |r| == 0 || !fn(r[|r| - 1], v) {
        r := r + [[v]];
      } else {
        r := r[..|r| - 1] + [r[|r| - 1] + [v]];
      }
    }
    assert x[..|x|] == x;
    PartitionedAppends(x, a, fn);
  }

  /** `partitionValuesVector`: partitions `x` into a fresh nested sequence;
      the result is the unique partition of `x` under `fn`. */
  method PartitionValuesVector<T>(x: seq<T>, fn: (seq<T>, T) -> bool)
    returns (r: seq<seq<T>>)
    ensures IsPartition(r, x, fn)
  {
    r := PartitionValues(x, [], fn);
    PartitionedIsPartition(x, fn);
  }

  /** Run-length style grouping: a value may join a group that ends with
      the same value. */
  function SameAsLast(b: seq<int>, v: int): bool
  {
    |b| > 0 && b[|b| - 1] == v
  }

  /** The groups of equal neighbours of `[1, 1, 2, 2, 2, 3]` concatenate
      back to it. */
  lemma SameValuesFlatten()
    ensures Flatten([[1, 1], [2, 2, 2], [3]]) == [1, 1, 2, 2, 2, 3]
  {
    FlattenSnoc<int>([], [1, 1]);
    assert [] + [[1, 1]] == [[1, 1]];
    FlattenSnoc([[1, 1]], [2, 2, 2]);
    assert [[1, 1]] + [[2, 2, 2]] == [[1, 1], [2, 2, 2]];
    FlattenSnoc([[1, 1], [2, 2, 2]], [3]);
    assert [[1, 1], [2, 2, 2]] + [[3]] == [[1, 1], [2, 2, 2], [3]];
  }

  /** Grouping equal neighbours of `[1, 1, 2, 2, 2, 3]`: the expected groups
      are checked against `IsPartition`, which pins down the scan's output. */
  lemma PartitionSameValues()
    ensures Partitioned([1, 1, 2, 2, 2, 3], [], SameAsLast) == [[1, 1], [2, 2, 2], [3]]
  {
    var r: seq<seq<int>> := [[1, 1], [2, 2, 2], [3]];
    SameValuesFlatten();
    assert Accepted(r[1], SameAsLast) by {
      assert r[1][..1] == [2] && r[1][..2] == [2, 2];
    }
    assert Accepted(r[0], SameAsLast) by {
      assert r[0][..1] == [1];
    }
    assert Accepted(r[2], SameAsLast);
    PartitionIsPartitioned(r, [1, 1, 2, 2, 2, 3], SameAsLast);
  }
}
