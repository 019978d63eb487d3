/** Nested ("grouped") sequences: the `vector2d<T>` of the library is a
    `seq<seq<T>>`, a `vector3d<T>` a `seq<seq<seq<T>>>`.  This module holds
    the vocabulary the other modules share: concatenating the groups of a
    nested sequence, selecting groups by index, and the size accounting of
    `size2d` / `size3d`. */
module Nested {

  /** The concatenation of all groups, in order (what `copyAppend`-ing every
      group onto an empty vector yields).  Defined by peeling off the last
      group, which is the order in which a streaming loop builds it. */
  function Flatten<T>(xs: seq<seq<T>>): seq<T>
  {
    if |xs| == 0 then [] else Flatten(xs[..|xs| - 1]) + xs[|xs| - 1]
  }

  /** Concatenation distributes over the outer `+`. */
  lemma {:induction false} FlattenAppend<T>(xs: seq<seq<T>>, ys: seq<seq<T>>)
    ensures Flatten(xs + ys) == Flatten(xs) + Flatten(ys)
    decreases |ys|
  {
    if |ys| == 0 {
      assert xs + ys == xs;
    } else {
      var n := |ys| - 1;
      assert (xs + ys)[..|xs + ys| - 1] == xs + ys[..n];
      FlattenAppend(xs, ys[..n]);
    }
  }

  /** Flattening one more group at the end appends that group. */
  lemma FlattenSnoc<T>(xs: seq<seq<T>>, g: seq<T>)
    ensures Flatten(xs + [g]) == Flatten(xs) + g
  {
    assert (xs + [g])[..|xs|] == xs;
  }

  /** The groups of `xs` named by `idx`, in the order of `idx` (repeats and
      omissions allowed): the candidates the `joinAt*` functions read as
      `xs[i]` for each `i` in `idx`. */
  function Select<T>(xs: seq<seq<T>>, idx: seq<nat>): (r: seq<seq<T>>)
    requires forall k :: 0 <= k < |idx| ==> idx[k] < |xs|
    ensures |r| == |idx|
    ensures forall k :: 0 <= k < |idx| ==> r[k] == xs[idx[k]]
  {
    seq(|idx|, k requires 0 <= k < |idx| => xs[idx[k]])
  }

  /** Selecting one more index selects one more group. */
  lemma SelectSnoc<T>(xs: seq<seq<T>>, idx: seq<nat>, i: nat)
    requires forall k :: 0 <= k < |idx| ==> idx[k] < |xs|
    requires i < |xs|
    ensures Select(xs, idx + [i]) == Select(xs, idx) + [xs[i]]
  {
  }

  /** `size2d`: the number of elements over all groups, accumulated group by
      group as the source's loop does. */
  method Size2d<T>(x: seq<seq<T>>) returns (a: nat)
    ensures a == |Flatten(x)|
  {
    a := 0;
    for k := 0 to |x|
      invariant a == |Flatten(x[..k])|
    {
      FlattenSnoc(x[..k], x[k]);
      assert x[..k + 1] == x[..k] + [x[k]];
      a := a + |x[k]|;
    }
    assert x[..|x|] == x;
  }

  /** `size3d`: the number of innermost elements, accumulated with `size2d`
      over each outer entry. */
  method Size3d<T>(x: seq<seq<seq<T>>>) returns (a: nat)
    ensures a == |Flatten(Flatten(x))|
  {
    a := 0;
    for k := 0 to |x|
      invariant a == |Flatten(Flatten(x[..k]))|
    {
      var b := Size2d(x[k]);
      assert x[..k + 1] == x[..k] + [x[k]];
      FlattenSnoc(x[..k], x[k]);
      FlattenAppend(Flatten(x[..k]), x[k]);
      a := a + b;
    }
    assert x[..|x|] == x;
  }
}
