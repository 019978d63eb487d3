# Array shaping and filtered graph duplication, modelled in Dafny

This project models the sequential array-shaping layer of a PageRank
experiment code base (`src/_vector.hxx`), together with its filtered
graph-copy protocol (`src/duplicate.hxx`), and proves properties of that model.

- **Nested sizes.** `size2d` / `size3d` count the elements of a `vector2d` /
  `vector3d`. These nested vectors are modelled as `seq<seq<T>>` and
  `seq<seq<seq<T>>>` (module `Nested`).
- **Permutation engine.** `reorderDirty` applies a destination-index
  permutation to a buffer by following its cycles. It swaps entries of the
  data buffer and of the index buffer in place. `reorder` does the same on a
  copy of the indices (module `Reorder`, over `array`s).
- **Partitioning.** `partitionValues` cuts a flat sequence into groups,
  left to right. A caller-supplied predicate decides whether the next element
  joins the last group (module `Partition`).
- **Joining.**
  - `joinIf` fuses whole input groups into the last output group while a
    predicate allows it.
  - `joinUntilSize` does the same with a size cap.
  - `joinValues` concatenates.
  - The `joinAt*` variants do the same, but pick their candidate groups by
    index.
  - Every operation has a `*Vector` form that starts from an empty
    out-parameter (module `Join`).
- **Gather and scatter.** `gatherValues` / `scatterValues` are index-driven
  copies into an array (module `GatherScatter`).
- **Duplication.** `duplicateTo` / `duplicate` copy the vertices and edges of
  a source graph that pass two predicates, then call the destination's
  `correct`. The destination is a class that records the calls it receives
  (module `Duplicate`).

The out-parameter `vector2d<T>& a` (or `vector<T>& a`) of the partition and
join functions is modelled as a value: it is passed in, and its new value is
returned.

The specification functions are left folds. Each one peels off the last
input, so each streaming loop is proved equal to the function over its
prefix.

`joinIf` is proved to be a partition of the input groups, under the
predicate seen on runs, followed by flattening each part. Every property of
runs and of the soft cap follows from the characterisation of
`partitionValues`.

## Model

Four shared definitions carry no row of their own: `Nested.Select` (the
groups `xs[i]` named by an index list, in order), `Join.Runs` (existing
output groups as one-constituent runs), `Join.FlattenEach` (each run of a
plan concatenated) and `Duplicate.Ids` (vertex ids in traversal order).
The contracts below are stated with them.

| member | source | states |
|---|---|---|
| Nested.Size2d | src/_vector.hxx:47-53 | the accumulated size is the length of the concatenation of all groups |
| Nested.Size3d | src/_vector.hxx:55-61 | the accumulated `size2d`s are the length of the doubly flattened input |
| Nested.FlattenAppend | src/_vector.hxx:175-179 | concatenating all groups distributes over appending group sequences (what lets appending loops be summed) |
| Reorder.SettledIffFixed | src/_vector.hxx:73 | for a permutation, the inner loop's exit test `is[i] == is[is[i]]` holds exactly when `i` is a fixed point |
| Reorder.IndexStep | src/_vector.hxx:73-76 | one swap on the indices keeps a permutation and strictly shrinks the set of non-fixed points (the termination measure) |
| Reorder.DataStep | src/_vector.hxx:73-76 | the matching swap on the data keeps every index slot pointing at the datum it must finally deliver, and keeps the multiset of data |
| Reorder.SettleCycle | src/_vector.hxx:73-76 | the inner `while` loop ends with slot `i` fixed, every earlier slot still fixed, and the alignment and the multiset preserved |
| Reorder.ReorderDirty | src/_vector.hxx:70-78 | given a permutation `is` of the same length, afterwards `x[p]` is the old `x[is[p]]`, `x` is a rearrangement of its old contents, and `is` is the identity |
| Reorder.Reorder | src/_vector.hxx:79-82 | the same result on `x`; the caller's index sequence is taken by value and is unchanged |
| GatherScatter.Gathered | src/_vector.hxx:251-256 | slot `j < |is|` holds `x[is[j]]`; every later slot keeps its value |
| GatherScatter.Scattered | src/_vector.hxx:268-273 | slots not named in `is` keep their value; slot `is[j]` holds `x[j]` when no later index names it (last write wins) |
| GatherScatter.GatherValues | src/_vector.hxx:251-260 | the array after the loop is the gathered destination |
| GatherScatter.ScatterValues | src/_vector.hxx:268-277 | the array after the loop is the scattered destination |
| GatherScatter.ScatterAfterGather | src/_vector.hxx:251-277 | scattering back through the same indices restores `x` at every named slot and leaves every other slot of the destination alone |
| GatherScatter.LastIndexOf | src/_vector.hxx:271-272 | the write that survives at a named slot is the last one naming it |
| Partition.StepAppends | src/_vector.hxx:121-126 | one element keeps the earlier groups, adds exactly itself to the concatenation, and leaves every new group non-empty |
| Partition.PartitionedAppends | src/_vector.hxx:120-127 | scanning onto any `a` keeps `a`'s groups (its last may grow), appends exactly `x` to the concatenation, and opens only non-empty groups |
| Partition.OpenKeepsPartition | src/_vector.hxx:124 | opening a group for an element refused by `fn` (or when there is no group) keeps a partition |
| Partition.ExtendKeepsPartition | src/_vector.hxx:125 | appending an element `fn` accepts to the last group keeps a partition |
| Partition.PartitionedIsPartition | src/_vector.hxx:120-127 | from empty `a`: the groups concatenate to `x`, are non-empty, each element after a group's first was accepted by `fn` given the group before it, and each group's first was refused given the whole previous group |
| Partition.PartitionIsPartitioned | src/_vector.hxx:120-127 | conversely, any grouping with those properties is the scan's output, so they pin it down |
| Partition.PartitionValues | src/_vector.hxx:120-127 | the loop computes the scan; it extends `a`, appends exactly `x` and opens only non-empty groups |
| Partition.PartitionValuesVector | src/_vector.hxx:128-134 | the result is a partition of `x` under `fn` in the above sense |
| Partition.SameValuesFlatten | src/_vector.hxx:120-134 | the groups `[[1, 1], [2, 2, 2], [3]]` concatenate to `[1, 1, 2, 2, 2, 3]` |
| Partition.PartitionSameValues | src/_vector.hxx:120-134 | grouping equal neighbours of `[1, 1, 2, 2, 2, 3]` gives `[[1, 1], [2, 2, 2], [3]]` |
| Join.FlattenSingle | src/_vector.hxx:145-146 | a group pushed on its own is a one-constituent run |
| Join.JoinStepIsPlanStep | src/_vector.hxx:144-147 | one `joinIf` step is one partition step over runs of input groups, flattened |
| Join.JoinedIsFlattenedPlan | src/_vector.hxx:142-149 | `joinIf` equals partitioning the input groups (with `fn` applied to the concatenated run) and concatenating each part |
| Join.ExtendLast | src/_vector.hxx:146 | `copyAppend` into the last group keeps the groups of `a` |
| Join.JoinStepFlatten | src/_vector.hxx:144-147 | one step adds exactly the candidate's elements to the concatenation |
| Join.JoinStepAppends | src/_vector.hxx:144-147 | one step keeps `a`'s groups, adds at most one group and adds exactly the candidate's elements |
| Join.JoinedAppends | src/_vector.hxx:142-149 | the output is `old a` (its last group possibly extended) followed by new groups, no more than there are inputs, and the concatenation gains exactly `Flatten(xs)` |
| Join.JoinIfRuns | src/_vector.hxx:150-157 | from empty `a`, the output groups are the concatenations of the runs of a partition of the input groups: non-empty runs of consecutive inputs, fused exactly when `fn` accepts |
| Join.RefusedIsFull | src/_vector.hxx:162 | a run the size predicate refused to fuse into already held at least `S` elements |
| Join.AcceptedIsBelow | src/_vector.hxx:162 | within a run the size predicate built, the constituents before the last total fewer than `S` elements |
| Join.UntilSizeSoftCap | src/_vector.hxx:160-164 | with the size predicate, every output group but the last has at least `S` elements, each run's groups before its last total below `S`, so a group exceeds `S` by less than its last input group |
| Join.UntilSizeZero | src/_vector.hxx:160-164 | with `S == 0` nothing is fused: every input group is appended as its own group |
| Join.JoinIf | src/_vector.hxx:142-149 | the loop computes the join; it extends `a` and the concatenation gains exactly `Flatten(xs)` |
| Join.JoinIfVector | src/_vector.hxx:150-157 | the result is the regrouping of a partition of the input groups, and concatenates to the input |
| Join.JoinUntilSize | src/_vector.hxx:160-164 | `joinIf` under the size predicate, with the same accounting |
| Join.JoinUntilSizeVector | src/_vector.hxx:165-172 | the soft cap (all groups but the last reach `S`; overshoot below one input group), the partition, element conservation, and identity for `S == 0` |
| Join.JoinValues | src/_vector.hxx:175-179 | `a` followed by the concatenation of all groups |
| Join.JoinValuesVector | src/_vector.hxx:180-187 | the concatenation of all groups (whose length is what `size2d` counts) |
| Join.JoinAt | src/_vector.hxx:195-199 | `a` followed by `xs[i]` for each `i` of the indices, in order |
| Join.JoinAtVector | src/_vector.hxx:200-204 | the concatenation of the selected groups |
| Join.JoinAtIf | src/_vector.hxx:207-214 | `joinIf` over the selected groups; it extends `a` and gains exactly their elements |
| Join.JoinAtIfVector | src/_vector.hxx:215-219 | the selected groups regrouped along a partition of them, conserving their elements |
| Join.JoinAtUntilSize | src/_vector.hxx:222-226 | `joinAtIf` under the size predicate |
| Join.JoinAtUntilSizeVector | src/_vector.hxx:227-231 | over the selected groups: the result is the regrouping of a partition of them under the size predicate, every group but the last reaches `S`, a group exceeds `S` by less than its last constituent, elements are conserved, and for `S == 0` the selected groups come back unchanged |
| Join.JoinAt2d | src/_vector.hxx:234-238 | exactly `|ig|` groups are appended after the untouched `a`, the `k`-th being `joinAt(xs, ig[k])` |
| Join.JoinAt2dVector | src/_vector.hxx:239-243 | one group per index group, each the concatenation of the groups it selects |
| Join.JoinAtExample | src/_vector.hxx:195-204 | selecting `[2, 0, 2]` repeats group 2 and skips group 1 |
| Join.JoinedPrefix | src/_vector.hxx:143-148 | offering one more candidate is one more step of the loop |
| Join.UntilSizeExampleFirst | src/_vector.hxx:160-164 | packing `[[1, 2], [3]]` with `S = 3` fuses them into `[[1, 2, 3]]` |
| Join.UntilSizeExample | src/_vector.hxx:160-164 | packing `[[1, 2], [3], [4, 5], [6]]` with `S = 3` gives `[[1, 2, 3], [4, 5, 6]]` |
| Duplicate.Destination.constructor | src/duplicate.hxx:29 | a default-constructed graph has received no call |
| Duplicate.Destination.AddVertex | src/duplicate.hxx:11 | records one `addVertex(u, d)` call |
| Duplicate.Destination.AddEdge | src/duplicate.hxx:14 | records one `addEdge(u, v, w)` call |
| Duplicate.Destination.Correct | src/duplicate.hxx:17 | records one `correct(unq)` call |
| Duplicate.VertexGating | src/duplicate.hxx:11 | the vertex pass issues only `addVertex`, and issues `addVertex(u, d)` exactly for the source vertices `(u, d)` with `fv(u)` |
| Duplicate.EdgesOfGating | src/duplicate.hxx:13-15 | for a kept vertex `u`, only `addEdge(u, ...)` calls are issued, exactly for its edges `(v, w)` with `fv(v) && fe(u, v)` |
| Duplicate.EdgeGating | src/duplicate.hxx:12-16 | the edge pass issues only `addEdge`, and issues `addEdge(u, v, w)` exactly when `u` is a source vertex, `(v, w)` is one of its edges, and `fv(u) && fv(v) && fe(u, v)` |
| Duplicate.EdgeInPass | src/duplicate.hxx:12-16 | an added edge comes from a kept source vertex and one of its edges to a kept vertex |
| Duplicate.CallOrder | src/duplicate.hxx:11-17 | every `addVertex` precedes every `addEdge`, and `correct(unq)` is called exactly once, last |
| Duplicate.EndpointsAdded | src/duplicate.hxx:11-16 | when every edge of the source leads to a source vertex, both endpoints of every added edge were added as vertices earlier |
| Duplicate.FullCopy | src/duplicate.hxx:19-26 | with both predicates defaulted, exactly the source's vertices and edges are added |
| Duplicate.CopyEdges | src/duplicate.hxx:13-15 | the per-vertex edge traversal issues exactly that vertex's gated edge calls |
| Duplicate.DuplicateTo | src/duplicate.hxx:9-18 | appends to the destination's calls exactly the vertex pass, the edge pass and `correct(unq)`, with `unq` defaulting to false |
| Duplicate.DuplicateToVertices | src/duplicate.hxx:19-22 | as above with `fe` always true |
| Duplicate.DuplicateToAll | src/duplicate.hxx:23-26 | as above with `fv` and `fe` always true |
| Duplicate.DuplicateFiltered | src/duplicate.hxx:27-31 | a fresh destination receives the filtered copy with `unq` true |
| Duplicate.DuplicateVertices | src/duplicate.hxx:32-36 | a fresh destination receives the vertex-filtered copy with `unq` true |
| Duplicate.DuplicateAll | src/duplicate.hxx:37-41 | a fresh destination receives the full copy with `unq` true |
| Duplicate.TriangleWithoutTwo | src/duplicate.hxx:11-16 | copying the triangle 1-2-3 without vertex 2 adds vertices 1 and 3 and only the edge 1 -> 3 |

## Left out

- Nested.Size2d, Nested.Size3d: sizes are unbounded naturals; the 64-bit `size_t` wrap-around of the accumulator is not modelled.
- `copyAppend` is not part of this model. It is taken to append the candidate group to the target, which is how its callers use it.
- Reading `a.back()` before testing `a.empty()` is undefined behaviour on an empty vector. The reference is only used when `a` is non-empty, so the model reads the last group only when one exists.
- Reorder.ReorderDirty: requires that the data and index buffers are distinct arrays. The source does not exclude passing one vector as both when its element type and index type coincide; that is a caller error, and the model does not cover it.
- Reorder.ReorderDirty: indices are `nat`. The source's index type `K` is any integer type, and its width is not modelled.
- GatherScatter.GatherValues, GatherScatter.ScatterValues: the source `x` is a value, so aliasing between `x` and the destination is not modelled. The conversion from `T` to the destination type `TA` is taken to be the identity, so both have the same element type.
- GatherScatter.GatherValues, GatherScatter.ScatterValues: the raw-pointer overloads (src/_vector.hxx:251-256, 268-273) are modelled through the vector overloads. Their bounds become the preconditions.
- Duplicate: the graph container (`addVertex`, `addEdge`, `correct`, `forEachVertex`, `forEachEdge`) is not part of this model. The destination records the calls it receives, and what `correct` does with them (deduplication, sorting) is left uninterpreted.
- Duplicate: the source graph is an immutable value, so the promise that the source is left untouched holds by construction and is not stated as a separate property.
- Duplicate.EndpointsAdded: requires that every edge of the source leads to a source vertex. The container guarantees this, and it is not part of this model.
- Duplicate: `duplicate` returns a graph of the source's own type. The model returns a fresh recording destination instead.
- The arithmetic reductions and element-wise operations (`sumValues`, `addValue*`, norms and similar) work on floating-point rank vectors and are not modelled.
- The thin `std::vector` / `std::fill` wrappers (`eraseIndex`, `insertValueAt`, `fillValue`, `copyValues`, `fillValueAt`) are not modelled.
- `_openmp.hxx` is not part of this model.
- The C++ template plumbing of the `*Vector` helpers (`iterator_traits`, type deduction) is not modelled.
