/** The subgraph duplication protocol (`duplicateTo`, `duplicate`): a vertex
    pass and then an edge pass over a source graph, each gated by a
    caller-supplied predicate, followed by one call of the destination's
    normalisation `correct`. */
module Duplicate {

  /** The source graph as its traversals present it: `vertices` in the order
      `forEachVertex` offers them, with their data, and `edges(u)` the
      (neighbour, weight) pairs `forEachEdge(u, ...)` offers, in order. */
  datatype Graph<!K, D, W> = Graph(vertices: seq<(K, D)>, edges: K -> seq<(K, W)>)

  /** One call on the destination. */
  datatype Call<K, D, W> = AddVertex(u: K, d: D) | AddEdge(u: K, v: K, w: W) | Correct(unq: bool)

  /** The destination graph, seen through the three operations the protocol
      uses on it.  Its storage and what `correct` does are not part of this
      model: the destination records the calls it receives, in order. */
  class Destination<K, D, W> {
    var calls: seq<Call<K, D, W>>

    /** A default-constructed destination has received no call. */
    constructor ()
      ensures calls == []
    {
      calls := [];
    }

    method AddVertex(u: K, d: D)
      modifies this
      ensures calls == old(calls) + [Call.AddVertex(u, d)]
    {
      calls := calls + [Call.AddVertex(u, d)];
    }

    method AddEdge(u: K, v: K, w: W)
      modifies this
      ensures calls == old(calls) + [Call.AddEdge(u, v, w)]
    {
      calls := calls + [Call.AddEdge(u, v, w)];
    }

    method Correct(unq: bool)
      modifies this
      ensures calls == old(calls) + [Call.Correct(unq)]
    {
      calls := calls + [Call.Correct(unq)];
    }
  }

  /** The ids of the vertices, in traversal order. */
  function Ids<K, D>(vs: seq<(K, D)>): (r: seq<K>)
    ensures |r| == |vs| && forall k :: 0 <= k < |vs| ==> r[k] == vs[k].0
  {
    seq(|vs|, k requires 0 <= k < |vs| => vs[k].0)
  }

  /** The vertex pass over `vs`: one `addVertex(u, d)` per vertex that
      passes `fv`. */
  function VertexPass<K, D, W>(vs: seq<(K, D)>, fv: K -> bool): seq<Call<K, D, W>>
  {
    if |vs| == 0 then []
    else
      var n := |vs| - 1;
      VertexPass(vs[..n], fv) + if fv(vs[n].0) then [Call.AddVertex(vs[n].0, vs[n].1)] else []
  }

  /** The edges of `u` (given as `es`) that are copied: one
      `addEdge(u, v, w)` per edge whose target passes `fv` and which passes
      `fe`. */
  function EdgesOf<K, D, W>(u: K, es: seq<(K, W)>, fv: K -> bool, fe: (K, K) -> bool): seq<Call<K, D, W>>
  {
    if |es| == 0 then []
    else
      var n := |es| - 1;
      EdgesOf(u, es[..n], fv, fe) + if fv(es[n].0) && fe(u, es[n].0) then [Call.AddEdge(u, es[n].0, es[n].1)] else []
  }

  /** The edge pass: the vertices are traversed again, and the edges of
      those passing `fv` are offered to the edge gate. */
  function EdgePass<K, D, W>(vs: seq<(K, D)>, edges: K -> seq<(K, W)>, fv: K -> bool, fe: (K, K) -> bool)
    : seq<Call<K, D, W>>
  {
    if |vs| == 0 then []
    else
      var u := vs[|vs| - 1].0;
      EdgePass(vs[..|vs| - 1], edges, fv, fe) + if fv(u) then EdgesOf(u, edges(u), fv, fe) else []
  }

  /** Every call `duplicateTo(a, x, fv, fe, unq)` makes on `a`, in order. */
  function Duplicated<K, D, W>(x: Graph<K, D, W>, fv: K -> bool, fe: (K, K) -> bool, unq: bool)
    : seq<Call<K, D, W>>
  {
    VertexPass(x.vertices, fv) + EdgePass(x.vertices, x.edges, fv, fe) + [Call.Correct(unq)]
  }

  /** The default vertex predicate: every vertex. */
  function AnyVertex<K>(u: K): bool { true }

  /** The default edge predicate: every edge. */
  function AnyEdge<K>(u: K, v: K): bool { true }

  /** Vertex gating: `addVertex(u, d)` is issued exactly for the vertices
      `(u, d)` of the source that pass `fv`, and the vertex pass issues
      nothing else. */
  lemma {:induction false} VertexGating<K, D, W>(vs: seq<(K, D)>, fv: K -> bool)
    ensures forall c :: c in VertexPass<K, D, W>(vs, fv) ==> c.AddVertex?
    ensures forall u, d :: Call.AddVertex(u, d) in VertexPass<K, D, W>(vs, fv) <==> (u, d) in vs && fv(u)
  {
    if |vs| > 0 {
      var n := |vs| - 1;
      VertexGating<K, D, W>(vs[..n], fv);
      var last: seq<Call<K, D, W>> := if fv(vs[n].0) then [Call.AddVertex(vs[n].0, vs[n].1)] else [];
      assert VertexPass(vs, fv) == VertexPass(vs[..n], fv) + last;
      forall u, d ensures Call.AddVertex(u, d) in VertexPass<K, D, W>(vs, fv) <==> (u, d) in vs && fv(u) {
        assert vs == vs[..n] + [vs[n]];
        assert (u, d) in vs <==> (u, d) in vs[..n] || (u, d) == vs[n];
      }
    }
  }

  /** Edge gating for one vertex: `addEdge(u, v, w)` is issued exactly for
      the edges `(v, w)` of `u` whose target passes `fv` and which pass
      `fe`, and nothing else is issued. */
  lemma {:induction false} EdgesOfGating<K, D, W>(u: K, es: seq<(K, W)>, fv: K -> bool, fe: (K, K) -> bool)
    ensures forall c :: c in EdgesOf<K, D, W>(u, es, fv, fe) ==> c.AddEdge? && c.u == u
    ensures forall v, w :: Call.AddEdge(u, v, w) in EdgesOf<K, D, W>(u, es, fv, fe) <==>
      (v, w) in es && fv(v) && fe(u, v)
  {
    if |es| > 0 {
      var n := |es| - 1;
      EdgesOfGating<K, D, W>(u, es[..n], fv, fe);
      var last: seq<Call<K, D, W>> :=
        if fv(es[n].0) && fe(u, es[n].0) then [Call.AddEdge(u, es[n].0, es[n].1)] else [];
      assert EdgesOf(u, es, fv, fe) == EdgesOf(u, es[..n], fv, fe) + last;
      forall v, w ensures Call.AddEdge(u, v, w) in EdgesOf<K, D, W>(u, es, fv, fe) <==> (v, w) in es && fv(v) && fe(u, v) {
        assert es == es[..n] + [es[n]];
        assert (v, w) in es <==> (v, w) in es[..n] || (v, w) == es[n];
      }
    }
  }

  /** Edge gating: `addEdge(u, v, w)` is issued exactly for the edges
      `(u, v, w)` of the source with `fv(u)`, `fv(v)` and `fe(u, v)`, and the
      edge pass issues nothing else. */
  lemma {:induction false} EdgeGating<K, D, W>(vs: seq<(K, D)>, edges: K -> seq<(K, W)>, fv: K -> bool, fe: (K, K) -> bool)
    ensures forall c :: c in EdgePass(vs, edges, fv, fe) ==> c.AddEdge?
    ensures forall u, v, w :: Call.AddEdge(u, v, w) in EdgePass<K, D, W>(vs, edges, fv, fe) <==>
      u in Ids(vs) && fv(u) && (v, w) in edges(u) && fv(v) && fe(u, v)
  {
    if |vs| > 0 {
      var n := |vs| - 1;
      var u := vs[n].0;
      EdgeGating(vs[..n], edges, fv, fe);
      EdgesOfGating<K, D, W>(u, edges(u), fv, fe);
      assert Ids(vs) == Ids(vs[..n]) + [u];
    }
  }

  /** An edge call of the edge pass comes from a kept vertex of the source
      and one of its edges to a kept vertex. */
  lemma EdgeInPass<K, D, W>(vs: seq<(K, D)>, edges: K -> seq<(K, W)>, fv: K -> bool, fe: (K, K) -> bool,
                            u: K, v: K, w: W)
    requires Call.AddEdge(u, v, w) in EdgePass<K, D, W>(vs, edges, fv, fe)
    ensures u in Ids(vs) && fv(u) && (v, w) in edges(u) && fv(v) && fe(u, v)
  {
    EdgeGating<K, D, W>(vs, edges, fv, fe);
  }

  /** Call order: every `addVertex` comes before every `addEdge`, and
      `correct(unq)` is called exactly once, last. */
  lemma CallOrder<K, D, W>(x: Graph<K, D, W>, fv: K -> bool, fe: (K, K) -> bool, unq: bool)
    ensures var c := Duplicated(x, fv, fe, unq);
      c[|c| - 1] == Call.Correct(unq) &&
      (forall i :: 0 <= i < |c| - 1 ==> !c[i].Correct?) &&
      (forall i, j :: 0 <= i < j < |c| && c[i].AddEdge? ==> c[j].AddEdge? || c[j].Correct?)
  {
    var vp := VertexPass<K, D, W>(x.vertices, fv);
    var ep := EdgePass(x.vertices, x.edges, fv, fe);
    VertexGating<K, D, W>(x.vertices, fv);
    EdgeGating<K, D, W>(x.vertices, x.edges, fv, fe);
    var c := Duplicated(x, fv, fe, unq);
    forall i | 0 <= i < |c| - 1 ensures if i < |vp| then c[i].AddVertex? else c[i].AddEdge? {
      if i < |vp| {
        assert c[i] == vp[i] && vp[i] in vp;
      } else {
        assert c[i] == ep[i - |vp|] && ep[i - |vp|] in ep;
      }
    }
  }

  /** The vertex ids `addVertex` has been called with in `calls`. */
  ghost function Added<K, D, W>(calls: seq<Call<K, D, W>>): set<K>
  {
    set c | c in calls && c.AddVertex? :: c.u
  }

  /** Every edge of the source leads to a vertex of the source. */
  ghost predicate Closed<K, D, W>(x: Graph<K, D, W>)
  {
    forall k, j :: 0 <= k < |x.vertices| && 0 <= j < |x.edges(x.vertices[k].0)| ==>
      x.edges(x.vertices[k].0)[j].0 in Ids(x.vertices)
  }

  /** Into an empty destination, both endpoints of every edge added have
      been added as vertices before it: no edge dangles. */
  lemma EndpointsAdded<K, D, W>(x: Graph<K, D, W>, fv: K -> bool, fe: (K, K) -> bool, unq: bool)
    requires Closed(x)
    ensures var c := Duplicated(x, fv, fe, unq);
      forall i :: 0 <= i < |c| && c[i].AddEdge? ==> c[i].u in Added(c[..i]) && c[i].v in Added(c[..i])
  {
    var vs := x.vertices;
    var vp := VertexPass<K, D, W>(vs, fv);
    var c := Duplicated(x, fv, fe, unq);
    VertexGating<K, D, W>(vs, fv);
    EdgeGating<K, D, W>(vs, x.edges, fv, fe);
    CallOrder(x, fv, fe, unq);
    forall i | 0 <= i < |c| && c[i].AddEdge?
      ensures c[i].u in Added(c[..i]) && c[i].v in Added(c[..i])
    {
      assert i >= |vp|;
      assert c[i] in EdgePass(vs, x.edges, fv, fe) by {
        assert c[i] == EdgePass(vs, x.edges, fv, fe)[i - |vp|];
      }
      assert c[..i][..|vp|] == vp;
      var u, v, w := c[i].u, c[i].v, c[i].w;
      assert c[i] == Call.AddEdge(u, v, w);
      EdgeInPass(vs, x.edges, fv, fe, u, v, w);
      assert u in Ids(vs) && fv(u) && (v, w) in x.edges(u) && fv(v);
      var k :| 0 <= k < |vs| && Ids(vs)[k] == u;
      var j :| 0 <= j < |x.edges(u)| && x.edges(u)[j] == (v, w);
      assert x.edges(vs[k].0)[j].0 == v;
      var ku :| 0 <= ku < |vs| && vs[ku].0 == u;
      var kv :| 0 <= kv < |vs| && vs[kv].0 == v;
      assert Call.AddVertex(u, vs[ku].1) in vp;
      assert Call.AddVertex(v, vs[kv].1) in vp;
    }
  }

  /** With both predicates defaulted every vertex and every edge is copied. */
  lemma FullCopy<K, D, W>(x: Graph<K, D, W>, unq: bool)
    ensures var c := Duplicated(x, AnyVertex, AnyEdge, unq);
      (forall u, d :: Call.AddVertex(u, d) in c <==> (u, d) in x.vertices) &&
      (forall u, v, w :: Call.AddEdge(u, v, w) in c <==> u in Ids(x.vertices) && (v, w) in x.edges(u))
  {
    VertexGating<K, D, W>(x.vertices, AnyVertex);
    EdgeGating<K, D, W>(x.vertices, x.edges, AnyVertex, AnyEdge);
  }

  /** The `forEachEdge` visit of one kept vertex `u` during the edge pass. */
  method CopyEdges<K, D, W>(a: Destination<K, D, W>, u: K, es: seq<(K, W)>, fv: K -> bool, fe: (K, K) -> bool)
    modifies a
    ensures a.calls == old(a.calls) + EdgesOf(u, es, fv, fe)
  {
    for k := 0 to |es|
      invariant a.calls == old(a.calls) + EdgesOf(u, es[..k], fv, fe)
    {
      assert es[..k + 1][..k] == es[..k];
      var (v, w) := es[k];
      if fv(v) && fe(u, v) {
        a.AddEdge(u, v, w);
      }
    }
    assert es[..|es|] == es;
  }

  /** `duplicateTo(a, x, fv, fe, unq)`: issues on `a`, after whatever it
      had received, exactly the calls of `Duplicated`.  The source is a
      value and cannot change. */
  method DuplicateTo<K, D, W>(a: Destination<K, D, W>, x: Graph<K, D, W>, fv: K -> bool, fe: (K, K) -> bool,
                              unq: bool := false)
    modifies a
    ensures a.calls == old(a.calls) + Duplicated(x, fv, fe, unq)
  {
    var vs := x.vertices;
    ghost var c0 := a.calls;
    for i := 0 to |vs|
      invariant a.calls == c0 + VertexPass(vs[..i], fv)
    {
      assert vs[..i + 1][..i] == vs[..i];
      var (u, d) := vs[i];
      if fv(u) {
        a.AddVertex(u, d);
      }
    }
    assert vs[..|vs|] == vs;
    ghost var c1 := a.calls;
    for i := 0 to |vs|
      invariant a.calls == c1 + EdgePass(vs[..i], x.edges, fv, fe)
    {
      assert vs[..i + 1][..i] == vs[..i];
      var u := vs[i].0;
      if fv(u) {
        CopyEdges(a, u, x.edges(u), fv, fe);
      }
    }
    a.Correct(unq);
  }

  /** `duplicateTo(a, x, fv, unq)`: every edge between kept vertices. */
  method DuplicateToVertices<K, D, W>(a: Destination<K, D, W>, x: Graph<K, D, W>, fv: K -> bool,
                                      unq: bool := false)
    modifies a
    ensures a.calls == old(a.calls) + Duplicated(x, fv, AnyEdge, unq)
  {
    DuplicateTo(a, x, fv, AnyEdge, unq);
  }

  /** `duplicateTo(a, x, unq)`: the whole graph. */
  method DuplicateToAll<K, D, W>(a: Destination<K, D, W>, x: Graph<K, D, W>, unq: bool := false)
    modifies a
    ensures a.calls == old(a.calls) + Duplicated(x, AnyVertex, AnyEdge, unq)
  {
    DuplicateToVertices(a, x, AnyVertex, unq);
  }

  /** `duplicate(x, fv, fe)`: a fresh destination receiving the filtered copy,
      normalised with duplicates merged (`unq` is true). */
  method DuplicateFiltered<K, D, W>(x: Graph<K, D, W>, fv: K -> bool, fe: (K, K) -> bool)
    returns (a: Destination<K, D, W>)
    ensures fresh(a) && a.calls == Duplicated(x, fv, fe, true)
  {
    a := new Destination();
    DuplicateTo(a, x, fv, fe, true);
  }

  /** `duplicate(x, fv)`: a fresh destination with the kept vertices and
      every edge between them. */
  method DuplicateVertices<K, D, W>(x: Graph<K, D, W>, fv: K -> bool)
    returns (a: Destination<K, D, W>)
    ensures fresh(a) && a.calls == Duplicated(x, fv, AnyEdge, true)
  {
    a := new Destination();
    DuplicateToVertices(a, x, fv, true);
  }

  /** `duplicate(x)`: a fresh destination with a full copy. */
  method DuplicateAll<K, D, W>(x: Graph<K, D, W>) returns (a: Destination<K, D, W>)
    ensures fresh(a) && a.calls == Duplicated(x, AnyVertex, AnyEdge, true)
  {
    a := new Destination();
    DuplicateToAll(a, x, true);
  }

  /** The triangle 1 -> 2, 2 -> 3, 1 -> 3 without vertex 2: the vertex and
      the two edges touching it are dropped. */
  function Triangle(): Graph<int, (), ()>
  {
    Graph([(1, ()), (2, ()), (3, ())],
          u => if u == 1 then [(2, ()), (3, ())] else if u == 2 then [(3, ())] else [])
  }

  function NotTwo(u: int): bool { u != 2 }

  lemma TriangleWithoutTwo()
    ensures Duplicated(Triangle(), NotTwo, AnyEdge, true) ==
      [Call.AddVertex(1, ()), Call.AddVertex(3, ()), Call.AddEdge(1, 3, ()), Call.Correct(true)]
  {
    var g := Triangle();
    var vs := g.vertices;
    assert vs[..1][..0] == [] && vs[..2][..1] == vs[..1] && vs[..3][..2] == vs[..2] && vs[..3] == vs;
    var av1, av3 := Call.AddVertex(1, ()), Call.AddVertex(3, ());
    assert VertexPass<int, (), ()>(vs[..1], NotTwo) == [] + [av1];
    assert VertexPass<int, (), ()>(vs[..2], NotTwo) == [av1] + [];
    assert VertexPass<int, (), ()>(vs, NotTwo) == [av1] + [av3];
    var e1 := g.edges(1);
    var ae := Call.AddEdge(1, 3, ());
    assert e1[..1][..0] == [] && e1[..2][..1] == e1[..1] && e1[..2] == e1;
    assert EdgesOf<int, (), ()>(1, e1[..1], NotTwo, AnyEdge) == [] + [];
    assert EdgesOf<int, (), ()>(1, e1, NotTwo, AnyEdge) == [] + [ae];
    assert g.edges(3) == [];
    assert EdgePass<int, (), ()>(vs[..1], g.edges, NotTwo, AnyEdge) == [] + [ae];
    assert EdgePass<int, (), ()>(vs[..2], g.edges, NotTwo, AnyEdge) == [ae] + [];
    assert EdgePass<int, (), ()>(vs, g.edges, NotTwo, AnyEdge) == [ae] + [];
  }
}
