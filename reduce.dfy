/** Twin-vertex reduction (thinness/reduce.py): delete a vertex that has a twin, first among
    adjacent twins (same closed neighbourhood), then among pairwise non-adjacent ones (same
    open neighbourhood), and relabel what is left to 0..k-1. Sage's common-neighbour matrix
    is the function `common`; both passes use the matrix of the ORIGINAL graph. */
module Reduce {
  import opened Graphs

  /** `common_neighbors_matrix(nonedgesonly=False)[u, v]`: how many neighbours `u` and `v`
      share. */
  function CommonNeighbors(g: Graph, u: nat, v: nat): nat {
    |g.Neighbors(u) * g.Neighbors(v)|
  }

  /** The matrix both passes read, as a function of the pair. It is symmetric. */
  function CommonMatrix(g: Graph): (m: (nat, nat) -> int)
    ensures Symmetric(m)
  {
    assert forall u, v :: g.Neighbors(u) * g.Neighbors(v) == g.Neighbors(v) * g.Neighbors(u);
    (u: nat, v: nat) => CommonNeighbors(g, u, v)
  }

  /** A common-neighbour matrix: the entry for (u, v) is the entry for (v, u). */
  ghost predicate Symmetric(common: (nat, nat) -> int) {
    forall u, v :: common(u, v) == common(v, u)
  }

  /** Sage's `edge_iterator(labels=False)`: every edge of `g` exactly once, in one of its two
      orientations. */
  ghost predicate ListsEdgesOnce(g: Graph, edgeList: seq<(nat, nat)>) {
    (forall i | 0 <= i < |edgeList| :: g.HasEdge(edgeList[i].0, edgeList[i].1)) &&
    (forall e | e in g.edges :: exists i | 0 <= i < |edgeList| :: edgeList[i] == e || edgeList[i] == (e.1, e.0)) &&
    (forall i, j | 0 <= i < j < |edgeList| :: edgeList[i] != edgeList[j] && edgeList[i] != (edgeList[j].1, edgeList[j].0))
  }

  /** The test of the first pass for an edge u–v: `degree(u) == degree(v) == common + 1`. */
  predicate ClosedTwins(g: Graph, common: (nat, nat) -> int, u: nat, v: nat) {
    g.Degree(u) == g.Degree(v) && g.Degree(v) == common(u, v) + 1
  }

  /** The pairs of the second pass: non-adjacent, and `degree(u) == degree(v) == common`. */
  predicate OpenTwins(g: Graph, common: (nat, nat) -> int, u: nat, v: nat) {
    !g.HasEdge(u, v) && g.Degree(u) == g.Degree(v) && g.Degree(v) == common(u, v)
  }

  /** The vertices the second pass deletes for the pair (u, v): a third vertex adjacent to
      neither, with `degree(w) == degree(u) == common[u, w]`. */
  predicate OpenThird(g: Graph, common: (nat, nat) -> int, u: nat, v: nat, w: nat) {
    u != w && v != w && !g.HasEdge(u, w) && !g.HasEdge(v, w) &&
    g.Degree(w) == g.Degree(u) && g.Degree(u) == common(u, w)
  }

  // ---------------------------------------------------------------------------------------
  // The closed-neighbourhood pass
  // ---------------------------------------------------------------------------------------

  /** `_remove_same_closed_neighborhood_vertices`: for each edge (u, v) in Sage's edge
      order, delete `u` when both ends are still there and they are closed twins. The result
      is what is left of `g` after deletions; every deleted vertex had an adjacent twin; no
      listed twin edge keeps both its ends; so no edge of `g` joins two kept closed twins. */
  method RemoveSameClosedNeighborhoodVertices(g: Graph, common: (nat, nat) -> int, edgeList: seq<(nat, nat)>)
    returns (r: Graph)
    requires g.Valid() && Symmetric(common) && ListsEdgesOnce(g, edgeList)
    ensures InducedIn(g, r)
    ensures forall u | u in g.vertices && u !in r.vertices :: exists v :: g.HasEdge(u, v) && ClosedTwins(g, common, u, v)
    ensures forall i | 0 <= i < |edgeList| && ClosedTwins(g, common, edgeList[i].0, edgeList[i].1) ::
      edgeList[i].0 !in r.vertices || edgeList[i].1 !in r.vertices
    ensures forall u, v | u in r.vertices && v in r.vertices && g.HasEdge(u, v) :: !ClosedTwins(g, common, u, v)
  {
    var reduced := new MutableGraph(g);
    InducedAll(g);
    for i := 0 to |edgeList|
      invariant InducedIn(g, reduced.Value())
      invariant ClosedProgress(g, common, edgeList, i, reduced.vertices)
    {
      var (u, v) := edgeList[i];
      ghost var before := reduced.vertices;
      if u in reduced.vertices && v in reduced.vertices && ClosedTwins(g, common, u, v) {
        InducedDelete(g, reduced.Value(), u);
        reduced.DeleteVertex(u);
      }
      ClosedStep(g, common, edgeList, i, before, reduced.vertices);
    }
    r := reduced.Value();
    NoKeptTwinEdge(g, common, edgeList, r.vertices);
  }

  /** The closed pass after `i` listed edges: every deleted vertex has an adjacent closed
      twin, and every twin edge among the first `i` has lost an end. */
  ghost predicate ClosedProgress(g: Graph, common: (nat, nat) -> int, edgeList: seq<(nat, nat)>, i: nat, kept: set<nat>)
    requires i <= |edgeList|
  {
    (forall u | u in g.vertices && u !in kept :: exists v :: g.HasEdge(u, v) && ClosedTwins(g, common, u, v))
    && (forall k | 0 <= k < i && ClosedTwins(g, common, edgeList[k].0, edgeList[k].1) ::
          edgeList[k].0 !in kept || edgeList[k].1 !in kept)
  }

  /** One pass of the closed loop keeps its progress: the listed edge (u, v) either
      deletes `u`, a twin of `v`, or is left with an end already gone. */
  lemma ClosedStep(g: Graph, common: (nat, nat) -> int, edgeList: seq<(nat, nat)>, i: nat, before: set<nat>, after: set<nat>)
    requires g.Valid() && ListsEdgesOnce(g, edgeList) && i < |edgeList|
    requires ClosedProgress(g, common, edgeList, i, before)
    requires var (u, v) := edgeList[i];
      after == if u in before && v in before && ClosedTwins(g, common, u, v) then before - {u} else before
    ensures ClosedProgress(g, common, edgeList, i + 1, after)
  {
    var (u, v) := edgeList[i];
    assert g.HasEdge(u, v);
  }

  /** When every listed twin edge has lost an end, no edge of `g` joins two kept closed
      twins: each edge is listed in one orientation, and closed twinship is symmetric. */
  lemma NoKeptTwinEdge(g: Graph, common: (nat, nat) -> int, edgeList: seq<(nat, nat)>, kept: set<nat>)
    requires g.Valid() && Symmetric(common) && ListsEdgesOnce(g, edgeList)
    requires forall i | 0 <= i < |edgeList| && ClosedTwins(g, common, edgeList[i].0, edgeList[i].1) ::
      edgeList[i].0 !in kept || edgeList[i].1 !in kept
    ensures forall u, v | u in kept && v in kept && g.HasEdge(u, v) :: !ClosedTwins(g, common, u, v)
  {
    forall u, v | u in kept && v in kept && g.HasEdge(u, v)
      ensures !ClosedTwins(g, common, u, v)
    {
      var e := if (u, v) in g.edges then (u, v) else (v, u);
      var i :| 0 <= i < |edgeList| && (edgeList[i] == e || edgeList[i] == (e.1, e.0));
      assert ClosedTwins(g, common, u, v) ==> ClosedTwins(g, common, edgeList[i].0, edgeList[i].1);
    }
  }

  // ---------------------------------------------------------------------------------------
  // The open-neighbourhood pass
  // ---------------------------------------------------------------------------------------

  /** Once the pair (u, v) has been handled: if both are still there, no third vertex that
      twins with them is. */
  ghost predicate Settled(g: Graph, common: (nat, nat) -> int, u: nat, v: nat, kept: set<nat>) {
    u in kept && v in kept && OpenTwins(g, common, u, v) ==>
      forall w | w in kept :: !OpenThird(g, common, u, v, w)
  }

  /** Every vertex deleted so far is a third twin of some pair of open twins. */
  ghost predicate DeletionsJustified(g: Graph, common: (nat, nat) -> int, kept: set<nat>) {
    forall w | w in g.vertices && w !in kept ::
      exists u, v | u in g.vertices && v in g.vertices :: OpenTwins(g, common, u, v) && OpenThird(g, common, u, v, w)
  }

  /** Deleting more vertices keeps a settled pair settled. */
  lemma SettledShrinks(g: Graph, common: (nat, nat) -> int, u: nat, v: nat, kept: set<nat>, fewer: set<nat>)
    requires fewer <= kept && Settled(g, common, u, v, kept)
    ensures Settled(g, common, u, v, fewer)
  {
  }

  /** The innermost loop: for the twin pair (u, v), delete every present third twin, in
      vertex order. Exactly those go, and u and v stay. */
  method DeleteThirds(g: Graph, common: (nat, nat) -> int, vertexList: seq<nat>, u: nat, v: nat, reduced: MutableGraph)
    requires g.Valid() && InducedIn(g, reduced.Value())
    requires forall w :: w in vertexList <==> w in g.vertices
    modifies reduced
    ensures InducedIn(g, reduced.Value())
    ensures forall w :: w in reduced.vertices <==>
      w in old(reduced.vertices) && !(w in g.vertices && OpenThird(g, common, u, v, w))
  {
    for k := 0 to |vertexList|
      invariant InducedIn(g, reduced.Value())
      invariant forall w :: w in reduced.vertices <==>
        w in old(reduced.vertices) && !(w in vertexList[..k] && OpenThird(g, common, u, v, w))
    {
      var w := vertexList[k];
      assert vertexList[..k + 1] == vertexList[..k] + [w];
      if u != w && v != w && w in reduced.vertices && !g.HasEdge(u, w) && !g.HasEdge(v, w) &&
         g.Degree(w) == g.Degree(u) && g.Degree(u) == common(u, w) {
        InducedDelete(g, reduced.Value(), w);
        reduced.DeleteVertex(w);
      }
    }
    assert vertexList[..|vertexList|] == vertexList;
  }

  /** One pair of the `pairs_with_same_open_neighborhoods` generator: when both are still
      there, delete their third twins. */
  method HandlePair(g: Graph, common: (nat, nat) -> int, vertexList: seq<nat>, u: nat, v: nat, reduced: MutableGraph)
    requires g.Valid() && InducedIn(g, reduced.Value())
    requires forall w :: w in vertexList <==> w in g.vertices
    requires u in g.vertices && v in g.vertices
    requires DeletionsJustified(g, common, reduced.vertices)
    modifies reduced
    ensures InducedIn(g, reduced.Value())
    ensures DeletionsJustified(g, common, reduced.vertices)
    ensures reduced.vertices <= old(reduced.vertices)
    ensures Settled(g, common, u, v, reduced.vertices)
  {
    if OpenTwins(g, common, u, v) && u in reduced.vertices && v in reduced.vertices {
      ghost var before := reduced.vertices;
      DeleteThirds(g, common, vertexList, u, v, reduced);
      forall w | w in g.vertices && w !in reduced.vertices
        ensures exists x, y | x in g.vertices && y in g.vertices :: OpenTwins(g, common, x, y) && OpenThird(g, common, x, y, w)
      {
        if w in before {
          assert OpenTwins(g, common, u, v) && OpenThird(g, common, u, v, w);
        }
      }
    }
  }

  /** Every pair (vertexList[a], vertexList[b]) with a < b, a < i is settled. */
  ghost predicate RowsSettled(g: Graph, common: (nat, nat) -> int, vertexList: seq<nat>, i: nat, kept: set<nat>) {
    forall a, b | 0 <= a < i && a < b < |vertexList| :: Settled(g, common, vertexList[a], vertexList[b], kept)
  }

  lemma RowsSettledShrink(g: Graph, common: (nat, nat) -> int, vertexList: seq<nat>, i: nat, kept: set<nat>, fewer: set<nat>)
    requires fewer <= kept && RowsSettled(g, common, vertexList, i, kept)
    ensures RowsSettled(g, common, vertexList, i, fewer)
  {
    forall a, b | 0 <= a < i && a < b < |vertexList|
      ensures Settled(g, common, vertexList[a], vertexList[b], fewer)
    {
      SettledShrinks(g, common, vertexList[a], vertexList[b], kept, fewer);
    }
  }

  /** The pairs (vertexList[i], vertexList[j]) for j > i, in order. */
  method HandleRow(g: Graph, common: (nat, nat) -> int, vertexList: seq<nat>, i: nat, reduced: MutableGraph)
    requires g.Valid() && InducedIn(g, reduced.Value())
    requires forall w :: w in vertexList <==> w in g.vertices
    requires i < |vertexList|
    requires DeletionsJustified(g, common, reduced.vertices)
    modifies reduced
    ensures InducedIn(g, reduced.Value())
    ensures DeletionsJustified(g, common, reduced.vertices)
    ensures reduced.vertices <= old(reduced.vertices)
    ensures forall b | i < b < |vertexList| :: Settled(g, common, vertexList[i], vertexList[b], reduced.vertices)
  {
    for j := i + 1 to |vertexList|
      invariant InducedIn(g, reduced.Value())
      invariant DeletionsJustified(g, common, reduced.vertices)
      invariant reduced.vertices <= old(reduced.vertices)
      invariant forall b | i < b < j :: Settled(g, common, vertexList[i], vertexList[b], reduced.vertices)
    {
      ghost var before := reduced.vertices;
      HandlePair(g, common, vertexList, vertexList[i], vertexList[j], reduced);
      forall b | i < b < j
        ensures Settled(g, common, vertexList[i], vertexList[b], reduced.vertices)
      {
        SettledShrinks(g, common, vertexList[i], vertexList[b], before, reduced.vertices);
      }
    }
  }

  /** With every pair of the increasing vertex list settled, no surviving pair u < v of open
      twins keeps a third twin. */
  lemma NoSurvivingTriple(g: Graph, common: (nat, nat) -> int, kept: set<nat>, u: nat, v: nat, w: nat)
    requires RowsSettled(g, common, SortedList(g.vertices), |g.vertices|, kept)
    requires u in g.vertices && v in g.vertices && u < v
    ensures Settled(g, common, u, v, kept)
  {
    var vertexList := SortedList(g.vertices);
    var a :| 0 <= a < |vertexList| && vertexList[a] == u;
    var b :| 0 <= b < |vertexList| && vertexList[b] == v;
    assert a < b;
  }

  /** `_remove_same_open_neighborhood_vertices`: for each pair u < v of open twins of `g`
      (in `combinations(vertices(), 2)` order) that are both still there, delete every third
      vertex twinning with them. The result is what is left of `g` after deletions; every
      deleted vertex is such a third twin; and no surviving pair of open twins keeps a third
      twin. */
  method RemoveSameOpenNeighborhoodVertices(g: Graph, common: (nat, nat) -> int) returns (r: Graph)
    requires g.Valid()
    ensures InducedIn(g, r)
    ensures DeletionsJustified(g, common, r.vertices)
    ensures forall u, v, w | u in r.vertices && v in r.vertices && u < v && OpenTwins(g, common, u, v) && w in r.vertices ::
      !OpenThird(g, common, u, v, w)
  {
    var vertexList := SortedList(g.vertices);
    var reduced := new MutableGraph(g);
    InducedAll(g);
    for i := 0 to |vertexList|
      invariant InducedIn(g, reduced.Value())
      invariant DeletionsJustified(g, common, reduced.vertices)
      invariant RowsSettled(g, common, vertexList, i, reduced.vertices)
    {
      ghost var before := reduced.vertices;
      HandleRow(g, common, vertexList, i, reduced);
      RowsSettledNext(g, common, vertexList, i, before, reduced.vertices);
    }
    r := reduced.Value();
    NoSurvivingTriples(g, common, r.vertices);
  }

  /** Settling row `i` after rows 0 .. i-1 settles rows 0 .. i, even though row `i` may
      have deleted vertices. */
  lemma RowsSettledNext(g: Graph, common: (nat, nat) -> int, vertexList: seq<nat>, i: nat, kept: set<nat>, fewer: set<nat>)
    requires i < |vertexList|
    requires fewer <= kept && RowsSettled(g, common, vertexList, i, kept)
    requires forall b | i < b < |vertexList| :: Settled(g, common, vertexList[i], vertexList[b], fewer)
    ensures RowsSettled(g, common, vertexList, i + 1, fewer)
  {
    RowsSettledShrink(g, common, vertexList, i, kept, fewer);
  }

  /** All rows settled: no surviving pair u < v of open twins keeps a third twin. */
  lemma NoSurvivingTriples(g: Graph, common: (nat, nat) -> int, kept: set<nat>)
    requires kept <= g.vertices
    requires RowsSettled(g, common, SortedList(g.vertices), |g.vertices|, kept)
    ensures forall u, v, w | u in kept && v in kept && u < v && OpenTwins(g, common, u, v) && w in kept ::
      !OpenThird(g, common, u, v, w)
  {
    forall u, v, w | u in kept && v in kept && u < v && OpenTwins(g, common, u, v) && w in kept
      ensures !OpenThird(g, common, u, v, w)
    {
      NoSurvivingTriple(g, common, kept, u, v, w);
    }
  }

  // ---------------------------------------------------------------------------------------
  // Relabelling and the whole reduction
  // ---------------------------------------------------------------------------------------

  /** Sage's `relabel()`: the i-th smallest vertex becomes `i`, and edges follow. */
  function Relabel(h: Graph): (r: Graph)
    ensures r.vertices == Range(|h.vertices|)
  {
    var s := SortedList(h.vertices);
    Graph(Range(|s|), set i: nat, j: nat | i < |s| && j < |s| && (s[i], s[j]) in h.edges :: (i, j))
  }

  /** Relabelling keeps adjacency: `i` and `j` are adjacent exactly when the i-th and j-th
      smallest vertices were. */
  lemma RelabelEdges(h: Graph, i: nat, j: nat)
    requires i < |h.vertices| && j < |h.vertices|
    ensures Relabel(h).HasEdge(i, j) <==> h.HasEdge(SortedList(h.vertices)[i], SortedList(h.vertices)[j])
  {
    var s := SortedList(h.vertices);
    var r := Relabel(h);
    if (s[i], s[j]) in h.edges {
      assert (i, j) in r.edges;
    }
    if (s[j], s[i]) in h.edges {
      assert (j, i) in r.edges;
    }
    if (i, j) in r.edges {
      var x: nat, y: nat :| x < |s| && y < |s| && (s[x], s[y]) in h.edges && (i, j) == (x, y);
    }
    if (j, i) in r.edges {
      var x: nat, y: nat :| x < |s| && y < |s| && (s[x], s[y]) in h.edges && (j, i) == (x, y);
    }
  }

  /** Relabelling a simple graph gives a simple graph. */
  lemma RelabelValid(h: Graph)
    requires h.Valid()
    ensures Relabel(h).Valid()
  {
    var s := SortedList(h.vertices);
    forall e | e in Relabel(h).edges
      ensures e.0 in Relabel(h).vertices && e.1 in Relabel(h).vertices && e.0 != e.1
    {
      var i: nat, j: nat :| i < |s| && j < |s| && (s[i], s[j]) in h.edges && e == (i, j);
      if i == j {
        assert false;
      }
    }
  }

  /** What the two passes leave, with `closedKept` the vertices after the first and `kept`
      those after the second: each vertex the first pass deleted has an adjacent closed twin
      and no edge joins two closed twins it kept; each vertex the second pass deleted is a
      third open twin of a pair in the graph the first pass left, and no kept pair u < v of
      open twins there keeps a third one. Both passes read the matrix of the original graph. */
  ghost predicate TwinReduction(g: Graph, common: (nat, nat) -> int, closedKept: set<nat>, kept: set<nat>) {
    kept <= closedKept <= g.vertices &&
    (forall u | u in g.vertices && u !in closedKept :: exists v :: g.HasEdge(u, v) && ClosedTwins(g, common, u, v)) &&
    (forall u, v | u in closedKept && v in closedKept && g.HasEdge(u, v) :: !ClosedTwins(g, common, u, v)) &&
    DeletionsJustified(g.Induced(closedKept), common, kept) &&
    (forall u, v, w | u in kept && v in kept && u < v && OpenTwins(g.Induced(closedKept), common, u, v) && w in kept ::
      !OpenThird(g.Induced(closedKept), common, u, v, w))
  }

  /** `reduce_graph`: both passes, then relabelling. The result is the relabelling of the
      subgraph induced by the vertices the two passes keep, each deletion justified by a
      twin and no deletable twin left behind; it has no more vertices than `g`. */
  method ReduceGraph(g: Graph, edgeList: seq<(nat, nat)>) returns (r: Graph)
    requires g.Valid() && ListsEdgesOnce(g, edgeList)
    ensures r.Valid()
    ensures exists closedKept, kept ::
      TwinReduction(g, CommonMatrix(g), closedKept, kept) && r == Relabel(g.Induced(kept))
    ensures r.vertices == Range(|r.vertices|) && |r.vertices| <= |g.vertices|
  {
    var common := CommonMatrix(g);
    var closed := RemoveSameClosedNeighborhoodVertices(g, common, edgeList);
    InducedValid(g, closed);
    var open := RemoveSameOpenNeighborhoodVertices(closed, common);
    InducedTransitive(g, closed, open);
    InducedValid(g, open);
    r := Relabel(open);
    RelabelValid(open);
    assert r == Relabel(g.Induced(open.vertices));
    assert TwinReduction(g, common, closed.vertices, open.vertices);
    RangeSize(|open.vertices|);
    SetSizeLe(open.vertices, g.vertices);
  }
}
