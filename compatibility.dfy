/** src/compatibility.py: incompatible triples and the compatibility graph of an order.
    Two vertices u, v (u before v) are joined in the compatibility graph when some later w
    makes (u, v, w) incompatible, so they cannot share a class. */
module Compatibility {
  import opened Graphs
  import opened Itertools

  /** `is_incompatible_triple(graph, u, v, w)`. */
  predicate IsIncompatibleTriple(g: Graph, u: nat, v: nat, w: nat) {
    g.HasEdge(u, w) && !g.HasEdge(v, w)
  }

  /** Some positions i < j < k of `order` hold u, v and a w making (u, v, w) incompatible. */
  ghost predicate HasIncompatibleTriple(g: Graph, order: seq<nat>, u: nat, v: nat) {
    exists i, j, k :: 0 <= i < j < k < |order| && order[i] == u && order[j] == v &&
      IsIncompatibleTriple(g, u, v, order[k])
  }

  /** The two orientations of an edge. */
  ghost predicate Joined(g: Graph, order: seq<nat>, u: nat, v: nat) {
    HasIncompatibleTriple(g, order, u, v) || HasIncompatibleTriple(g, order, v, u)
  }

  /** (u, v, w) is among the triples in `ts` and is incompatible. */
  ghost predicate Witnessed(g: Graph, ts: seq<seq<nat>>, u: nat, v: nat) {
    exists w :: [u, v, w] in ts && IsIncompatibleTriple(g, u, v, w)
  }

  predicate AllTriples(ts: seq<seq<nat>>) {
    forall m | 0 <= m < |ts| :: |ts[m]| == 3
  }

  /** The graph the loop of `build_compatibility_graph` holds after the triples `ts`,
      starting from `h`: each incompatible (u, v, w) adds the edge u - v. */
  function AddIncompatible(g: Graph, h: Graph, ts: seq<seq<nat>>): Graph
    requires AllTriples(ts)
  {
    if ts == [] then h
    else
      var t := ts[|ts| - 1];
      var before := AddIncompatible(g, h, ts[..|ts| - 1]);
      if IsIncompatibleTriple(g, t[0], t[1], t[2]) then before.AddEdge(t[0], t[1]) else before
  }

  /** The graph `build_compatibility_graph(graph, order)` returns: the vertices of the graph,
      no edges, then the loop over `combinations(order, 3)`. */
  function CompatibilityGraph(g: Graph, order: seq<nat>): Graph {
    CombinationsLengths(order, 3);
    AddIncompatible(g, Graph(g.vertices, {}), Combinations(order, 3))
  }

  /** What the loop builds: an edge exactly for each incompatible triple met, and the
      endpoints of those edges as extra vertices. */
  lemma AddIncompatibleAdjacency(g: Graph, h: Graph, ts: seq<seq<nat>>)
    requires AllTriples(ts)
    ensures forall u: nat, v: nat :: AddIncompatible(g, h, ts).HasEdge(u, v) <==>
      h.HasEdge(u, v) || Witnessed(g, ts, u, v) || Witnessed(g, ts, v, u)
    ensures forall x: nat :: x in AddIncompatible(g, h, ts).vertices <==>
      x in h.vertices || exists y: nat :: Witnessed(g, ts, x, y) || Witnessed(g, ts, y, x)
  {
    AddIncompatibleEdges(g, h, ts);
    AddIncompatibleVertices(g, h, ts);
  }

  lemma {:induction false} AddIncompatibleEdges(g: Graph, h: Graph, ts: seq<seq<nat>>)
    requires AllTriples(ts)
    ensures forall u: nat, v: nat :: AddIncompatible(g, h, ts).HasEdge(u, v) <==>
      h.HasEdge(u, v) || Witnessed(g, ts, u, v) || Witnessed(g, ts, v, u)
    decreases |ts|
  {
    if ts != [] {
      AddIncompatibleEdges(g, h, ts[..|ts| - 1]);
      WitnessedStep(g, ts);
    }
  }

  lemma {:induction false} AddIncompatibleVertices(g: Graph, h: Graph, ts: seq<seq<nat>>)
    requires AllTriples(ts)
    ensures forall x: nat :: x in AddIncompatible(g, h, ts).vertices <==>
      x in h.vertices || exists y: nat :: Witnessed(g, ts, x, y) || Witnessed(g, ts, y, x)
    decreases |ts|
  {
    if ts != [] {
      var init, t := ts[..|ts| - 1], ts[|ts| - 1];
      AddIncompatibleVertices(g, h, init);
      WitnessedStep(g, ts);
      var incompatible := IsIncompatibleTriple(g, t[0], t[1], t[2]);
      var before := AddIncompatible(g, h, init);
      assert AddIncompatible(g, h, ts).vertices == before.vertices + (if incompatible then {t[0], t[1]} else {});
      forall x: nat
        ensures x in AddIncompatible(g, h, ts).vertices <==>
          x in h.vertices || exists y: nat :: Witnessed(g, ts, x, y) || Witnessed(g, ts, y, x)
      {
        if incompatible && x == t[0] {
          assert Witnessed(g, ts, x, t[1]);
        } else if incompatible && x == t[1] {
          assert Witnessed(g, ts, t[0], x);
        } else if x in before.vertices && x !in h.vertices {
          var y: nat :| Witnessed(g, init, x, y) || Witnessed(g, init, y, x);
          assert Witnessed(g, ts, x, y) || Witnessed(g, ts, y, x);
        }
        if exists y: nat :: Witnessed(g, ts, x, y) || Witnessed(g, ts, y, x) {
          var y: nat :| Witnessed(g, ts, x, y) || Witnessed(g, ts, y, x);
          if Witnessed(g, init, x, y) || Witnessed(g, init, y, x) {
            assert x in before.vertices;
          }
        }
      }
    }
  }

  /** Splitting off the last triple. */
  lemma WitnessedStep(g: Graph, ts: seq<seq<nat>>)
    requires ts != [] && AllTriples(ts)
    ensures forall u: nat, v: nat :: Witnessed(g, ts, u, v) <==>
      Witnessed(g, ts[..|ts| - 1], u, v) ||
      (ts[|ts| - 1] == [u, v, ts[|ts| - 1][2]] && IsIncompatibleTriple(g, u, v, ts[|ts| - 1][2]))
  {
    var init, t := ts[..|ts| - 1], ts[|ts| - 1];
    assert ts == init + [t];
    assert t == [t[0], t[1], t[2]];
    forall u: nat, v: nat
      ensures Witnessed(g, ts, u, v) ==>
        (Witnessed(g, init, u, v) || (t == [u, v, t[2]] && IsIncompatibleTriple(g, u, v, t[2])))
    {
      if Witnessed(g, ts, u, v) {
        var w :| [u, v, w] in ts && IsIncompatibleTriple(g, u, v, w);
        if [u, v, w] !in init {
          assert [u, v, w] == t;
        }
      }
    }
  }

  /** The loop's triples and the positions i < j < k witness the same pairs. */
  lemma WitnessedByPositions(g: Graph, order: seq<nat>, u: nat, v: nat)
    ensures Witnessed(g, Combinations(order, 3), u, v) <==> HasIncompatibleTriple(g, order, u, v)
  {
    if Witnessed(g, Combinations(order, 3), u, v) {
      WitnessedIsPositioned(g, order, u, v);
    }
    if HasIncompatibleTriple(g, order, u, v) {
      PositionedIsWitnessed(g, order, u, v);
    }
  }

  lemma WitnessedIsPositioned(g: Graph, order: seq<nat>, u: nat, v: nat)
    requires Witnessed(g, Combinations(order, 3), u, v)
    ensures HasIncompatibleTriple(g, order, u, v)
  {
    var w :| [u, v, w] in Combinations(order, 3) && IsIncompatibleTriple(g, u, v, w);
    TripleOfMember(order, [u, v, w]);
  }

  lemma PositionedIsWitnessed(g: Graph, order: seq<nat>, u: nat, v: nat)
    requires HasIncompatibleTriple(g, order, u, v)
    ensures Witnessed(g, Combinations(order, 3), u, v)
  {
    var i, j, k :| 0 <= i < j < k < |order| && order[i] == u && order[j] == v &&
      IsIncompatibleTriple(g, u, v, order[k]);
    TripleInCombinations(order, i, j, k);
  }

  /** Edge {u, v} is in the compatibility graph exactly when some w after both makes
      (u, v, w) incompatible for u before v, or (v, u, w) for v before u. */
  lemma CompatibilityEdges(g: Graph, order: seq<nat>)
    ensures forall u: nat, v: nat :: CompatibilityGraph(g, order).HasEdge(u, v) <==> Joined(g, order, u, v)
  {
    CombinationsLengths(order, 3);
    AddIncompatibleAdjacency(g, Graph(g.vertices, {}), Combinations(order, 3));
    forall u: nat, v: nat
      ensures Witnessed(g, Combinations(order, 3), u, v) <==> HasIncompatibleTriple(g, order, u, v)
    {
      WitnessedByPositions(g, order, u, v);
    }
  }

  /** The vertices are the graph's, plus any endpoint of a compatibility edge; when the
      order lists only vertices of the graph, they are exactly the graph's, even when no
      edge is added. */
  lemma CompatibilityVertices(g: Graph, order: seq<nat>)
    ensures forall x: nat :: x in CompatibilityGraph(g, order).vertices <==>
      x in g.vertices || exists y: nat :: Joined(g, order, x, y)
    ensures (forall i | 0 <= i < |order| :: order[i] in g.vertices) ==>
      CompatibilityGraph(g, order).vertices == g.vertices
  {
    CombinationsLengths(order, 3);
    var ts := Combinations(order, 3);
    AddIncompatibleAdjacency(g, Graph(g.vertices, {}), ts);
    forall x: nat
      ensures x in CompatibilityGraph(g, order).vertices <==> x in g.vertices || exists y: nat :: Joined(g, order, x, y)
    {
      if exists y: nat :: Witnessed(g, ts, x, y) || Witnessed(g, ts, y, x) {
        var y: nat :| Witnessed(g, ts, x, y) || Witnessed(g, ts, y, x);
        WitnessedByPositions(g, order, x, y);
        WitnessedByPositions(g, order, y, x);
        assert Joined(g, order, x, y);
      }
      if exists y: nat :: Joined(g, order, x, y) {
        var y: nat :| Joined(g, order, x, y);
        WitnessedByPositions(g, order, x, y);
        WitnessedByPositions(g, order, y, x);
      }
    }
    if forall i | 0 <= i < |order| :: order[i] in g.vertices {
      forall x | x in CompatibilityGraph(g, order).vertices
        ensures x in g.vertices
      {
        if !(x in g.vertices) {
          var y: nat :| Joined(g, order, x, y);
          JoinedInOrder(g, order, x, y);
        }
      }
    }
  }

  /** Both ends of a compatibility edge are entries of the order. */
  lemma JoinedInOrder(g: Graph, order: seq<nat>, u: nat, v: nat)
    requires Joined(g, order, u, v)
    ensures u in order && v in order
  {
    if HasIncompatibleTriple(g, order, u, v) {
      TripleInOrder(g, order, u, v);
    } else {
      TripleInOrder(g, order, v, u);
    }
  }

  lemma TripleInOrder(g: Graph, order: seq<nat>, u: nat, v: nat)
    requires HasIncompatibleTriple(g, order, u, v)
    ensures u in order && v in order
  {
    var i, j, k :| 0 <= i < j < k < |order| && order[i] == u && order[j] == v &&
      IsIncompatibleTriple(g, u, v, order[k]);
    assert order[i] in order && order[j] in order;
  }

  /** A vertex missing from the order is isolated in the compatibility graph. */
  lemma AbsentVertexIsolated(g: Graph, order: seq<nat>, x: nat)
    requires x !in order
    ensures CompatibilityGraph(g, order).Neighbors(x) == {}
  {
    CompatibilityEdges(g, order);
    forall y | y in CompatibilityGraph(g, order).Neighbors(x)
      ensures false
    {
      JoinedInOrder(g, order, y, x);
    }
  }

  /** The compatibility graph of a prefix of the order is a subgraph of the compatibility
      graph of the whole order. */
  lemma PrefixSubgraph(g: Graph, order: seq<nat>, p: nat)
    requires p <= |order|
    ensures CompatibilityGraph(g, order[..p]).vertices <= CompatibilityGraph(g, order).vertices
    ensures forall u: nat, v: nat | CompatibilityGraph(g, order[..p]).HasEdge(u, v) ::
      CompatibilityGraph(g, order).HasEdge(u, v)
  {
    CompatibilityEdges(g, order);
    CompatibilityEdges(g, order[..p]);
    CompatibilityVertices(g, order);
    CompatibilityVertices(g, order[..p]);
    forall u: nat, v: nat | HasIncompatibleTriple(g, order[..p], u, v)
      ensures HasIncompatibleTriple(g, order, u, v)
    {
      var i, j, k :| 0 <= i < j < k < p && order[..p][i] == u && order[..p][j] == v &&
        IsIncompatibleTriple(g, u, v, order[..p][k]);
      assert order[i] == u && order[j] == v && order[k] == order[..p][k];
    }
    forall x: nat | x in CompatibilityGraph(g, order[..p]).vertices
      ensures x in CompatibilityGraph(g, order).vertices
    {
      if x !in g.vertices {
        var y: nat :| Joined(g, order[..p], x, y);
        assert Joined(g, order, x, y);
      }
    }
  }

  /** The compatibility graph of a simple graph is simple: an incompatible triple never
      has u = v. */
  lemma CompatibilityGraphValid(g: Graph, order: seq<nat>)
    requires g.Valid()
    ensures CompatibilityGraph(g, order).Valid()
  {
    CombinationsLengths(order, 3);
    AddIncompatibleValid(g, Graph(g.vertices, {}), Combinations(order, 3));
  }

  lemma {:induction false} AddIncompatibleValid(g: Graph, h: Graph, ts: seq<seq<nat>>)
    requires AllTriples(ts) && h.Valid()
    ensures AddIncompatible(g, h, ts).Valid()
    decreases |ts|
  {
    if ts != [] {
      AddIncompatibleValid(g, h, ts[..|ts| - 1]);
    }
  }

  /** Every label of an edge (u, v) is a w with [u, v, w] among the triples and
      (u, v, w) incompatible. */
  ghost predicate LabelsWitnessed(g: Graph, ts: seq<seq<nat>>, labels: map<(nat, nat), nat>) {
    forall e | e in labels :: [e.0, e.1, labels[e]] in ts && IsIncompatibleTriple(g, e.0, e.1, labels[e])
  }

  /** Every edge of `h` carries a label in one of its orientations. */
  ghost predicate EdgesLabelled(h: Graph, labels: map<(nat, nat), nat>) {
    forall u: nat, v: nat | h.HasEdge(u, v) :: (u, v) in labels || (v, u) in labels
  }

  /** One labelled `add_edge(u, v, label=w)` keeps both label invariants. */
  lemma LabelStep(g: Graph, ts: seq<seq<nat>>, h: Graph, labels: map<(nat, nat), nat>, u: nat, v: nat, w: nat)
    requires LabelsWitnessed(g, ts, labels) && EdgesLabelled(h, labels)
    requires [u, v, w] in ts && IsIncompatibleTriple(g, u, v, w)
    ensures LabelsWitnessed(g, ts, (labels - {(v, u)})[(u, v) := w])
    ensures EdgesLabelled(h.AddEdge(u, v), (labels - {(v, u)})[(u, v) := w])
  {
    var next := (labels - {(v, u)})[(u, v) := w];
    forall a: nat, b: nat | h.AddEdge(u, v).HasEdge(a, b)
      ensures (a, b) in next || (b, a) in next
    {
      if !((a == u && b == v) || (a == v && b == u)) {
        assert h.HasEdge(a, b);
      }
    }
  }

  /** `build_compatibility_graph`: a fresh graph on the graph's vertices; for each triple
      (u, v, w) of `combinations(order, 3)` that is incompatible, `add_edge(u, v, label=w)`.
      Adding an edge that is already there replaces its label. */
  method BuildCompatibilityGraph(g: Graph, order: seq<nat>)
    returns (compat: Graph, labels: map<(nat, nat), nat>)
    ensures compat == CompatibilityGraph(g, order)
    ensures forall e | e in labels :: exists i, j, k ::
      0 <= i < j < k < |order| && order[i] == e.0 && order[j] == e.1 && order[k] == labels[e] &&
      IsIncompatibleTriple(g, e.0, e.1, labels[e])
    ensures forall u: nat, v: nat | compat.HasEdge(u, v) :: (u, v) in labels || (v, u) in labels
  {
    var triples := Combinations(order, 3);
    CombinationsLengths(order, 3);
    var start := Graph(g.vertices, {});
    var h := new MutableGraph(start);
    labels := map[];
    var t := 0;
    while t < |triples|
      invariant 0 <= t <= |triples|
      invariant h.Value() == AddIncompatible(g, start, triples[..t])
      invariant LabelsWitnessed(g, triples, labels) && EdgesLabelled(h.Value(), labels)
    {
      var u, v, w := triples[t][0], triples[t][1], triples[t][2];
      assert triples[t] == [u, v, w];
      assert triples[..t + 1][..t] == triples[..t];
      if IsIncompatibleTriple(g, u, v, w) {
        LabelStep(g, triples, h.Value(), labels, u, v, w);
        h.AddEdge(u, v);
        labels := (labels - {(v, u)})[(u, v) := w];
      }
      t := t + 1;
    }
    assert triples[..t] == triples;
    compat := h.Value();
    forall e | e in labels
      ensures exists i, j, k ::
        0 <= i < j < k < |order| && order[i] == e.0 && order[j] == e.1 && order[k] == labels[e] &&
        IsIncompatibleTriple(g, e.0, e.1, labels[e])
    {
      TripleOfMember(order, [e.0, e.1, labels[e]]);
    }
  }
}
