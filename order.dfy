/** The thinness of a fixed order (thinness/order.py), as a minimum flow with lower bounds.
    The complement of the compatibility graph is oriented along the order, a source and a
    sink are added, every vertex is split into an in-node and an out-node joined by an arc
    that must carry at least one unit, a feasible flow is found by pushing units along
    source–sink walks, and Sage's maximum flow on the residual network (a parameter here)
    is subtracted from the feasible value. */
module Order {
  import opened Graphs
  import opened Wrappers
  import Compatibility
  import opened Flow

  // ---------------------------------------------------------------------------------------
  // Directed graphs and the transitive orientation
  // ---------------------------------------------------------------------------------------

  /** A Sage `DiGraph` on integer vertices. */
  datatype Digraph = Digraph(vertices: set<nat>, arcs: set<(nat, nat)>)
  {
    /** Sage's `sources()`: the vertices no arc enters. */
    function Sources(): set<nat> {
      set v | v in vertices && forall a | a in arcs :: a.1 != v
    }

    /** Sage's `sinks()`: the vertices no arc leaves. */
    function Sinks(): set<nat> {
      set v | v in vertices && forall a | a in arcs :: a.0 != v
    }
  }

  /** Sage's `complement()`: the same vertices, joined exactly where `g` is not. Each edge
      is stored once, from its smaller end. */
  function Complement(g: Graph): (r: Graph)
    ensures r.vertices == g.vertices && r.Valid()
    ensures forall u, v | u in g.vertices && v in g.vertices :: r.HasEdge(u, v) <==> u != v && !g.HasEdge(u, v)
    ensures forall e | e in r.edges :: e.0 < e.1
  {
    Graph(g.vertices, set u, v | u in g.vertices && v in g.vertices && u < v && !g.HasEdge(u, v) :: (u, v))
  }

  /** The pairs (u, s[j]) for which `keep` holds, in the order of `s`. */
  function Row(u: nat, s: seq<nat>, keep: set<(nat, nat)>): (r: seq<(nat, nat)>)
    ensures forall p :: p in r <==> p.0 == u && p.1 in s && p in keep
  {
    if |s| == 0 then []
    else (if (u, s[0]) in keep then [(u, s[0])] else []) + Row(u, s[1..], keep)
  }

  /** Sage's `edges()` and `arcs()`: every pair of `keep` between vertices of `s`, row by
      row in the order of `s`. */
  function PairList(s: seq<nat>, t: seq<nat>, keep: set<(nat, nat)>): (r: seq<(nat, nat)>)
    ensures forall p :: p in r <==> p.0 in s && p.1 in t && p in keep
  {
    if |s| == 0 then []
    else Row(s[0], t, keep) + PairList(s[1..], t, keep)
  }

  /** The edges of `g`, each once, as Sage lists them. */
  function EdgeList(g: Graph): (r: seq<(nat, nat)>)
    requires g.Valid()
    ensures forall p :: p in r <==> p in g.edges
  {
    var s := SortedList(g.vertices);
    PairList(s, s, g.edges)
  }

  /** The vertices of `g` joined to something. */
  ghost predicate Covered(g: Graph, x: nat) {
    exists y: nat :: g.HasEdge(x, y)
  }

  /** The rule for one edge: from the end that comes first in `order` to the other. */
  function Oriented(order: seq<nat>, u: nat, v: nat): (nat, nat)
    requires u in order && v in order
  {
    if IndexOf(order, u) < IndexOf(order, v) then (u, v) else (v, u)
  }

  predicate InOrder(order: seq<nat>, es: seq<(nat, nat)>) {
    forall j | 0 <= j < |es| :: es[j].0 in order && es[j].1 in order
  }

  /** The arcs made from the edges `es`. */
  function OrientAll(order: seq<nat>, es: seq<(nat, nat)>): set<(nat, nat)>
    requires InOrder(order, es)
  {
    if |es| == 0 then {}
    else OrientAll(order, es[..|es| - 1]) + {Oriented(order, es[|es| - 1].0, es[|es| - 1].1)}
  }

  /** The ends of the edges `es`. */
  function Ends(es: seq<(nat, nat)>): set<nat> {
    if |es| == 0 then {} else Ends(es[..|es| - 1]) + {es[|es| - 1].0, es[|es| - 1].1}
  }

  lemma {:induction false} OrientAllMembers(order: seq<nat>, es: seq<(nat, nat)>, a: nat, b: nat)
    requires InOrder(order, es)
    ensures (a, b) in OrientAll(order, es) <==> exists j | 0 <= j < |es| :: Oriented(order, es[j].0, es[j].1) == (a, b)
  {
    if |es| > 0 {
      var rest := es[..|es| - 1];
      OrientAllMembers(order, rest, a, b);
      if exists j | 0 <= j < |es| :: Oriented(order, es[j].0, es[j].1) == (a, b) {
        var j :| 0 <= j < |es| && Oriented(order, es[j].0, es[j].1) == (a, b);
        if j < |es| - 1 {
          assert rest[j] == es[j];
        }
      }
    }
  }

  lemma {:induction false} EndsMembers(es: seq<(nat, nat)>, x: nat)
    ensures x in Ends(es) <==> exists y :: (x, y) in es || (y, x) in es
  {
    if |es| > 0 {
      var rest := es[..|es| - 1];
      EndsMembers(rest, x);
      assert es == rest + [es[|es| - 1]];
      assert forall p :: p in es <==> p in rest || p == es[|es| - 1];
      if x == es[|es| - 1].0 {
        assert (x, es[|es| - 1].1) in es;
      } else if x == es[|es| - 1].1 {
        assert (es[|es| - 1].0, x) in es;
      }
    }
  }

  /** `_build_transitive_orientation`: `DiGraph(graph.order())` has the vertices
      0..order()-1; each edge is directed from the end that comes first in `order` to the
      other. */
  method BuildTransitiveOrientation(g: Graph, order: seq<nat>) returns (d: Digraph)
    requires g.Valid()
    requires forall u, v | g.HasEdge(u, v) :: u in order && v in order
    ensures forall x: nat :: x in d.vertices <==> x < |g.vertices| || Covered(g, x)
    ensures forall a: nat, b: nat :: (a, b) in d.arcs <==> g.HasEdge(a, b) && IndexOf(order, a) < IndexOf(order, b)
  {
    var edges := EdgeList(g);
    assert InOrder(order, edges) by {
      forall j | 0 <= j < |edges|
        ensures edges[j].0 in order && edges[j].1 in order
      {
        assert edges[j] in g.edges;
        assert g.HasEdge(edges[j].0, edges[j].1);
      }
    }
    d := OrientEdges(|g.vertices|, order, edges);
    forall x: nat
      ensures x in d.vertices <==> x < |g.vertices| || Covered(g, x)
    {
      EndsAreCovered(g, edges, x);
    }
    forall a: nat, b: nat
      ensures (a, b) in d.arcs <==> g.HasEdge(a, b) && IndexOf(order, a) < IndexOf(order, b)
    {
      assert g.HasEdge(a, b) ==> a in order && b in order;
      OrientAllOfEdges(g, order, edges, a, b);
    }
  }

  /** The loop of `_build_transitive_orientation`, over the listed edges. */
  method OrientEdges(n: nat, order: seq<nat>, edges: seq<(nat, nat)>) returns (d: Digraph)
    requires InOrder(order, edges)
    ensures d == Digraph(Range(n) + Ends(edges), OrientAll(order, edges))
  {
    d := Digraph(Range(n), {});
    for k := 0 to |edges|
      invariant d == Digraph(Range(n) + Ends(edges[..k]), OrientAll(order, edges[..k]))
    {
      var (u, v) := edges[k];
      OrientStep(order, edges, k);
      if IndexOf(order, u) < IndexOf(order, v) {
        d := Digraph(d.vertices + {u, v}, d.arcs + {(u, v)});
      } else {
        d := Digraph(d.vertices + {u, v}, d.arcs + {(v, u)});
      }
    }
    assert edges[..|edges|] == edges;
  }

  /** One more edge adds its two ends and its arc. */
  lemma OrientStep(order: seq<nat>, edges: seq<(nat, nat)>, k: nat)
    requires InOrder(order, edges) && k < |edges|
    ensures Ends(edges[..k + 1]) == Ends(edges[..k]) + {edges[k].0, edges[k].1}
    ensures OrientAll(order, edges[..k + 1]) == OrientAll(order, edges[..k]) + {Oriented(order, edges[k].0, edges[k].1)}
  {
    assert edges[..k + 1][..k] == edges[..k];
  }

  /** The ends of the listed edges are the vertices joined to something. */
  lemma EndsAreCovered(g: Graph, edges: seq<(nat, nat)>, x: nat)
    requires forall p :: p in edges <==> p in g.edges
    ensures x in Ends(edges) <==> Covered(g, x)
  {
    EndsMembers(edges, x);
    if Covered(g, x) {
      var y: nat :| g.HasEdge(x, y);
      assert (x, y) in edges || (y, x) in edges;
    }
    if exists y :: (x, y) in edges || (y, x) in edges {
      var y :| (x, y) in edges || (y, x) in edges;
      assert g.HasEdge(x, y);
    }
  }

  /** Orienting every listed edge gives exactly the arcs from the earlier end. */
  lemma OrientAllOfEdges(g: Graph, order: seq<nat>, edges: seq<(nat, nat)>, a: nat, b: nat)
    requires g.Valid()
    requires forall p :: p in edges <==> p in g.edges
    requires InOrder(order, edges)
    requires g.HasEdge(a, b) ==> a in order && b in order
    ensures (a, b) in OrientAll(order, edges) <==> g.HasEdge(a, b) && IndexOf(order, a) < IndexOf(order, b)
  {
    OrientAllMembers(order, edges, a, b);
    if (a, b) in OrientAll(order, edges) {
      var j :| 0 <= j < |edges| && Oriented(order, edges[j].0, edges[j].1) == (a, b);
      OrientedArc(g, order, edges[j], a, b);
    }
    if g.HasEdge(a, b) && IndexOf(order, a) < IndexOf(order, b) {
      var e := if (a, b) in g.edges then (a, b) else (b, a);
      assert e in edges;
      var j :| 0 <= j < |edges| && edges[j] == e;
      assert Oriented(order, edges[j].0, edges[j].1) == (a, b);
    }
  }

  /** The arc made from an edge joins its ends, the earlier one first. */
  lemma OrientedArc(g: Graph, order: seq<nat>, e: (nat, nat), a: nat, b: nat)
    requires g.Valid() && e in g.edges && e.0 in order && e.1 in order
    requires Oriented(order, e.0, e.1) == (a, b)
    ensures g.HasEdge(a, b) && IndexOf(order, a) < IndexOf(order, b)
  {
    assert e.0 != e.1;
  }

  // ---------------------------------------------------------------------------------------
  // Source and sink
  // ---------------------------------------------------------------------------------------

  /** Sage's `add_vertex()` without a name: the least natural number not yet a vertex. */
  function FreshVertex(vs: set<nat>): (r: nat)
    ensures r !in vs && forall x: nat | x < r :: x in vs
  {
    FreshExists(vs);
    var r := Min(Range(|vs| + 1) - vs);
    FreshLeast(vs, r);
    r
  }

  lemma FreshLeast(vs: set<nat>, r: nat)
    requires IsLeast(r, Range(|vs| + 1) - vs)
    ensures forall x: nat | x < r :: x in vs
  {
    var missing := Range(|vs| + 1) - vs;
    forall x: nat | x < r
      ensures x in vs
    {
      assert x in Range(|vs| + 1);
      assert x in vs || x in missing;
    }
  }

  lemma FreshExists(vs: set<nat>)
    ensures Range(|vs| + 1) - vs != {}
  {
    if Range(|vs| + 1) - vs == {} {
      RangeSize(|vs| + 1);
      SetSizeLe(Range(|vs| + 1), vs);
    }
  }

  /** `_add_source`: a fresh vertex with an arc to every vertex that was a source. */
  function AddSource(d: Digraph): (r: (Digraph, nat))
    ensures r.1 !in d.vertices && forall x: nat | x < r.1 :: x in d.vertices
    ensures r.0.vertices == d.vertices + {r.1}
    ensures forall a, b :: (a, b) in r.0.arcs <==> (a, b) in d.arcs || (a == r.1 && b in d.Sources())
  {
    var source := FreshVertex(d.vertices);
    var grown := Digraph(d.vertices + {source}, d.arcs);
    (Digraph(grown.vertices, grown.arcs + set v | v in grown.Sources() && v != source :: (source, v)), source)
  }

  /** `_add_sink`: a fresh vertex with an arc from every vertex that was a sink. */
  function AddSink(d: Digraph): (r: (Digraph, nat))
    ensures r.1 !in d.vertices && forall x: nat | x < r.1 :: x in d.vertices
    ensures r.0.vertices == d.vertices + {r.1}
    ensures forall a, b :: (a, b) in r.0.arcs <==> (a, b) in d.arcs || (b == r.1 && a in d.Sinks())
  {
    var sink := FreshVertex(d.vertices);
    var grown := Digraph(d.vertices + {sink}, d.arcs);
    (Digraph(grown.vertices, grown.arcs + set v | v in grown.Sinks() && v != sink :: (v, sink)), sink)
  }

  // ---------------------------------------------------------------------------------------
  // The network with lower bounds
  // ---------------------------------------------------------------------------------------

  /** The vertices of the orientation other than the two terminals. */
  function Inner(d: Digraph, source: nat, sink: nat): set<nat> {
    d.vertices - {source, sink}
  }

  /** The in-node and the out-node of each vertex of `vs`. */
  function SplitNodes(vs: set<nat>): set<Node> {
    (set v | v in vs :: In(v)) + (set v | v in vs :: Out(v))
  }

  /** The arc from the in-node to the out-node of each vertex of `vs`. */
  function SplitArcs(vs: set<nat>): set<Arc> {
    set v | v in vs :: (In(v), Out(v))
  }

  /** The arc of the network standing for the arc `e` of the orientation: out of the
      source terminal when `e` leaves the source, into the sink terminal when it enters
      the sink, and from an out-node to an in-node otherwise. */
  function ArcImage(source: nat, sink: nat, e: (nat, nat)): Arc {
    if e.0 == source then (Terminal(source), In(e.1))
    else if e.1 == sink then (Out(e.0), Terminal(sink))
    else (Out(e.0), In(e.1))
  }

  function ArcImages(es: set<(nat, nat)>, source: nat, sink: nat): set<Arc> {
    set e | e in es :: ArcImage(source, sink, e)
  }

  /** The ends of a set of arcs. */
  function ArcEnds(s: set<Arc>): set<Node> {
    (set a | a in s :: a.0) + (set a | a in s :: a.1)
  }

  /** `net` is what `_build_min_edge_flow_network` builds from `d`: the two terminals,
      every other vertex split in two, a lower bound of one between its halves, and one
      arc with lower bound zero for each arc of `d`. */
  ghost predicate NetworkOf(d: Digraph, source: nat, sink: nat, net: Network) {
    Partial(d, source, sink, d.arcs, net)
  }

  /** The network once the arcs `done` of the orientation have been added. */
  ghost predicate Partial(d: Digraph, source: nat, sink: nat, done: set<(nat, nat)>, net: Network) {
    var images := ArcImages(done, source, sink);
    net.Valid()
    && net.nodes == {Terminal(source), Terminal(sink)} + SplitNodes(Inner(d, source, sink)) + ArcEnds(images)
    && net.labels.Keys == SplitArcs(Inner(d, source, sink)) + images
    && forall a | a in net.labels :: net.labels[a] == LowerBound(a)
  }

  /** `_build_min_edge_flow_network`: the split of each vertex, then the arcs of `d`. */
  method BuildMinEdgeFlowNetwork(d: Digraph, source: nat, sink: nat) returns (net: Network)
    ensures NetworkOf(d, source, sink, net)
  {
    net := SplitVertices(d, source, sink);
    var remaining := d.arcs;
    ghost var done: set<(nat, nat)> := {};
    assert ArcImages(done, source, sink) == {};
    while remaining != {}
      invariant remaining <= d.arcs && done <= d.arcs
      invariant forall e | e in d.arcs :: e in done <==> e !in remaining
      invariant Partial(d, source, sink, done, net)
      decreases remaining
    {
      var e :| e in remaining;
      PartialStep(d, source, sink, done, e, net);
      net := AddArc(net, ArcImage(source, sink, e), 0);
      done := done + {e};
      remaining := remaining - {e};
    }
    assert done == d.arcs;
  }

  /** Adding the image of one more arc of the orientation. */
  lemma PartialStep(d: Digraph, source: nat, sink: nat, done: set<(nat, nat)>, e: (nat, nat), net: Network)
    requires Partial(d, source, sink, done, net)
    ensures Partial(d, source, sink, done + {e}, AddArc(net, ArcImage(source, sink, e), 0))
  {
    var a := ArcImage(source, sink, e);
    var next := AddArc(net, a, 0);
    var base := {Terminal(source), Terminal(sink)} + SplitNodes(Inner(d, source, sink));
    ImagesStep(done, e, source, sink);
    assert next.nodes == base + ArcEnds(ArcImages(done + {e}, source, sink));
    assert next.labels.Keys == SplitArcs(Inner(d, source, sink)) + ArcImages(done + {e}, source, sink);
  }

  /** One more arc of the orientation adds its image and the image's ends. */
  lemma ImagesStep(done: set<(nat, nat)>, e: (nat, nat), source: nat, sink: nat)
    ensures ArcImages(done + {e}, source, sink) == ArcImages(done, source, sink) + {ArcImage(source, sink, e)}
    ensures ArcEnds(ArcImages(done + {e}, source, sink))
      == ArcEnds(ArcImages(done, source, sink)) + {ArcImage(source, sink, e).0, ArcImage(source, sink, e).1}
  {
    var a := ArcImage(source, sink, e);
    assert ArcImages(done + {e}, source, sink) == ArcImages(done, source, sink) + {a};
  }

  /** The first loop of `_build_min_edge_flow_network`: the two terminals, and each other
      vertex split into two nodes joined by an arc with lower bound one. */
  method SplitVertices(d: Digraph, source: nat, sink: nat) returns (net: Network)
    ensures net.Valid()
    ensures net.nodes == {Terminal(source), Terminal(sink)} + SplitNodes(Inner(d, source, sink))
    ensures net.labels.Keys == SplitArcs(Inner(d, source, sink))
    ensures forall a | a in net.labels :: net.labels[a] == LowerBound(a)
  {
    net := Network({Terminal(source), Terminal(sink)}, map[]);
    var remaining := d.vertices;
    ghost var done: set<nat> := {};
    while remaining != {}
      invariant remaining <= d.vertices && done <= d.vertices
      invariant forall v | v in d.vertices :: v in done <==> v !in remaining
      invariant net.Valid()
      invariant net.nodes == {Terminal(source), Terminal(sink)} + SplitNodes(done - {source, sink})
      invariant net.labels.Keys == SplitArcs(done - {source, sink})
      invariant forall a | a in net.labels :: net.labels[a] == LowerBound(a)
      decreases remaining
    {
      var v :| v in remaining;
      SplitStep(done - {source, sink}, v);
      if v != source && v != sink {
        net := AddArc(Network(net.nodes + {In(v), Out(v)}, net.labels), (In(v), Out(v)), 1);
        assert done + {v} - {source, sink} == done - {source, sink} + {v};
      } else {
        assert done + {v} - {source, sink} == done - {source, sink};
      }
      done := done + {v};
      remaining := remaining - {v};
    }
    assert done == d.vertices;
  }

  lemma SplitStep(vs: set<nat>, v: nat)
    ensures SplitNodes(vs + {v}) == SplitNodes(vs) + {In(v), Out(v)}
    ensures SplitArcs(vs + {v}) == SplitArcs(vs) + {(In(v), Out(v))}
  {
    assert (set x | x in vs + {v} :: In(x)) == (set x | x in vs :: In(x)) + {In(v)};
    assert (set x | x in vs + {v} :: Out(x)) == (set x | x in vs :: Out(x)) + {Out(v)};
  }

  /** A rank of the network's nodes that falls along every arc when `dr` falls along every
      arc of the orientation: the sink terminal lowest, each out-node just under its
      in-node, the source terminal above its successors. */
  function NetRank(source: nat, sink: nat, dr: nat -> nat, x: Node): nat {
    match x
    case Terminal(t) => if t == sink then 0 else 2 * dr(t) + 3
    case In(v) => 2 * dr(v) + 2
    case Out(v) => 2 * dr(v) + 1
  }

  /** The network of an orientation without a cycle has none either. */
  lemma NetworkRanked(d: Digraph, source: nat, sink: nat, net: Network, dr: nat -> nat)
    requires NetworkOf(d, source, sink, net) && source != sink
    requires forall e | e in d.arcs :: dr(e.0) > dr(e.1)
    ensures forall a | a in net.labels :: NetRank(source, sink, dr, a.0) > NetRank(source, sink, dr, a.1)
  {
    forall a | a in net.labels
      ensures NetRank(source, sink, dr, a.0) > NetRank(source, sink, dr, a.1)
    {
      if a !in SplitArcs(Inner(d, source, sink)) {
        var e :| e in d.arcs && a == ArcImage(source, sink, e);
      }
    }
  }

  /** Every vertex other than the terminals is entered from the source, or from another
      such vertex of higher rank. */
  ghost predicate Rooted(d: Digraph, source: nat, sink: nat, dr: nat -> nat) {
    forall v | v in Inner(d, source, sink) ::
      (source, v) in d.arcs || exists u :: u in Inner(d, source, sink) && (u, v) in d.arcs && dr(u) > dr(v)
  }

  /** The vertices ranked above `v`. */
  function Above(d: Digraph, dr: nat -> nat, v: nat): set<nat> {
    set w | w in d.vertices && dr(w) > dr(v)
  }

  /** The arcs of the network the search relies on: each inner vertex's split arc, the
      image of each arc of the orientation, and no split arc for any other vertex. */
  ghost predicate Embeds(d: Digraph, source: nat, sink: nat, net: Network) {
    (forall v | v in Inner(d, source, sink) :: (In(v), Out(v)) in net.labels)
    && (forall e | e in d.arcs :: ArcImage(source, sink, e) in net.labels)
    && (forall v | (In(v), Out(v)) in net.labels :: v in Inner(d, source, sink))
  }

  lemma NetworkEmbeds(d: Digraph, source: nat, sink: nat, net: Network)
    requires NetworkOf(d, source, sink, net)
    ensures Embeds(d, source, sink, net)
    ensures forall a | a in net.labels :: net.labels[a] == LowerBound(a)
  {
    forall v | (In(v), Out(v)) in net.labels
      ensures v in Inner(d, source, sink)
    {
      assert (In(v), Out(v)) in SplitArcs(Inner(d, source, sink));
    }
  }

  /** A closed set of nodes holding the source terminal holds the in-node of every vertex
      of a rooted orientation. */
  lemma {:induction false} InNodeClosed(d: Digraph, source: nat, sink: nat, dr: nat -> nat, net: Network, flow: Network, v: nat, c: set<Node>)
    requires Embeds(d, source, sink, net) && flow.labels.Keys == net.labels.Keys && Rooted(d, source, sink, dr)
    requires Terminal(source) in c && Closed(net, flow, c, c)
    requires v in Inner(d, source, sink)
    ensures In(v) in c
    decreases |Above(d, dr, v)|
  {
    if (source, v) !in d.arcs {
      var u :| u in Inner(d, source, sink) && (u, v) in d.arcs && dr(u) > dr(v);
      assert Above(d, dr, u) <= Above(d, dr, v) - {u};
      SetSizeLe(Above(d, dr, u), Above(d, dr, v) - {u});
      InNodeClosed(d, source, sink, dr, net, flow, u, c);
      assert (In(u), Out(u)) in flow.labels;
      assert ArcImage(source, sink, (u, v)) == (Out(u), In(v));
    } else {
      assert ArcImage(source, sink, (source, v)) == (Terminal(source), In(v));
    }
  }

  /** When the search from the source is stuck on a rooted orientation, every lower bound
      is met: the `assert` of `min_flow` holds. */
  lemma StuckIsValid(d: Digraph, source: nat, sink: nat, dr: nat -> nat, net: Network, flow: Network)
    requires NetworkOf(d, source, sink, net) && Rooted(d, source, sink, dr)
    requires Kept(net, source, sink, flow) && Stuck(net, flow, source)
    ensures IsValidFlow(net, source, sink, flow)
  {
    NetworkEmbeds(d, source, sink, net);
    var c :| Terminal(source) in c && Closed(net, flow, c, c);
    forall a | a in net.labels
      ensures flow.labels[a] >= net.labels[a]
    {
      if LowerBound(a) == 1 {
        InNodeClosed(d, source, sink, dr, net, flow, a.0.v, c);
      }
    }
  }

  // ---------------------------------------------------------------------------------------
  // The minimum flow
  // ---------------------------------------------------------------------------------------

  /** `min_flow`: a feasible flow of the network of `d`, checked by `_is_valid_flow`, minus
      the maximum flow from the sink to the source in the residual network. Sage's `flow`
      is the parameter `maxFlow`. The `assert` fails only on an orientation that is not
      rooted; `dr` ranks the orientation, which has no cycle. */
  method MinFlow(d: Digraph, source: nat, sink: nat, maxFlow: (Network, Node, Node) -> int, ghost dr: nat -> nat)
    returns (r: Result<int>, ghost net: Network, ghost flow: Network, ghost residual: Network)
    requires source != sink
    requires forall e | e in d.arcs :: dr(e.0) > dr(e.1)
    ensures NetworkOf(d, source, sink, net)
    ensures r.Failure? ==> r.error == "StopIteration" || (r.error == "AssertionError" && !Rooted(d, source, sink, dr))
    ensures r.Success? ==> FlowValue(net, source, sink, maxFlow, flow, residual, r.value)
  {
    var network := BuildMinEdgeFlowNetwork(d, source, sink);
    net := network;
    NetworkRanked(d, source, sink, network, dr);
    r, flow, residual := FlowOnNetwork(network, source, sink, maxFlow, (x: Node) => NetRank(source, sink, dr, x));
    if r.Failure? && r.error == "AssertionError" && Rooted(d, source, sink, dr) {
      StuckIsValid(d, source, sink, dr, network, flow);
    }
  }

  /** What `min_flow` returns from a network: a valid flow, the residual network of the
      flow, whose labels are the room left under the feasible value and the units above
      the lower bounds, and the feasible value minus the maximum flow from the sink to the
      source there. */
  ghost predicate FlowValue(net: Network, source: nat, sink: nat, maxFlow: (Network, Node, Node) -> int,
                            flow: Network, residual: Network, value: int) {
    Kept(net, source, sink, flow) && IsValidFlow(net, source, sink, flow)
    && residual.Valid() && ResidualArcs(net.labels.Keys, residual)
    && ResidualLabels(net, flow, Carried(flow, Terminal(source), false), net.labels.Keys, residual)
    && value == Carried(flow, Terminal(source), false) - maxFlow(residual, Terminal(sink), Terminal(source))
  }

  /** The body of `min_flow` once the network is built. */
  method FlowOnNetwork(net: Network, source: nat, sink: nat, maxFlow: (Network, Node, Node) -> int, ghost rank: Node -> nat)
    returns (r: Result<int>, ghost flow: Network, ghost residual: Network)
    requires net.Valid() && Terminal(source) in net.nodes
    requires forall a | a in net.labels :: rank(a.0) > rank(a.1)
    ensures r.Failure? ==> r.error == "StopIteration" || r.error == "AssertionError"
    ensures r.Failure? && r.error == "AssertionError" ==> Kept(net, source, sink, flow) && Stuck(net, flow, source) && !IsValidFlow(net, source, sink, flow)
    ensures r.Success? ==> FlowValue(net, source, sink, maxFlow, flow, residual, r.value)
  {
    RankedNoAntiparallel(net, rank);
    flow, residual := net, net;
    var feasible := BuildFeasibleFlow(net, source, sink, rank);
    if feasible.Failure? {
      return Failure(feasible.error), flow, residual;
    }
    var found := feasible.value;
    flow := found;
    var valid := CheckValidFlow(net, source, sink, found);
    if !valid {
      return Failure("AssertionError"), flow, residual;
    }
    var value := SumIncident(found, Terminal(source), false);
    var res := MakeResidualNetwork(net, found, value);
    residual := res;
    r := Success(value - maxFlow(res, Terminal(sink), Terminal(source)));
  }

  /** Ranks the vertices of the orientation of `order` once a source and a sink are added:
      the sink lowest, the source highest, and vertices earlier in `order` above later
      ones. */
  function OrderRank(order: seq<nat>, source: nat, sink: nat): nat -> nat {
    x => if x == sink then 0 else if x == source then |order| + 2
         else if x in order then |order| - IndexOf(order, x) + 1 else 1
  }

  /** What `thinness_from_compatibility_graph` hands to `min_flow`: the orientation of `g`
      along `order` with a source and then a sink added. */
  ghost predicate Prepared(g: Graph, order: seq<nat>, d: Digraph, d1: Digraph, source: nat, d2: Digraph, sink: nat) {
    g.Valid()
    && (forall u, v | g.HasEdge(u, v) :: u in order && v in order)
    && (forall x: nat :: x in d.vertices <==> x < |g.vertices| || Covered(g, x))
    && (forall a: nat, b: nat :: (a, b) in d.arcs <==> g.HasEdge(a, b) && IndexOf(order, a) < IndexOf(order, b))
    && source !in d.vertices && d1.vertices == d.vertices + {source}
    && (forall a, b :: (a, b) in d1.arcs <==> (a, b) in d.arcs || (a == source && b in d.Sources()))
    && sink !in d1.vertices && d2.vertices == d1.vertices + {sink}
    && (forall a, b :: (a, b) in d2.arcs <==> (a, b) in d1.arcs || (b == sink && a in d1.Sinks()))
  }

  /** The orientation only joins vertices it has. */
  lemma ArcEndsAreVertices(g: Graph, order: seq<nat>, d: Digraph, a: nat, b: nat)
    requires forall u, v | g.HasEdge(u, v) :: u in order && v in order
    requires forall x: nat :: x in d.vertices <==> x < |g.vertices| || Covered(g, x)
    requires forall a: nat, b: nat :: (a, b) in d.arcs <==> g.HasEdge(a, b) && IndexOf(order, a) < IndexOf(order, b)
    requires (a, b) in d.arcs
    ensures a in d.vertices && b in d.vertices && a in order && b in order
  {
    assert g.HasEdge(a, b) && g.HasEdge(b, a);
  }

  /** The rank falls along each arc of the orientation itself. */
  lemma OrientedArcRanked(g: Graph, order: seq<nat>, d: Digraph, source: nat, sink: nat, a: nat, b: nat)
    requires forall u, v | g.HasEdge(u, v) :: u in order && v in order
    requires forall x: nat :: x in d.vertices <==> x < |g.vertices| || Covered(g, x)
    requires forall a: nat, b: nat :: (a, b) in d.arcs <==> g.HasEdge(a, b) && IndexOf(order, a) < IndexOf(order, b)
    requires source !in d.vertices && sink !in d.vertices
    requires (a, b) in d.arcs
    ensures a in d.vertices && b in d.vertices
    ensures OrderRank(order, source, sink)(a) > OrderRank(order, source, sink)(b)
  {
    ArcEndsAreVertices(g, order, d, a, b);
    assert a != source && a != sink && b != source && b != sink;
    assert OrderRank(order, source, sink)(a) == |order| - IndexOf(order, a) + 1;
    assert OrderRank(order, source, sink)(b) == |order| - IndexOf(order, b) + 1;
  }

  /** The rank falls along every arc. */
  lemma PreparedRanked(g: Graph, order: seq<nat>, d: Digraph, d1: Digraph, source: nat, d2: Digraph, sink: nat)
    requires Prepared(g, order, d, d1, source, d2, sink)
    ensures source != sink
    ensures forall e | e in d2.arcs :: OrderRank(order, source, sink)(e.0) > OrderRank(order, source, sink)(e.1)
  {
    var dr := OrderRank(order, source, sink);
    forall e | e in d2.arcs
      ensures dr(e.0) > dr(e.1)
    {
      var (a, b) := e;
      if (a, b) in d.arcs {
        OrientedArcRanked(g, order, d, source, sink, a, b);
      } else if (a, b) in d1.arcs {
        assert a == source && b in d.vertices;
      } else {
        assert b == sink && a in d1.vertices;
      }
    }
  }

  /** Every vertex of the orientation is entered from the source or from a vertex before
      it in the order. */
  lemma PreparedRooted(g: Graph, order: seq<nat>, d: Digraph, d1: Digraph, source: nat, d2: Digraph, sink: nat)
    requires Prepared(g, order, d, d1, source, d2, sink)
    ensures Rooted(d2, source, sink, OrderRank(order, source, sink))
  {
    var dr := OrderRank(order, source, sink);
    forall v | v in Inner(d2, source, sink)
      ensures (source, v) in d2.arcs || exists u :: u in Inner(d2, source, sink) && (u, v) in d2.arcs && dr(u) > dr(v)
    {
      assert v in d.vertices;
      if v !in d.Sources() {
        var e :| e in d.arcs && e.1 == v;
        OrientedArcRanked(g, order, d, source, sink, e.0, e.1);
        assert e.0 in Inner(d2, source, sink) && (e.0, v) in d2.arcs;
      } else {
        assert (source, v) in d1.arcs;
      }
    }
  }

  /** An edge of `g` with an end missing from `order`: `order.index` raises on it. */
  predicate OutOfOrder(g: Graph, order: seq<nat>) {
    exists e | e in g.edges :: e.0 !in order || e.1 !in order
  }

  /** `thinness_from_compatibility_graph`: the complement of the compatibility graph is
      oriented along `order`, a source and a sink are added, and the minimum flow is
      returned. `order.index` raises `ValueError` on an edge of the complement with an end
      outside `order`; otherwise the `assert` of `min_flow` always holds, and only Sage's
      `next` could raise. */
  method ThinnessFromCompatibilityGraph(compat: Graph, order: seq<nat>, maxFlow: (Network, Node, Node) -> int)
    returns (r: Result<int>)
    ensures r.Failure? && r.error == "ValueError" <==> OutOfOrder(Complement(compat), order)
    ensures r.Failure? ==> r.error == "ValueError" || r.error == "StopIteration"
    ensures r.Success? ==> FlowOfOrientation(Complement(compat), order, maxFlow, r.value)
  {
    var complement := Complement(compat);
    if OutOfOrder(complement, order) {
      return Failure("ValueError");
    }
    assert forall u, v | complement.HasEdge(u, v) :: u in order && v in order;
    var d := BuildTransitiveOrientation(complement, order);
    var (d1, source) := AddSource(d);
    var (d2, sink) := AddSink(d1);
    PreparedRanked(complement, order, d, d1, source, d2, sink);
    PreparedRooted(complement, order, d, d1, source, d2, sink);
    ghost var net, flow, residual;
    r, net, flow, residual := MinFlow(d2, source, sink, maxFlow, OrderRank(order, source, sink));
    if r.Success? {
      ThinnessWitness(complement, order, d, d1, source, d2, sink, maxFlow, net, flow, residual, r.value);
    }
  }

  /** The value of an oriented complement: the flow value of its network. */
  ghost predicate FlowOfOrientation(g: Graph, order: seq<nat>, maxFlow: (Network, Node, Node) -> int, value: int) {
    exists d, d1, source, d2, sink, net, flow, residual ::
      Prepared(g, order, d, d1, source, d2, sink) && NetworkOf(d2, source, sink, net) &&
      FlowValue(net, source, sink, maxFlow, flow, residual, value)
  }

  lemma ThinnessWitness(g: Graph, order: seq<nat>, d: Digraph, d1: Digraph, source: nat, d2: Digraph, sink: nat,
                        maxFlow: (Network, Node, Node) -> int, net: Network, flow: Network, residual: Network, value: int)
    requires Prepared(g, order, d, d1, source, d2, sink) && NetworkOf(d2, source, sink, net)
    requires FlowValue(net, source, sink, maxFlow, flow, residual, value)
    ensures FlowOfOrientation(g, order, maxFlow, value)
  {
  }

  /** `thinness_of_order`: the minimum flow on the compatibility graph of `g` and `order`.
      When `order` holds every vertex of `g`, nothing but Sage's `next` can raise. */
  method ThinnessOfOrder(g: Graph, order: seq<nat>, maxFlow: (Network, Node, Node) -> int) returns (r: Result<int>)
    ensures (forall v | v in g.vertices :: v in order) && r.Failure? ==> r.error == "StopIteration"
    ensures r.Success? ==> FlowOfOrientation(Complement(Compatibility.CompatibilityGraph(g, order)), order, maxFlow, r.value)
  {
    var compat, labels := Compatibility.BuildCompatibilityGraph(g, order);
    Compatibility.CompatibilityVertices(g, order);
    forall x: nat, y: nat | Compatibility.Joined(g, order, x, y)
      ensures x in order
    {
      Compatibility.JoinedInOrder(g, order, x, y);
    }
    r := ThinnessFromCompatibilityGraph(compat, order, maxFlow);
  }
}
