/** Simple undirected graphs as used throughout the repository (Sage and networkx graphs).
    A graph is a finite set of integer vertices and a set of vertex pairs; the pair (u, v)
    and the pair (v, u) stand for the same undirected edge. */
module Graphs {

  datatype Graph = Graph(vertices: set<nat>, edges: set<(nat, nat)>)
  {
    /** Sage's `has_edge`: symmetric, and false for vertices that are not in the graph. */
    predicate HasEdge(u: nat, v: nat) {
      (u, v) in edges || (v, u) in edges
    }

    /** A simple graph: edges join two distinct vertices of the graph. */
    predicate Valid() {
      forall e | e in edges :: e.0 in vertices && e.1 in vertices && e.0 != e.1
    }

    /** Sage's `order()`: the number of vertices. */
    function Order(): nat {
      |vertices|
    }

    /** The open neighbourhood of `v`. */
    function Neighbors(v: nat): set<nat> {
      set u | u in vertices && HasEdge(u, v)
    }

    /** The closed neighbourhood of `v` (`neighbors(v, closed=True)`). */
    function ClosedNeighbors(v: nat): set<nat> {
      Neighbors(v) + (if v in vertices then {v} else {})
    }

    function Degree(v: nat): nat {
      |Neighbors(v)|
    }

    /** Sage's `add_vertex(v)`. */
    function AddVertex(v: nat): Graph {
      Graph(vertices + {v}, edges)
    }

    /** Sage's `add_edge(u, v)`: the endpoints are added as vertices when missing. */
    function AddEdge(u: nat, v: nat): Graph {
      if HasEdge(u, v) then Graph(vertices + {u, v}, edges)
      else Graph(vertices + {u, v}, edges + {(u, v)})
    }

    /** Sage's `delete_vertex(v)`: the vertex and every edge incident to it go. */
    function DeleteVertex(v: nat): Graph {
      Graph(vertices - {v}, set e | e in edges && e.0 != v && e.1 != v)
    }

    /** The subgraph induced by `keep`. */
    function Induced(keep: set<nat>): Graph {
      Graph(vertices * keep, set e | e in edges && e.0 in keep && e.1 in keep)
    }
  }

  /** Two graphs are the same graph when they have the same vertices and adjacency. */
  predicate SameGraph(g: Graph, h: Graph) {
    g.vertices == h.vertices &&
    (forall u, v | u in g.vertices && v in g.vertices :: g.HasEdge(u, v) == h.HasEdge(u, v))
  }

  /** The vertices 0..n-1. */
  function Range(n: nat): (r: set<nat>)
    ensures forall v: nat :: v in r <==> v < n
  {
    if n == 0 then {} else Range(n - 1) + {n - 1}
  }

  /** `list(range(k))`. */
  function Iota(k: nat): (r: seq<nat>)
    ensures |r| == k && forall i | 0 <= i < k :: r[i] == i
  {
    if k == 0 then [] else Iota(k - 1) + [k - 1]
  }

  /** Python's `order.index(v)`: the first position of `v`. */
  function IndexOf(order: seq<nat>, v: nat): (i: nat)
    requires v in order
    ensures i < |order| && order[i] == v
    ensures forall k | 0 <= k < i :: order[k] != v
  {
    if order[0] == v then 0 else 1 + IndexOf(order[1..], v)
  }

  lemma RangeSize(n: nat)
    ensures |Range(n)| == n
  {
    if n > 0 {
      assert Range(n) == Range(n - 1) + {n - 1};
      RangeSize(n - 1);
    }
  }

  /** `h` is the subgraph of `g` induced by its own vertices: what is left of `g` after
      deleting vertices. */
  predicate InducedIn(g: Graph, h: Graph) {
    h.vertices <= g.vertices && h == g.Induced(h.vertices)
  }

  /** A simple graph is the subgraph it induces on all its vertices. */
  lemma InducedAll(g: Graph)
    requires g.Valid()
    ensures InducedIn(g, g)
  {
    assert g.Induced(g.vertices).edges == g.edges;
  }

  /** Deleting a vertex from an induced subgraph gives the subgraph induced by the rest. */
  lemma InducedDelete(g: Graph, h: Graph, w: nat)
    requires g.Valid() && InducedIn(g, h)
    ensures InducedIn(g, h.DeleteVertex(w))
  {
    var keep := h.vertices - {w};
    assert h.DeleteVertex(w).edges == g.Induced(keep).edges;
  }

  /** What is left of a simple graph after deleting vertices is a simple graph. */
  lemma InducedValid(g: Graph, h: Graph)
    requires g.Valid() && InducedIn(g, h)
    ensures h.Valid()
  {
  }

  /** Deleting vertices twice is deleting them once. */
  lemma InducedTransitive(g: Graph, h: Graph, k: Graph)
    requires InducedIn(g, h) && InducedIn(h, k)
    ensures InducedIn(g, k)
  {
    assert k.edges == g.Induced(k.vertices).edges;
  }

  /** A subset is no larger than the set. */
  lemma SetSizeLe(a: set<nat>, b: set<nat>)
    requires a <= b
    ensures |a| <= |b|
  {
    assert b == a + (b - a);
  }

  /** A non-empty set of integers has an element to pick. */
  lemma NonEmptyHasElement(s: set<int>)
    requires s != {}
    ensures exists x :: x in s
  {
    if forall y: int :: y !in s {
      assert false;
    }
  }

  /** `m` is the least element of `s`. */
  predicate IsLeast(m: nat, s: set<nat>) {
    m in s && forall x | x in s :: m <= x
  }

  /** The least element of a non-empty set of naturals. */
  function Min(s: set<nat>): (m: nat)
    requires s != {}
    ensures IsLeast(m, s)
  {
    MinExists(s);
    var m :| IsLeast(m, s);
    m
  }

  lemma MinExists(s: set<nat>)
    requires s != {}
    ensures exists m :: IsLeast(m, s)
  {
    var y :| y in s;
    if s == {y} {
      assert IsLeast(y, s);
    } else {
      var rest := s - {y};
      MinExists(rest);
      var m :| IsLeast(m, rest);
      var least := if y < m then y else m;
      assert IsLeast(least, s) by {
        forall x | x in s
          ensures least <= x
        {
          if x != y {
            assert x in rest;
          }
        }
      }
    }
  }

  /** Sage's `vertices()`: the vertex set as an increasing list. */
  function SortedList(s: set<nat>): (r: seq<nat>)
    ensures |r| == |s|
    ensures forall x :: x in r <==> x in s
    ensures forall i, j | 0 <= i < j < |r| :: r[i] < r[j]
    decreases |s|
  {
    if s == {} then []
    else
      var m := Min(s);
      var rest := SortedList(s - {m});
      SortedStep(s, m, rest);
      [m] + rest
  }

  /** Putting the least element in front of the sorted rest gives the sorted whole. */
  lemma SortedStep(s: set<nat>, m: nat, rest: seq<nat>)
    requires IsLeast(m, s)
    requires |rest| == |s - {m}| && forall x :: x in rest <==> x in s - {m}
    requires forall i, j | 0 <= i < j < |rest| :: rest[i] < rest[j]
    ensures |[m] + rest| == |s|
    ensures forall x :: x in [m] + rest <==> x in s
    ensures forall i, j | 0 <= i < j < |[m] + rest| :: ([m] + rest)[i] < ([m] + rest)[j]
  {
    var r := [m] + rest;
    assert |s - {m}| == |s| - 1;
    forall x
      ensures x in r <==> x in s
    {
      assert x in r <==> x == m || x in rest;
    }
    forall i, j | 0 <= i < j < |r|
      ensures r[i] < r[j]
    {
      assert r[j] == rest[j - 1] && r[j] in s - {m};
      if i > 0 {
        assert r[i] == rest[i - 1];
      }
    }
  }

  /** A colouring given as its colour classes, as Sage's `coloring()` returns it: every
      vertex is in some class and no class holds both ends of an edge between two distinct
      vertices. */
  predicate ProperColoring(h: Graph, classes: seq<set<nat>>) {
    (forall v | v in h.vertices :: exists p | 0 <= p < |classes| :: v in classes[p]) &&
    (forall p, u, v | 0 <= p < |classes| && u in classes[p] && v in classes[p] && u != v :: !h.HasEdge(u, v))
  }

  /** A mutable Sage graph, for the code that calls `add_vertex`, `add_edge` and
      `delete_vertex` on a graph object in place. */
  class MutableGraph {
    var vertices: set<nat>
    var edges: set<(nat, nat)>

    function Value(): Graph
      reads this
    {
      Graph(vertices, edges)
    }

    constructor (g: Graph)
      ensures Value() == g
    {
      vertices := g.vertices;
      edges := g.edges;
    }

    method AddVertex(v: nat)
      modifies this
      ensures Value() == old(Value()).AddVertex(v)
    {
      vertices := vertices + {v};
    }

    method AddEdge(u: nat, v: nat)
      requires u != v
      modifies this
      ensures Value() == old(Value()).AddEdge(u, v)
    {
      if !((u, v) in edges || (v, u) in edges) {
        edges := edges + {(u, v)};
      }
      vertices := vertices + {u, v};
    }

    method DeleteVertex(v: nat)
      requires v in vertices
      modifies this
      ensures Value() == old(Value()).DeleteVertex(v)
    {
      vertices := vertices - {v};
      edges := set e | e in edges && e.0 != v && e.1 != v;
    }
  }
}
