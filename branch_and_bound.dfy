/** thinness/branch_and_bound.py: a search over orders built by appending one vertex at a
    time. The compatibility graph of the current prefix is kept up to date in place: when a
    vertex is appended it is joined to every earlier vertex that some still unplaced vertex
    separates from it, and it is deleted again when the branch is left. A full order is
    accepted with the classes of a colouring of its compatibility graph. */
module BranchAndBound {
  import opened Graphs
  import opened Wrappers
  import opened ConsistentSolution
  import opened Compatibility
  import opened Verify
  import opened VertexSeparation

  /** The Python list `order`, which the search grows with `append` and shrinks with `pop`. */
  class OrderList {
    var items: seq<nat>

    constructor ()
      ensures items == []
    {
      items := [];
    }

    method Append(v: nat)
      modifies this
      ensures items == old(items) + [v]
    {
      items := items + [v];
    }

    method Pop() returns (v: nat)
      requires items != []
      modifies this
      ensures items == old(items)[..|old(items)| - 1] && v == old(items)[|old(items)| - 1]
    {
      v := items[|items| - 1];
      items := items[..|items| - 1];
    }
  }

  /** `set(order)`. */
  function Elems(s: seq<nat>): set<nat> {
    set x | x in s
  }

  /** The search's own invariant on `order`: distinct vertices of the graph. */
  predicate Ordered(g: Graph, order: seq<nat>) {
    Distinct(order) && forall i | 0 <= i < |order| :: order[i] in g.vertices
  }

  /** `_minimum_partition` is Sage's `coloring()`, outside this model: it is a parameter
      that must return a proper colouring of any graph. */
  ghost predicate ColoringOracle(coloring: Graph -> seq<set<nat>>) {
    forall h: Graph :: ProperColoring(h, coloring(h))
  }

  // ---------------------------------------------------------------------------------------
  // _add_vertex_to_compatibility_graph

  /** The ordered vertices that `_add_vertex_to_compatibility_graph` joins to `x`: the
      neighbours, among `order`, of a suffix vertex other than `x` that is not adjacent to
      `x`. */
  function Linked(g: Graph, order: seq<nat>, suffix: set<nat>, x: nat): set<nat> {
    set n | n in order && exists s | s in suffix :: s != x && !g.HasEdge(s, x) && n in g.Neighbors(s)
  }

  /** `h` after `add_vertex(x)` and `add_edge(n, x)` for each `n` in `links`: an edge
      already present in either direction is not added twice. */
  function Extend(h: Graph, links: set<nat>, x: nat): Graph {
    Graph(h.vertices + {x} + links, h.edges + set n | n in links && !h.HasEdge(n, x) :: (n, x))
  }

  /** Adding one more edge to `x` is extending by one more link. */
  lemma ExtendAddEdge(h: Graph, links: set<nat>, x: nat, n: nat)
    ensures Extend(h, links, x).AddEdge(n, x) == Extend(h, links + {n}, x)
  {
    var e := Extend(h, links, x);
    if n !in links && !h.HasEdge(n, x) {
      assert !e.HasEdge(n, x);
    }
  }

  /** `_add_vertex_to_compatibility_graph(graph, compatibility_graph, order, suffix_vertices,
      vertex)`: the vertex is added, then joined to every vertex it is linked to. */
  method AddVertexToCompatibilityGraph(g: Graph, compat: MutableGraph, order: seq<nat>, suffix: set<nat>, x: nat)
    modifies compat
    ensures compat.Value() == Extend(old(compat.Value()), Linked(g, order, suffix, x), x)
  {
    ghost var h := compat.Value();
    compat.AddVertex(x);
    assert compat.Value() == Extend(h, {}, x);
    var rest := suffix;
    while rest != {}
      invariant rest <= suffix
      invariant compat.Value() == Extend(h, Linked(g, order, suffix - rest, x), x)
      decreases rest
    {
      var s :| s in rest;
      ghost var linked := Linked(g, order, suffix - rest, x);
      if s != x && !g.HasEdge(s, x) {
        var neighbors := g.Neighbors(s) * Elems(order);
        var todo := neighbors;
        while todo != {}
          invariant todo <= neighbors
          invariant compat.Value() == Extend(h, linked + (neighbors - todo), x)
          decreases todo
        {
          var n :| n in todo;
          ExtendAddEdge(h, linked + (neighbors - todo), x, n);
          compat.AddEdge(n, x);
          assert linked + (neighbors - todo) + {n} == linked + (neighbors - (todo - {n}));
          todo := todo - {n};
        }
        LinkedStep(g, order, suffix - rest, x, s);
      } else {
        LinkedSkip(g, order, suffix - rest, x, s);
      }
      assert suffix - (rest - {s}) == (suffix - rest) + {s};
      rest := rest - {s};
    }
    assert suffix - rest == suffix;
  }

  /** A suffix vertex that qualifies adds its ordered neighbours to the links. */
  lemma LinkedStep(g: Graph, order: seq<nat>, done: set<nat>, x: nat, s: nat)
    requires s != x && !g.HasEdge(s, x)
    ensures Linked(g, order, done + {s}, x) == Linked(g, order, done, x) + g.Neighbors(s) * Elems(order)
  {
  }

  /** A suffix vertex that is `x` itself or adjacent to it adds nothing. */
  lemma LinkedSkip(g: Graph, order: seq<nat>, done: set<nat>, x: nat, s: nat)
    requires s == x || g.HasEdge(s, x)
    ensures Linked(g, order, done + {s}, x) == Linked(g, order, done, x)
  {
  }

  // ---------------------------------------------------------------------------------------
  // The compatibility graph of a prefix

  /** The vertex at position b was joined to the one at position a < b when it was
      appended: some vertex not yet placed then (not among the first b + 1) is adjacent to
      the earlier one and not to the later one. */
  ghost predicate AddedEdge(g: Graph, order: seq<nat>, a: nat, b: nat)
    requires a < b < |order|
  {
    exists s | s in g.vertices - Elems(order[..b + 1]) :: IsIncompatibleTriple(g, order[a], order[b], s)
  }

  /** The compatibility graph the search holds for the prefix `order`: its vertices, and an
      edge from each vertex to every earlier one it was joined to when it was appended. */
  ghost function IncrementalGraph(g: Graph, order: seq<nat>): Graph {
    Graph(Elems(order), set a, b | 0 <= a < b < |order| && AddedEdge(g, order, a, b) :: (order[a], order[b]))
  }

  /** Appending `x` to the prefix extends the graph of the prefix by the links of `x` to
      the vertices of the suffix that is left: this is what
      `_add_vertex_to_compatibility_graph` is called with. */
  lemma ExtendTracks(g: Graph, order: seq<nat>, x: nat)
    requires Ordered(g, order) && x in g.vertices && x !in order
    ensures Extend(IncrementalGraph(g, order), Linked(g, order, g.vertices - Elems(order), x), x)
         == IncrementalGraph(g, order + [x])
  {
    var h := IncrementalGraph(g, order);
    var links := Linked(g, order, g.vertices - Elems(order), x);
    var o := order + [x];
    var next := IncrementalGraph(g, o);
    assert Elems(o) == Elems(order) + {x};
    forall e | e in next.edges
      ensures e in Extend(h, links, x).edges
    {
      var a, b :| 0 <= a < b < |o| && AddedEdge(g, o, a, b) && e == (o[a], o[b]);
      if b < |order| {
        AddedEdgeAppend(g, order, x, a, b);
      } else {
        AddedEdgeLast(g, order, x, a);
      }
    }
    forall e | e in Extend(h, links, x).edges
      ensures e in next.edges
    {
      if e in h.edges {
        var a, b :| 0 <= a < b < |order| && AddedEdge(g, order, a, b) && e == (order[a], order[b]);
        AddedEdgeAppend(g, order, x, a, b);
      } else {
        var a :| 0 <= a < |order| && order[a] == e.0;
        AddedEdgeLast(g, order, x, a);
      }
    }
  }

  /** Appending a vertex does not change which earlier pairs were joined. */
  lemma AddedEdgeAppend(g: Graph, order: seq<nat>, x: nat, a: nat, b: nat)
    requires a < b < |order|
    ensures AddedEdge(g, order + [x], a, b) == AddedEdge(g, order, a, b)
  {
    assert (order + [x])[..b + 1] == order[..b + 1];
  }

  /** The appended vertex is joined to exactly its links. */
  lemma AddedEdgeLast(g: Graph, order: seq<nat>, x: nat, a: nat)
    requires Ordered(g, order) && a < |order|
    ensures AddedEdge(g, order + [x], a, |order|) <==> order[a] in Linked(g, order, g.vertices - Elems(order), x)
  {
    var o := order + [x];
    assert o[..|order| + 1] == o;
    assert Elems(o) == Elems(order) + {x};
    if AddedEdge(g, o, a, |order|) {
      var s :| s in g.vertices - Elems(o) && IsIncompatibleTriple(g, order[a], x, s);
      assert order[a] in g.Neighbors(s) && order[a] in order;
      assert s in g.vertices - Elems(order) && s != x && !g.HasEdge(s, x);
    }
    if order[a] in Linked(g, order, g.vertices - Elems(order), x) {
      var s :| s in g.vertices - Elems(order) && s != x && !g.HasEdge(s, x) && order[a] in g.Neighbors(s);
      assert s in g.vertices - Elems(o[..|order| + 1]);
      assert IsIncompatibleTriple(g, o[a], o[|order|], s);
    }
  }

  /** Deleting the vertex appended last gives back the graph of the shorter prefix. */
  lemma DeleteRestores(g: Graph, order: seq<nat>, x: nat)
    requires x !in order
    ensures IncrementalGraph(g, order + [x]).DeleteVertex(x) == IncrementalGraph(g, order)
  {
    var o := order + [x];
    assert Elems(o) == Elems(order) + {x};
    forall e | e in IncrementalGraph(g, o).edges && e.0 != x && e.1 != x
      ensures e in IncrementalGraph(g, order).edges
    {
      var a, b :| 0 <= a < b < |o| && AddedEdge(g, o, a, b) && e == (o[a], o[b]);
      AddedEdgeAppend(g, order, x, a, b);
    }
    forall e | e in IncrementalGraph(g, order).edges
      ensures e in IncrementalGraph(g, o).edges && e.0 != x && e.1 != x
    {
      var a, b :| 0 <= a < b < |order| && AddedEdge(g, order, a, b) && e == (order[a], order[b]);
      AddedEdgeAppend(g, order, x, a, b);
    }
  }

  /** For a full order, the graph built one vertex at a time is the compatibility graph of
      `build_compatibility_graph`: the vertices still unplaced when a vertex was appended
      are exactly the vertices after it. */
  lemma IncrementalMatchesBatch(g: Graph, order: seq<nat>)
    requires Ordered(g, order) && Elems(order) == g.vertices
    ensures IncrementalGraph(g, order).vertices == CompatibilityGraph(g, order).vertices
    ensures forall u: nat, v: nat :: IncrementalGraph(g, order).HasEdge(u, v) <==> CompatibilityGraph(g, order).HasEdge(u, v)
  {
    CompatibilityVertices(g, order);
    CompatibilityEdges(g, order);
    forall u: nat, v: nat
      ensures (u, v) in IncrementalGraph(g, order).edges <==> HasIncompatibleTriple(g, order, u, v)
    {
      EdgeIffTriple(g, order, u, v);
    }
  }

  lemma EdgeIffTriple(g: Graph, order: seq<nat>, u: nat, v: nat)
    requires Ordered(g, order) && Elems(order) == g.vertices
    ensures (u, v) in IncrementalGraph(g, order).edges <==> HasIncompatibleTriple(g, order, u, v)
  {
    if (u, v) in IncrementalGraph(g, order).edges {
      EdgeToTriple(g, order, u, v);
    }
    if HasIncompatibleTriple(g, order, u, v) {
      TripleToEdge(g, order, u, v);
    }
  }

  lemma EdgeToTriple(g: Graph, order: seq<nat>, u: nat, v: nat)
    requires Elems(order) == g.vertices && (u, v) in IncrementalGraph(g, order).edges
    ensures HasIncompatibleTriple(g, order, u, v)
  {
    var a, b :| 0 <= a < b < |order| && AddedEdge(g, order, a, b) && (u, v) == (order[a], order[b]);
    EdgeHasTriple(g, order, a, b);
  }

  lemma TripleToEdge(g: Graph, order: seq<nat>, u: nat, v: nat)
    requires Ordered(g, order) && HasIncompatibleTriple(g, order, u, v)
    ensures (u, v) in IncrementalGraph(g, order).edges
  {
    var i, j, k :| 0 <= i < j < k < |order| && order[i] == u && order[j] == v &&
      IsIncompatibleTriple(g, u, v, order[k]);
    TripleHasEdge(g, order, i, j, k);
  }

  /** The vertex that joined positions a and b stands after b. */
  lemma EdgeHasTriple(g: Graph, order: seq<nat>, a: nat, b: nat)
    requires Elems(order) == g.vertices && a < b < |order| && AddedEdge(g, order, a, b)
    ensures HasIncompatibleTriple(g, order, order[a], order[b])
  {
    var s :| s in g.vertices - Elems(order[..b + 1]) && IsIncompatibleTriple(g, order[a], order[b], s);
    var k := LaterPosition(order, b, s);
  }

  /** A later vertex w of an incompatible triple (u, v, w) was unplaced when v was
      appended. */
  lemma TripleHasEdge(g: Graph, order: seq<nat>, i: nat, j: nat, k: nat)
    requires Ordered(g, order) && i < j < k < |order| && IsIncompatibleTriple(g, order[i], order[j], order[k])
    ensures AddedEdge(g, order, i, j)
  {
    NotInPrefix(order, j, k);
  }

  /** A vertex of an order that is not among its first b + 1 entries stands after
      position b. */
  lemma LaterPosition(order: seq<nat>, b: nat, s: nat) returns (k: nat)
    requires b < |order| && s in order && s !in Elems(order[..b + 1])
    ensures b < k < |order| && order[k] == s
  {
    k :| 0 <= k < |order| && order[k] == s;
    forall i | 0 <= i <= b
      ensures order[i] != s
    {
      assert order[..b + 1][i] == order[i];
    }
  }

  /** In a distinct order, the entry at position k is not among the first j + 1 when
      j < k. */
  lemma NotInPrefix(order: seq<nat>, j: nat, k: nat)
    requires Distinct(order) && j < k < |order|
    ensures order[k] !in Elems(order[..j + 1])
  {
    var prefix := order[..j + 1];
    forall i | 0 <= i < |prefix|
      ensures prefix[i] != order[k]
    {
      assert prefix[i] == order[i];
    }
  }

  /** A distinct sequence has as many elements as entries. */
  lemma {:induction false} DistinctSize(s: seq<nat>)
    requires Distinct(s)
    ensures |Elems(s)| == |s|
  {
    if s != [] {
      var init := s[..|s| - 1];
      var x := s[|s| - 1];
      assert Distinct(init);
      DistinctSize(init);
      assert Elems(s) == Elems(init) + {x};
      forall i | 0 <= i < |init|
        ensures init[i] != x
      {
        assert init[i] == s[i];
      }
    }
  }

  /** A full order with the classes of a proper colouring of its compatibility graph is a
      consistent solution: an incompatible triple (u, v, w) joins u and v, so they get
      different colours. */
  lemma LeafConsistent(g: Graph, order: seq<nat>, classes: seq<set<nat>>)
    requires Ordered(g, order) && Elems(order) == g.vertices
    requires ProperColoring(IncrementalGraph(g, order), classes)
    ensures Consistent(g, Solution(order, classes))
  {
    var s := Solution(order, classes);
    var h := IncrementalGraph(g, order);
    DistinctSize(order);
    forall i, j, k | 0 <= i < j < k < |order|
      ensures !Violates(g, s, order[i], order[j], order[k])
    {
      if IsIncompatibleTriple(g, order[i], order[j], order[k]) {
        NotInPrefix(order, j, k);
        assert AddedEdge(g, order, i, j);
        assert h.HasEdge(order[i], order[j]);
        ColoredApart(h, classes, order[i], order[j]);
      }
    }
  }

  /** The two ends of an edge of a properly coloured graph lie in different classes. */
  lemma ColoredApart(h: Graph, classes: seq<set<nat>>, u: nat, v: nat)
    requires ProperColoring(h, classes) && h.HasEdge(u, v) && u != v && u in h.vertices && v in h.vertices
    ensures Solution([], classes).PartOf(u) != Solution([], classes).PartOf(v)
  {
    var s := Solution([], classes);
    var p :| 0 <= p < |classes| && u in classes[p];
    assert s.PartOf(u).Some?;
    var q := s.PartOf(u).value;
    assert v !in classes[q];
  }

  // ---------------------------------------------------------------------------------------
  // The search

  /** `_branch_and_bound(graph, compatibility_graph, order, lower_bound, upper_bound)`.
      A full order is accepted when its colouring has at most `upper_bound` classes.
      Otherwise each unplaced vertex is tried next; after every solution found the bound
      drops to one below its thinness, and the scan stops once the bound is below
      `lower_bound`. The order and the compatibility graph are left as they were found. */
  method Search(g: Graph, compat: MutableGraph, order: OrderList, lowerBound: int, upperBound: int,
                coloring: Graph -> seq<set<nat>>)
    returns (r: Option<Solution>)
    requires ColoringOracle(coloring) && Ordered(g, order.items)
    requires compat.Value() == IncrementalGraph(g, order.items)
    modifies compat, order
    ensures order.items == old(order.items) && compat.Value() == old(compat.Value())
    ensures r.Some? ==> Consistent(g, r.value) && r.value.Thinness() <= upperBound
    ensures r.Some? ==> |order.items| <= |r.value.order| && r.value.order[..|order.items|] == order.items
    decreases |g.vertices - Elems(order.items)|, 1
  {
    var suffix := g.vertices - Elems(order.items);
    if suffix == {} {
      var partition := coloring(compat.Value());
      var classesUsed := |partition|;
      if classesUsed <= upperBound {
        FullOrder(g, order.items);
        LeafConsistent(g, order.items, partition);
        return Some(Solution(order.items, partition));
      }
    }
    var best: Option<Solution> := None;
    var bound := upperBound;
    var rest := suffix;
    while rest != {}
      invariant rest <= suffix
      invariant order.items == old(order.items) && compat.Value() == old(compat.Value())
      invariant best.None? ==> bound == upperBound
      invariant best.Some? ==> Consistent(g, best.value) && best.value.Thinness() == bound + 1 <= upperBound
      invariant best.Some? ==> |order.items| <= |best.value.order| && best.value.order[..|order.items|] == order.items
      decreases rest
    {
      var vertex :| vertex in rest;
      var current := GetBestSolutionWithVertex(g, compat, order, suffix, lowerBound, bound, vertex, coloring);
      if current.Some? {
        best := current;
        bound := best.value.Thinness() - 1;
        if bound < lowerBound {
          return best;
        }
      }
      rest := rest - {vertex};
    }
    return best;
  }

  /** `_get_best_solution_with_vertex`: append `vertex`, colour the compatibility graph,
      search further only when the colouring is within the bound (passing the classes used
      on as the new lower bound when larger), then pop `vertex` and delete it from the
      compatibility graph. */
  method GetBestSolutionWithVertex(g: Graph, compat: MutableGraph, order: OrderList, suffix: set<nat>,
                                   lowerBound: int, upperBound: int, vertex: nat,
                                   coloring: Graph -> seq<set<nat>>)
    returns (r: Option<Solution>)
    requires ColoringOracle(coloring) && Ordered(g, order.items)
    requires compat.Value() == IncrementalGraph(g, order.items)
    requires suffix == g.vertices - Elems(order.items) && vertex in suffix
    modifies compat, order
    ensures order.items == old(order.items) && compat.Value() == old(compat.Value())
    ensures r.Some? ==> Consistent(g, r.value) && r.value.Thinness() <= upperBound
    ensures r.Some? ==> |order.items| < |r.value.order| && r.value.order[..|order.items|] == order.items
    ensures r.Some? ==> r.value.order[|order.items|] == vertex
    decreases |g.vertices - Elems(order.items)|, 0
  {
    ghost var before := order.items;
    Push(g, compat, order, suffix, vertex);
    var partition := coloring(compat.Value());
    var classesUsed := |partition|;
    r := None;
    if classesUsed <= upperBound {
      r := Search(g, compat, order, Max(lowerBound, classesUsed), upperBound, coloring);
      if r.Some? {
        ShorterPrefix(r.value.order, before, vertex);
      }
    }
    Pop(g, compat, order, vertex);
  }

  /** The first half of `_get_best_solution_with_vertex`: the compatibility graph gains
      `vertex` and its links, and `vertex` is appended to the order. */
  method Push(g: Graph, compat: MutableGraph, order: OrderList, suffix: set<nat>, vertex: nat)
    requires Ordered(g, order.items) && compat.Value() == IncrementalGraph(g, order.items)
    requires suffix == g.vertices - Elems(order.items) && vertex in suffix
    modifies compat, order
    ensures order.items == old(order.items) + [vertex] && Ordered(g, order.items)
    ensures compat.Value() == IncrementalGraph(g, order.items)
    ensures |g.vertices - Elems(order.items)| < |g.vertices - Elems(old(order.items))|
  {
    ghost var before := order.items;
    AddVertexToCompatibilityGraph(g, compat, order.items, suffix, vertex);
    ExtendTracks(g, before, vertex);
    order.Append(vertex);
    AppendOrdered(g, before, vertex);
  }

  /** The second half: `order.pop()` and `compatibility_graph.delete_vertex(vertex)` undo
      the first. */
  method Pop(g: Graph, compat: MutableGraph, order: OrderList, vertex: nat)
    requires order.items != [] && order.items[|order.items| - 1] == vertex
    requires vertex !in order.items[..|order.items| - 1]
    requires compat.Value() == IncrementalGraph(g, order.items)
    modifies compat, order
    ensures order.items == old(order.items)[..|old(order.items)| - 1]
    ensures compat.Value() == IncrementalGraph(g, order.items)
  {
    ghost var before := order.items[..|order.items| - 1];
    assert order.items == before + [vertex];
    var _ := order.Pop();
    DeleteRestores(g, before, vertex);
    compat.DeleteVertex(vertex);
  }

  /** A sequence that starts with `prefix + [x]` starts with `prefix`, then `x`. */
  lemma ShorterPrefix(s: seq<nat>, prefix: seq<nat>, x: nat)
    requires |prefix| + 1 <= |s| && s[..|prefix| + 1] == prefix + [x]
    ensures s[..|prefix|] == prefix && s[|prefix|] == x
  {
    assert s[..|prefix|] == s[..|prefix| + 1][..|prefix|];
  }

  /** An order of distinct vertices that leaves none unplaced holds exactly the vertices. */
  lemma FullOrder(g: Graph, order: seq<nat>)
    requires Ordered(g, order) && g.vertices - Elems(order) == {}
    ensures Elems(order) == g.vertices
  {
    forall v | v in Elems(order)
      ensures v in g.vertices
    {
      var i :| 0 <= i < |order| && order[i] == v;
    }
    forall v | v in g.vertices
      ensures v in Elems(order)
    {
      assert v !in g.vertices - Elems(order);
    }
  }

  /** Appending an unplaced vertex keeps the order distinct and leaves one vertex fewer
      to place. */
  lemma AppendOrdered(g: Graph, order: seq<nat>, x: nat)
    requires Ordered(g, order) && x in g.vertices - Elems(order)
    ensures Ordered(g, order + [x])
    ensures |g.vertices - Elems(order + [x])| < |g.vertices - Elems(order)|
  {
    assert Elems(order + [x]) == Elems(order) + {x};
    assert g.vertices - Elems(order + [x]) == (g.vertices - Elems(order)) - {x};
  }

  function Max(a: int, b: int): (m: int)
    ensures m >= a && m >= b && (m == a || m == b)
  {
    if a >= b then a else b
  }

  /** `upper_bound or graph.order() - 1`: a missing bound and a bound of 0 both fall back
      to one less than the number of vertices. */
  function DefaultUpperBound(upperBound: Option<int>, n: nat): (r: int)
    ensures upperBound.Some? && upperBound.value != 0 ==> r == upperBound.value
    ensures upperBound.None? || upperBound.value == 0 ==> r == n - 1
  {
    if upperBound.Some? && upperBound.value != 0 then upperBound.value else n - 1
  }

  function Min(a: int, b: int): (m: int)
    ensures m <= a && m <= b && (m == a || m == b)
  {
    if a <= b then a else b
  }

  /** `calculate_thinness_with_branch_and_bound(graph, lower_bound, upper_bound)`. Sage's
      `vertex_separation` is outside this model: its cost and linear layout are parameters.
      The search starts from an empty order and an empty compatibility graph, looks only
      for solutions better than the vertex-separation seed, and returns the seed when it
      finds none. The seed is returned beside the result so that the contract can name it.
      It is built with the negative marker for vertices without a neighbour, which makes it
      consistent; the result is then consistent either way. */
  method CalculateThinnessWithBranchAndBound(g: Graph, lowerBound: int, upperBound: Option<int>,
                                             separation: nat, layout: seq<nat>,
                                             coloring: Graph -> seq<set<nat>>)
    returns (s: Solution, seed: Solution)
    requires Numbered(g) && g.Valid() && IsLayout(layout, g.Order()) && ColoringOracle(coloring)
    ensures SeparationSolution(g, layout, -1, seed)
    ensures Consistent(g, s) && s.Thinness() <= seed.Thinness()
    ensures s == seed || (s.Thinness() < seed.Thinness() && s.Thinness() <= DefaultUpperBound(upperBound, g.Order()))
  {
    var bound := DefaultUpperBound(upperBound, g.Order());
    var initial := SolutionFromVertexSeparation(g, layout, separation, -1);
    seed := initial;
    var compat := new MutableGraph(Graph({}, {}));
    var order := new OrderList();
    assert IncrementalGraph(g, []) == Graph({}, {});
    var found := Search(g, compat, order, lowerBound, Min(bound, initial.Thinness() - 1), coloring);
    s := if found.Some? then found.value else initial;
  }
}
