/** The modular experiments of thinness/k2_cycles.py: helpers over Sage's modular
    decomposition tree, the set partitions of a list, the value of a solution on the
    quotient of a prime node, the directed compatibility graph between its children, the
    exhaustive search for the best such solution, and the graph families (cycles of K2's,
    paths and cycles of a module) the experiments are run on. The decomposition itself is
    Sage's and is an input here. */
module K2Cycles {
  import opened Graphs
  import opened Wrappers
  import opened Itertools
  import opened ConsistentSolution
  import opened Verify

  // ---------------------------------------------------------------------------------------
  // The decomposition tree
  // ---------------------------------------------------------------------------------------

  /** The `node_type` of an inner node of Sage's modular decomposition. */
  datatype Kind = Series | Parallel | Prime

  /** A node of the decomposition: a NORMAL node's children are graph vertices, the
      children of the other nodes are nodes. */
  datatype ModNode = NormalNode(vertices: seq<nat>) | InnerNode(kind: Kind, children: seq<ModNode>)

  /** `find_a_vertex`: down the first children to a NORMAL node, then its first vertex.
      Indexing an empty list of children raises `IndexError`. */
  function FindAVertex(node: ModNode): (r: Result<nat>)
    ensures r.Failure? ==> r.error == "IndexError"
  {
    match node
    case NormalNode(vs) => if |vs| == 0 then Failure("IndexError") else Success(vs[0])
    case InnerNode(_, cs) => if |cs| == 0 then Failure("IndexError") else FindAVertex(cs[0])
  }

  /** `is_complete`: a NORMAL node, or a SERIES node all of whose children are NORMAL. */
  predicate IsComplete(node: ModNode) {
    node.NormalNode? || (node.kind == Series && forall i | 0 <= i < |node.children| :: node.children[i].NormalNode?)
  }

  /** `get_vertices`: the vertices under a node, leaf lists concatenated from left to
      right. */
  function GetVertices(node: ModNode): seq<nat>
    decreases node, 1
  {
    match node
    case NormalNode(vs) => vs
    case InnerNode(_, cs) => Chain(cs)
  }

  /** `itertools.chain.from_iterable` over the children's vertex lists. */
  function Chain(cs: seq<ModNode>): seq<nat>
    decreases cs, 0
  {
    if |cs| == 0 then [] else GetVertices(cs[0]) + Chain(cs[1..])
  }

  /** The vertex `find_a_vertex` picks is the first vertex under the node. */
  lemma {:induction false} FindAVertexIsFirst(node: ModNode)
    ensures FindAVertex(node).Success? ==> |GetVertices(node)| > 0 && FindAVertex(node).value == GetVertices(node)[0]
  {
    match node
    case NormalNode(vs) =>
    case InnerNode(_, cs) =>
      if |cs| > 0 {
        FindAVertexIsFirst(cs[0]);
      }
  }

  /** A complete node's vertices are its own leaves or its children's, one level down. */
  lemma {:induction false} CompleteVertices(node: ModNode, v: nat)
    requires IsComplete(node) && node.InnerNode?
    ensures v in GetVertices(node) <==> exists i | 0 <= i < |node.children| :: v in node.children[i].vertices
  {
    ChainMembers(node.children, v);
  }

  /** A vertex is under a list of children exactly when it is under one of them. */
  lemma {:induction false} ChainMembers(cs: seq<ModNode>, v: nat)
    ensures v in Chain(cs) <==> exists i | 0 <= i < |cs| :: v in GetVertices(cs[i])
    decreases |cs|
  {
    if |cs| > 0 {
      ChainMembers(cs[1..], v);
      if v in Chain(cs[1..]) {
        var i :| 0 <= i < |cs[1..]| && v in GetVertices(cs[1..][i]);
        assert v in GetVertices(cs[i + 1]);
      }
      if exists i | 0 <= i < |cs| :: v in GetVertices(cs[i]) {
        var i :| 0 <= i < |cs| && v in GetVertices(cs[i]);
        if i > 0 {
          assert v in GetVertices(cs[1..][i - 1]);
        }
      }
    }
  }

  // ---------------------------------------------------------------------------------------
  // Set partitions
  // ---------------------------------------------------------------------------------------

  /** The elements of a list. */
  function Elems(c: seq<nat>): set<nat> {
    set x | x in c
  }

  /** No element of the list occurs twice. */
  predicate Distinct(c: seq<nat>) {
    forall i, j | 0 <= i < j < |c| :: c[i] != c[j]
  }

  /** `y` lies in block `i` of `q`. */
  predicate Block(q: seq<set<nat>>, i: int, y: nat) {
    0 <= i < |q| && y in q[i]
  }

  /** `q` is a partition of `s`: non-empty blocks inside `s`, each element of `s` in
      exactly one block. */
  ghost predicate IsPartitionOf(q: seq<set<nat>>, s: set<nat>) {
    (forall i | 0 <= i < |q| :: q[i] != {})
    && (forall i, y | Block(q, i, y) :: y in s)
    && (forall i, j, y | Block(q, i, y) && Block(q, j, y) :: i == j)
    && (forall y | y in s :: exists i :: Block(q, i, y))
  }

  /** `partitions`: a singleton has the one partition `[{x}]`; otherwise, for each
      partition of the rest, the first element joins each block in turn, then stands in a
      block of its own in front. An empty list raises `IndexError`, which the callers
      here never meet. */
  function Partitions(c: seq<nat>): seq<seq<set<nat>>>
    requires |c| >= 1
    decreases |c|
  {
    if |c| == 1 then [[{c[0]}]] else Expand(c[0], Partitions(c[1..]))
  }

  /** The inner loops of `partitions`, over the partitions of the rest. */
  function Expand(x: nat, ps: seq<seq<set<nat>>>): (r: seq<seq<set<nat>>>)
    ensures forall q | q in r :: exists k | 0 <= k < |ps| :: q in Variants(x, ps[k])
  {
    if |ps| == 0 then []
    else
      var r := Variants(x, ps[0]) + Expand(x, ps[1..]);
      assert forall q | q in Expand(x, ps[1..]) :: exists k | 0 <= k < |ps| :: q in Variants(x, ps[k]) by {
        forall q | q in Expand(x, ps[1..])
          ensures exists k | 0 <= k < |ps| :: q in Variants(x, ps[k])
        {
          var k :| 0 <= k < |ps[1..]| && q in Variants(x, ps[1..][k]);
          assert ps[1..][k] == ps[k + 1];
        }
      }
      r
  }

  /** What `x` makes of one partition `p`: `x` added to block n for each n, then `x` alone
      in front. */
  function Variants(x: nat, p: seq<set<nat>>): (r: seq<seq<set<nat>>>)
    ensures |r| == |p| + 1
    ensures forall n | 0 <= n < |p| :: r[n] == p[..n] + [{x} + p[n]] + p[n + 1..]
    ensures r[|p|] == [{x}] + p
  {
    seq(|p|, n requires 0 <= n < |p| => p[..n] + [{x} + p[n]] + p[n + 1..]) + [[{x}] + p]
  }

  /** Every list `partitions` yields for a list without repeats is a partition of its
      elements. */
  lemma {:induction false} PartitionsSound(c: seq<nat>, q: seq<set<nat>>)
    requires |c| >= 1 && Distinct(c) && q in Partitions(c)
    ensures IsPartitionOf(q, Elems(c))
    decreases |c|
  {
    if |c| > 1 {
      var rest := c[1..];
      assert Distinct(rest) by {
        forall i, j | 0 <= i < j < |rest|
          ensures rest[i] != rest[j]
        {
          assert rest[i] == c[i + 1] && rest[j] == c[j + 1];
        }
      }
      assert c[0] !in Elems(rest) by {
        forall i | 0 <= i < |rest|
          ensures rest[i] != c[0]
        {
          assert rest[i] == c[i + 1];
        }
      }
      assert Elems(c) == {c[0]} + Elems(rest) by {
        assert c == [c[0]] + rest;
      }
      var k :| 0 <= k < |Partitions(rest)| && q in Variants(c[0], Partitions(rest)[k]);
      var p := Partitions(rest)[k];
      PartitionsSound(rest, p);
      VariantsSound(c[0], p, Elems(rest), q);
    } else {
      assert q == [{c[0]}];
      forall x | x in Elems(c)
        ensures exists i :: Block(q, i, x)
      {
        assert Block(q, 0, x);
      }
    }
  }

  /** Adding a new element to a partition, in a block or alone, gives a partition. */
  lemma VariantsSound(x: nat, p: seq<set<nat>>, s: set<nat>, q: seq<set<nat>>)
    requires IsPartitionOf(p, s) && x !in s && q in Variants(x, p)
    ensures IsPartitionOf(q, {x} + s)
  {
    var vs := Variants(x, p);
    var n :| 0 <= n < |vs| && vs[n] == q;
    if n == |p| {
      AloneSound(x, p, s);
    } else {
      JoinedSound(x, p, s, n);
    }
  }

  lemma AloneSound(x: nat, p: seq<set<nat>>, s: set<nat>)
    requires IsPartitionOf(p, s) && x !in s
    ensures IsPartitionOf([{x}] + p, {x} + s)
  {
    var q := [{x}] + p;
    assert forall i, y :: Block(q, i, y) <==> (i == 0 && y == x) || Block(p, i - 1, y);
    forall y | y in {x} + s
      ensures exists i :: Block(q, i, y)
    {
      if y != x {
        var i :| Block(p, i, y);
        assert Block(q, i + 1, y);
      } else {
        assert Block(q, 0, y);
      }
    }
  }

  lemma JoinedSound(x: nat, p: seq<set<nat>>, s: set<nat>, n: nat)
    requires IsPartitionOf(p, s) && x !in s && n < |p|
    ensures IsPartitionOf(p[..n] + [{x} + p[n]] + p[n + 1..], {x} + s)
  {
    var q := p[..n] + [{x} + p[n]] + p[n + 1..];
    assert |q| == |p|;
    assert forall i | 0 <= i < |q| :: q[i] == if i == n then {x} + p[n] else p[i];
    assert forall i, y :: Block(q, i, y) <==> (i == n && y == x) || Block(p, i, y);
    forall y | y in {x} + s
      ensures exists i :: Block(q, i, y)
    {
      if y != x {
        var i :| Block(p, i, y);
        assert Block(q, i, y);
      } else {
        assert Block(q, n, y);
      }
    }
  }

  // ---------------------------------------------------------------------------------------
  // The value of a modular solution
  // ---------------------------------------------------------------------------------------

  /** `m` is the largest thinness over the children in `part`. */
  predicate IsMaxOver(m: nat, part: set<nat>, thinnesses: seq<nat>)
    requires forall v | v in part :: v < |thinnesses|
  {
    (exists v | v in part :: m == thinnesses[v]) && forall v | v in part :: thinnesses[v] <= m
  }

  /** `max(thinnesses[vertex] for vertex in part)`; an empty part would raise. */
  function MaxOver(part: set<nat>, thinnesses: seq<nat>): (m: nat)
    requires part != {} && forall v | v in part :: v < |thinnesses|
    ensures IsMaxOver(m, part, thinnesses)
  {
    MaxOverExists(part, thinnesses);
    var m :| IsMaxOver(m, part, thinnesses);
    m
  }

  lemma MaxOverExists(part: set<nat>, thinnesses: seq<nat>)
    requires part != {} && forall v | v in part :: v < |thinnesses|
    ensures exists m :: IsMaxOver(m, part, thinnesses)
  {
    var y :| y in part;
    if part == {y} {
      assert IsMaxOver(thinnesses[y], part, thinnesses);
    } else {
      var rest := part - {y};
      MaxOverExists(rest, thinnesses);
      var m :| IsMaxOver(m, rest, thinnesses);
      var top := if thinnesses[y] > m then thinnesses[y] else m;
      assert IsMaxOver(top, part, thinnesses) by {
        forall v | v in part
          ensures thinnesses[v] <= top
        {
          if v != y {
            assert v in rest;
          }
        }
        if thinnesses[y] <= m {
          var w :| w in rest && m == thinnesses[w];
          assert w in part;
        }
      }
    }
  }

  /** Every part is non-empty and names children that have a thinness. */
  predicate Measurable(partition: seq<set<nat>>, thinnesses: seq<nat>) {
    forall i | 0 <= i < |partition| :: partition[i] != {} && forall v | v in partition[i] :: v < |thinnesses|
  }

  /** `modular_solution_value`: the sum over the parts of the largest thinness in each. */
  function SolutionValue(partition: seq<set<nat>>, thinnesses: seq<nat>): nat
    requires Measurable(partition, thinnesses)
  {
    if |partition| == 0 then 0
    else MaxOver(partition[0], thinnesses) + SolutionValue(partition[1..], thinnesses)
  }

  /** The value of a solution is at least the thinness of each child it places. */
  lemma {:induction false} ValueAtLeastMember(partition: seq<set<nat>>, thinnesses: seq<nat>, i: nat, v: nat)
    requires Measurable(partition, thinnesses) && i < |partition| && v in partition[i]
    ensures SolutionValue(partition, thinnesses) >= thinnesses[v]
    decreases |partition|
  {
    if i > 0 {
      assert v in partition[1..][i - 1];
      ValueAtLeastMember(partition[1..], thinnesses, i - 1, v);
    }
  }

  /** When every child has thinness at least one, the value is at least the number of
      parts. */
  lemma {:induction false} ValueAtLeastParts(partition: seq<set<nat>>, thinnesses: seq<nat>)
    requires Measurable(partition, thinnesses)
    requires forall w: nat | w < |thinnesses| :: thinnesses[w] >= 1
    ensures SolutionValue(partition, thinnesses) >= |partition|
    decreases |partition|
  {
    if |partition| > 0 {
      var u :| u in partition[0];
      assert thinnesses[u] <= MaxOver(partition[0], thinnesses);
      ValueAtLeastParts(partition[1..], thinnesses);
    }
  }

  /** `sum(thinnesses)`. */
  function Sum(thinnesses: seq<nat>): nat {
    if |thinnesses| == 0 then 0 else thinnesses[0] + Sum(thinnesses[1..])
  }

  // ---------------------------------------------------------------------------------------
  // The directed compatibility graph between the children of a prime node
  // ---------------------------------------------------------------------------------------

  /** `ModularCompatibilityDiGraph`: arcs between children, by index, and the pairs of
      children that must get different colours. */
  datatype ModularCompat = ModularCompat(arcs: set<(nat, nat)>, differentColor: set<(nat, nat)>)
  {
    predicate HasArc(u: nat, v: nat) {
      (u, v) in arcs
    }

    /** `is_different_color_edge`. */
    predicate IsDifferentColorEdge(u: nat, v: nat) {
      (u, v) in differentColor
    }

    /** `digraph.to_undirected()`: a digraph built by `add_edge` alone has the ends of its
        arcs as vertices. */
    function Undirected(): (g: Graph)
      ensures forall u, v :: g.HasEdge(u, v) <==> HasArc(u, v) || HasArc(v, u)
    {
      Graph((set a | a in arcs :: a.0) + (set a | a in arcs :: a.1), arcs)
    }
  }

  /** `[find_a_vertex(child) for child in prime_node.children]`: the first child without a
      vertex stops the list with its `IndexError`. */
  function Representatives(children: seq<ModNode>): (r: Result<seq<nat>>)
    ensures r.Success? <==> forall i | 0 <= i < |children| :: FindAVertex(children[i]).Success?
    ensures r.Success? ==> |r.value| == |children|
    ensures r.Success? ==> forall i | 0 <= i < |children| :: r.value[i] == FindAVertex(children[i]).value
    ensures r.Failure? ==> r.error == "IndexError"
  {
    if |children| == 0 then Success([])
    else
      match FindAVertex(children[0])
      case Failure(e) => Failure(e)
      case Success(v) =>
        match Representatives(children[1..])
        case Failure(e) => Failure(e)
        case Success(vs) => Success([v] + vs)
  }

  /** Children i and j have distinct representatives that are adjacent in the graph. */
  predicate Linked(g: Graph, reps: seq<nat>, i: int, j: int) {
    0 <= i < |reps| && 0 <= j < |reps| && reps[i] != reps[j] && g.HasEdge(reps[i], reps[j])
  }

  /** The arc i -> j is wanted: the children are linked, and i is not complete or j is. */
  predicate WantsArc(g: Graph, children: seq<ModNode>, reps: seq<nat>, i: int, j: int)
    requires |reps| == |children|
  {
    Linked(g, reps, i, j) && (!IsComplete(children[i]) || IsComplete(children[j]))
  }

  /** The pair (i, j) must be coloured differently: linked, and neither child complete. */
  predicate WantsDifferent(g: Graph, children: seq<ModNode>, reps: seq<nat>, i: int, j: int)
    requires |reps| == |children|
  {
    Linked(g, reps, i, j) && !IsComplete(children[i]) && !IsComplete(children[j])
  }

  /** `build_modular_compatibility_graph`: over every ordered pair of children whose
      representatives are distinct and adjacent, an arc unless only the first child is
      complete, and a different-colour pair when neither is. */
  method BuildModularCompatibilityGraph(g: Graph, children: seq<ModNode>) returns (r: Result<ModularCompat>)
    ensures r.Failure? <==> exists i | 0 <= i < |children| :: FindAVertex(children[i]).Failure?
    ensures r.Failure? ==> r.error == "IndexError"
    ensures r.Success? ==> Representatives(children).Success?
    ensures r.Success? ==> forall i: nat, j: nat :: r.value.HasArc(i, j) <==> WantsArc(g, children, Representatives(children).value, i, j)
    ensures r.Success? ==> forall i: nat, j: nat ::
      r.value.IsDifferentColorEdge(i, j) <==> WantsDifferent(g, children, Representatives(children).value, i, j)
  {
    var representatives := Representatives(children);
    if representatives.Failure? {
      return Failure(representatives.error);
    }
    var reps := representatives.value;
    var arcs: set<(nat, nat)> := {};
    var different: set<(nat, nat)> := {};
    for first := 0 to |children|
      invariant forall i, j :: (i, j) in arcs <==> i < first && WantsArc(g, children, reps, i, j)
      invariant forall i, j :: (i, j) in different <==> i < first && WantsDifferent(g, children, reps, i, j)
    {
      for second := 0 to |children|
        invariant forall i, j :: (i, j) in arcs <==> (i < first || (i == first && j < second)) && WantsArc(g, children, reps, i, j)
        invariant forall i, j :: (i, j) in different <==>
          (i < first || (i == first && j < second)) && WantsDifferent(g, children, reps, i, j)
      {
        if reps[first] == reps[second] || !g.HasEdge(reps[first], reps[second]) {
          continue;
        }
        var firstComplete := IsComplete(children[first]);
        var secondComplete := IsComplete(children[second]);
        if !firstComplete || secondComplete {
          arcs := arcs + {(first, second)};
        }
        if !firstComplete && !secondComplete {
          different := different + {(first, second)};
        }
      }
    }
    return Success(ModularCompat(arcs, different));
  }

  /** Every different-colour pair is also an arc, and the pairs come both ways round. */
  lemma {:induction false} DifferentColorIsArc(g: Graph, children: seq<ModNode>, reps: seq<nat>, i: int, j: int)
    requires |reps| == |children|
    requires WantsDifferent(g, children, reps, i, j)
    ensures WantsArc(g, children, reps, i, j) && WantsArc(g, children, reps, j, i)
    ensures WantsDifferent(g, children, reps, j, i)
  {
  }

  /** Linked children get at least one arc; an arc with no reverse runs from a child that
      is not complete to one that is. */
  lemma {:induction false} OneWayArcs(g: Graph, children: seq<ModNode>, reps: seq<nat>, i: int, j: int)
    requires |reps| == |children|
    ensures Linked(g, reps, i, j) ==> WantsArc(g, children, reps, i, j) || WantsArc(g, children, reps, j, i)
    ensures WantsArc(g, children, reps, i, j) && !WantsArc(g, children, reps, j, i) <==>
      Linked(g, reps, i, j) && !IsComplete(children[i]) && IsComplete(children[j])
  {
  }

  // ---------------------------------------------------------------------------------------
  // Checking a solution on the quotient, and the exhaustive search
  // ---------------------------------------------------------------------------------------

  /** Children u before v in the order break the modular rules: they share a class, and
      must be coloured differently or are joined by an arc from v to u only. */
  predicate ForbiddenPair(s: Solution, mc: ModularCompat, u: nat, v: nat) {
    SameClass(s, u, v) && (mc.IsDifferentColorEdge(u, v) || (!mc.HasArc(u, v) && mc.HasArc(v, u)))
  }

  /** The loop over `combinations(solution.order, 2)` of `verify_modular_solution`. */
  predicate AnyForbiddenPair(s: Solution, mc: ModularCompat) {
    exists c | c in Combinations(s.order, 2) :: |c| == 2 && ForbiddenPair(s, mc, c[0], c[1])
  }

  /** `verify_modular_solution`: no forbidden pair, and the solution verifies on the
      undirected compatibility graph. */
  predicate VerifyModularSolution(s: Solution, mc: ModularCompat) {
    !AnyForbiddenPair(s, mc) && VerifySolution(mc.Undirected(), s)
  }

  /** The same check over positions in the order. */
  lemma VerifyModularByPositions(s: Solution, mc: ModularCompat)
    ensures VerifyModularSolution(s, mc) <==>
      (forall i, j | 0 <= i < j < |s.order| :: !ForbiddenPair(s, mc, s.order[i], s.order[j]))
      && Consistent(mc.Undirected(), s)
  {
    VerifySolutionByPositions(mc.Undirected(), s);
    if AnyForbiddenPair(s, mc) {
      var c :| c in Combinations(s.order, 2) && |c| == 2 && ForbiddenPair(s, mc, c[0], c[1]);
      PairOfMember(s.order, c);
    }
    forall i, j | 0 <= i < j < |s.order| && ForbiddenPair(s, mc, s.order[i], s.order[j])
      ensures AnyForbiddenPair(s, mc)
    {
      PairInCombinations(s.order, i, j);
    }
  }

  /** A solution the search weighs: an order of the children, a partition of them, and a
      check that passes. */
  predicate Candidate(order: seq<nat>, partition: seq<set<nat>>, k: nat, thinnesses: seq<nat>, mc: ModularCompat) {
    1 <= k && order in Permutations(Iota(k)) && partition in Partitions(Iota(k))
    && Admissible(order, partition, thinnesses, mc)
  }

  /** The solution has a value and passes `verify_modular_solution`. */
  predicate Admissible(order: seq<nat>, partition: seq<set<nat>>, thinnesses: seq<nat>, mc: ModularCompat) {
    Measurable(partition, thinnesses) && VerifyModularSolution(Solution(order, partition), mc)
  }

  /** Every partition of the children has a value when each child has a thinness. */
  lemma PartitionsMeasurable(k: nat, thinnesses: seq<nat>, partition: seq<set<nat>>)
    requires 1 <= k <= |thinnesses| && partition in Partitions(Iota(k))
    ensures Measurable(partition, thinnesses)
  {
    var c := Iota(k);
    PartitionsSound(c, partition);
    forall i, v | 0 <= i < |partition| && v in partition[i]
      ensures v < |thinnesses|
    {
      assert Block(partition, i, v);
    }
  }

  /** `find_best_solution`: the least value of a checked solution over every order and
      partition of the children, starting from `sum(thinnesses)`. With no children
      `partitions` raises `IndexError`, and so does a child without a thinness. */
  method FindBestSolution(thinnesses: seq<nat>, children: seq<ModNode>, mc: ModularCompat) returns (r: Result<nat>)
    ensures r.Failure? <==> |children| == 0 || |children| > |thinnesses|
    ensures r.Failure? ==> r.error == "IndexError"
    ensures r.Success? ==> r.value <= Sum(thinnesses)
    ensures r.Success? ==> forall order, partition | Candidate(order, partition, |children|, thinnesses, mc) ::
      r.value <= SolutionValue(partition, thinnesses)
    ensures r.Success? ==> (r.value == Sum(thinnesses) ||
      exists order, partition | Candidate(order, partition, |children|, thinnesses, mc) ::
        r.value == SolutionValue(partition, thinnesses))
  {
    var k := |children|;
    if k == 0 || k > |thinnesses| {
      return Failure("IndexError");
    }
    var best := Sum(thinnesses);
    var orders := Permutations(Iota(k));
    var parts := Partitions(Iota(k));
    forall y | 0 <= y < |parts|
      ensures Measurable(parts[y], thinnesses)
    {
      PartitionsMeasurable(k, thinnesses, parts[y]);
    }
    var found;
    best, found := BestOverOrders(orders, parts, thinnesses, mc, best);
    forall order, partition | Candidate(order, partition, k, thinnesses, mc)
      ensures best <= SolutionValue(partition, thinnesses)
    {
      var x :| 0 <= x < |orders| && orders[x] == order;
      var y :| 0 <= y < |parts| && parts[y] == partition;
      assert Admissible(orders[x], parts[y], thinnesses, mc);
    }
    if found.Some? {
      assert Candidate(orders[found.value.0], parts[found.value.1], k, thinnesses, mc);
    }
    return Success(best);
  }

  /** The outer loop of `find_best_solution`, over the orders: `best` ends at the least
      value of a passing solution if one is below `start`. `found` names the order and
      the partition that set it. */
  method BestOverOrders(orders: seq<seq<nat>>, parts: seq<seq<set<nat>>>, thinnesses: seq<nat>, mc: ModularCompat, start: nat)
    returns (best: nat, found: Option<(nat, nat)>)
    requires forall y | 0 <= y < |parts| :: Measurable(parts[y], thinnesses)
    ensures best <= start
    ensures forall x, y | 0 <= x < |orders| && 0 <= y < |parts| && Admissible(orders[x], parts[y], thinnesses, mc) ::
      best <= SolutionValue(parts[y], thinnesses)
    ensures found.None? ==> best == start
    ensures found.Some? ==> found.value.0 < |orders| && found.value.1 < |parts|
    ensures found.Some? ==> Admissible(orders[found.value.0], parts[found.value.1], thinnesses, mc)
    ensures found.Some? ==> best == SolutionValue(parts[found.value.1], thinnesses)
  {
    best, found := start, None;
    for a := 0 to |orders|
      invariant best <= start
      invariant forall x, y | 0 <= x < a && 0 <= y < |parts| && Admissible(orders[x], parts[y], thinnesses, mc) ::
        best <= SolutionValue(parts[y], thinnesses)
      invariant found.None? ==> best == start
      invariant found.Some? ==> found.value.0 < |orders| && found.value.1 < |parts|
      invariant found.Some? ==> Admissible(orders[found.value.0], parts[found.value.1], thinnesses, mc)
      invariant found.Some? ==> best == SolutionValue(parts[found.value.1], thinnesses)
    {
      ghost var previous := best;
      var improved;
      best, improved := BestWithOrder(orders[a], parts, thinnesses, mc, best);
      if improved.Some? {
        found := Some((a, improved.value));
      }
      forall x, y | 0 <= x <= a && 0 <= y < |parts| && Admissible(orders[x], parts[y], thinnesses, mc)
        ensures best <= SolutionValue(parts[y], thinnesses)
      {
        if x < a {
          assert previous <= SolutionValue(parts[y], thinnesses);
        }
      }
    }
  }

  /** The inner loop of `find_best_solution`, over the partitions for one order: `best`
      drops to the value of every passing solution below it. `improved` names the
      partition that set the new value, if any did. */
  method BestWithOrder(order: seq<nat>, parts: seq<seq<set<nat>>>, thinnesses: seq<nat>, mc: ModularCompat, best: nat)
    returns (newBest: nat, improved: Option<nat>)
    requires forall y | 0 <= y < |parts| :: Measurable(parts[y], thinnesses)
    ensures newBest <= best
    ensures forall y | 0 <= y < |parts| && Admissible(order, parts[y], thinnesses, mc) ::
      newBest <= SolutionValue(parts[y], thinnesses)
    ensures improved.None? ==> newBest == best
    ensures improved.Some? ==> improved.value < |parts|
    ensures improved.Some? ==> Admissible(order, parts[improved.value], thinnesses, mc)
    ensures improved.Some? ==> newBest == SolutionValue(parts[improved.value], thinnesses)
  {
    newBest, improved := best, None;
    for b := 0 to |parts|
      invariant newBest <= best
      invariant forall y | 0 <= y < b && Admissible(order, parts[y], thinnesses, mc) ::
        newBest <= SolutionValue(parts[y], thinnesses)
      invariant improved.None? ==> newBest == best
      invariant improved.Some? ==> improved.value < |parts|
      invariant improved.Some? ==> Admissible(order, parts[improved.value], thinnesses, mc)
      invariant improved.Some? ==> newBest == SolutionValue(parts[improved.value], thinnesses)
    {
      var value := SolutionValue(parts[b], thinnesses);
      ghost var previous := newBest;
      if value < newBest && VerifyModularSolution(Solution(order, parts[b]), mc) {
        newBest, improved := value, Some(b);
      }
      forall y | 0 <= y <= b && Admissible(order, parts[y], thinnesses, mc)
        ensures newBest <= SolutionValue(parts[y], thinnesses)
      {
        if y < b {
          assert previous <= SolutionValue(parts[y], thinnesses);
        }
      }
    }
  }

  // ---------------------------------------------------------------------------------------
  // Cycles of pairs
  // ---------------------------------------------------------------------------------------

  /** The block after block `b` on a cycle of `size` blocks. */
  function Next(b: nat, size: nat): nat {
    if b + 1 == size then 0 else b + 1
  }

  /** In `K2_cycle(size)` vertex v lies in pair v / 2, and each pair is joined to every
      vertex of the next pair round the cycle. */
  predicate CycleAdjacent(size: nat, u: nat, w: nat) {
    u < 2 * size && w < 2 * size && (w / 2 == Next(u / 2, size) || u / 2 == Next(w / 2, size))
  }

  /** The adjacency after the pairs before `done` have been joined to their successors. */
  predicate JoinedBefore(size: nat, done: nat, u: nat, w: nat) {
    u < 2 * size && w < 2 * size
    && ((u / 2 < done && w / 2 == Next(u / 2, size)) || (w / 2 < done && u / 2 == Next(w / 2, size)))
  }

  /** `(i + 2) % vertices` and `(i + 3) % vertices` are the two vertices of the next pair. */
  lemma {:induction false} WrapPair(i: nat, size: nat)
    requires i % 2 == 0 && i < 2 * size
    ensures (i + 2) % (2 * size) == 2 * Next(i / 2, size)
    ensures (i + 3) % (2 * size) == 2 * Next(i / 2, size) + 1
  {
    WrapIsMod(i + 2, 2 * size);
    WrapIsMod(i + 3, 2 * size);
  }

  /** Below twice the divisor, `%` subtracts the divisor at most once. */
  lemma WrapIsMod(x: nat, n: nat)
    requires 0 < n && x < 2 * n
    ensures x % n == if x < n then x else x - n
  {
    if x < n {
      ModUnique(x, n, 0, x);
    } else {
      ModUnique(x, n, 1, x - n);
    }
  }

  /** The remainder is the one r in 0..n-1 with x = n * q + r. */
  lemma ModUnique(x: int, n: int, q: int, r: int)
    requires 0 < n && 0 <= r < n && x == n * q + r
    ensures x % n == r
  {
    var q', r' := x / n, x % n;
    assert n * q' + r' == n * q + r;
    if q' > q {
      MulAtLeast(n, q' - q);
    } else if q' < q {
      MulAtLeast(n, q - q');
    }
  }

  lemma {:induction false} MulAtLeast(n: nat, k: nat)
    requires 1 <= k
    ensures n * k >= n
  {
    if k > 1 {
      MulAtLeast(n, k - 1);
    }
  }

  /** Sage's `add_edges` on a graph without loops, for edges between vertices already in
      the graph: the edges go in one by one, and a loop raises `ValueError`. */
  method AddEdges(graph: MutableGraph, es: seq<(nat, nat)>) returns (ok: bool)
    requires forall k | 0 <= k < |es| :: es[k].0 in graph.vertices && es[k].1 in graph.vertices
    modifies graph
    ensures ok <==> forall k | 0 <= k < |es| :: es[k].0 != es[k].1
    ensures graph.vertices == old(graph.vertices)
    ensures ok ==> forall u: nat, w: nat :: graph.Value().HasEdge(u, w) <==>
      old(graph.Value()).HasEdge(u, w) || (u, w) in es || (w, u) in es
    ensures ok && old(graph.Value()).Valid() ==> graph.Value().Valid()
  {
    for k := 0 to |es|
      invariant forall j | 0 <= j < k :: es[j].0 != es[j].1
      invariant graph.vertices == old(graph.vertices)
      invariant forall u: nat, w: nat :: graph.Value().HasEdge(u, w) <==>
        old(graph.Value()).HasEdge(u, w) || (u, w) in es[..k] || (w, u) in es[..k]
      invariant old(graph.Value()).Valid() ==> graph.Value().Valid()
    {
      if es[k].0 == es[k].1 {
        return false;
      }
      graph.AddEdge(es[k].0, es[k].1);
      assert es[..k + 1] == es[..k] + [es[k]];
    }
    assert es[..|es|] == es;
    return true;
  }

  /** `K2_cycle(size)`: `Graph(2 * size)`, then for each pair i, i + 1 the four edges to
      the pair that follows it modulo 2 * size. With one pair those edges are loops, which
      Sage refuses with `ValueError`. */
  method K2Cycle(size: nat) returns (r: Result<Graph>)
    ensures r.Failure? <==> size == 1
    ensures r.Failure? ==> r.error == "ValueError"
    ensures r.Success? ==> r.value.vertices == Range(2 * size) && r.value.Valid()
    ensures r.Success? ==> forall u: nat, w: nat :: r.value.HasEdge(u, w) <==> CycleAdjacent(size, u, w)
  {
    var vertices := size * 2;
    var graph := new MutableGraph(Graph(Range(vertices), {}));
    var i := 0;
    while i < vertices
      invariant i % 2 == 0 && i <= vertices
      invariant size != 1 || i == 0
      invariant graph.vertices == Range(vertices) && graph.Value().Valid()
      invariant forall u: nat, w: nat :: graph.Value().HasEdge(u, w) <==> JoinedBefore(size, i / 2, u, w)
    {
      var ok := JoinPair(graph, size, i);
      if !ok {
        return Failure("ValueError");
      }
      i := i + 2;
    }
    forall u: nat, w: nat
      ensures graph.Value().HasEdge(u, w) <==> CycleAdjacent(size, u, w)
    {
      assert JoinedBefore(size, size, u, w) <==> CycleAdjacent(size, u, w);
    }
    return Success(graph.Value());
  }

  /** One round of the loop of `K2_cycle`: the four edges from pair i / 2 to the next pair,
      which are loops when there is only one pair. */
  method JoinPair(graph: MutableGraph, size: nat, i: nat) returns (ok: bool)
    requires i % 2 == 0 && i < 2 * size
    requires graph.vertices == Range(2 * size) && graph.Value().Valid()
    requires forall u: nat, w: nat :: graph.Value().HasEdge(u, w) <==> JoinedBefore(size, i / 2, u, w)
    modifies graph
    ensures ok <==> size != 1
    ensures graph.vertices == Range(2 * size)
    ensures ok ==> graph.Value().Valid()
    ensures ok ==> forall u: nat, w: nat :: graph.Value().HasEdge(u, w) <==> JoinedBefore(size, i / 2 + 1, u, w)
  {
    var vertices := size * 2;
    WrapPair(i, size);
    var es := [(i, (i + 2) % vertices), (i, (i + 3) % vertices), (i + 1, (i + 2) % vertices), (i + 1, (i + 3) % vertices)];
    ghost var before := graph.Value();
    ok := AddEdges(graph, es);
    if ok {
      PairEdgesStep(size, i, es, before, graph.Value());
    }
  }

  /** The four edges of one round of `K2_cycle` join pair i / 2 to the next pair. */
  lemma PairEdgesStep(size: nat, i: nat, es: seq<(nat, nat)>, before: Graph, after: Graph)
    requires i % 2 == 0 && i < 2 * size
    requires var c := 2 * Next(i / 2, size); es == [(i, c), (i, c + 1), (i + 1, c), (i + 1, c + 1)]
    requires forall u: nat, w: nat :: before.HasEdge(u, w) <==> JoinedBefore(size, i / 2, u, w)
    requires forall u: nat, w: nat :: after.HasEdge(u, w) <==> before.HasEdge(u, w) || (u, w) in es || (w, u) in es
    ensures forall u: nat, w: nat :: after.HasEdge(u, w) <==> JoinedBefore(size, i / 2 + 1, u, w)
  {
    forall u: nat, w: nat
      ensures after.HasEdge(u, w) <==> JoinedBefore(size, i / 2 + 1, u, w)
    {
      PairStep(size, i / 2, u, w);
    }
  }

  /** Joining pair b to its successor adds exactly the pairs of vertices across them. */
  lemma PairStep(size: nat, b: nat, u: nat, w: nat)
    requires b < size
    ensures JoinedBefore(size, b + 1, u, w) <==>
      (JoinedBefore(size, b, u, w)
      || ((u == 2 * b || u == 2 * b + 1) && (w == 2 * Next(b, size) || w == 2 * Next(b, size) + 1))
      || ((w == 2 * b || w == 2 * b + 1) && (u == 2 * Next(b, size) || u == 2 * Next(b, size) + 1)))
  {
  }

  /** The two vertices of a pair are not adjacent and have the same neighbours: each pair
      is a module of the cycle. */
  lemma {:induction false} PairsAreTwins(size: nat, b: nat, w: nat)
    requires 2 <= size && b < size
    ensures !CycleAdjacent(size, 2 * b, 2 * b + 1)
    ensures CycleAdjacent(size, 2 * b, w) <==> CycleAdjacent(size, 2 * b + 1, w)
  {
  }

  /** Each vertex is adjacent to the two vertices of the next pair and of the previous
      one. */
  lemma {:induction false} CycleNeighbours(size: nat, b: nat, c: nat)
    requires 2 <= size && b < size && c < size && Next(b, size) == c
    ensures CycleAdjacent(size, 2 * b, 2 * c) && CycleAdjacent(size, 2 * b, 2 * c + 1)
    ensures CycleAdjacent(size, 2 * c + 1, 2 * b) && CycleAdjacent(size, 2 * c + 1, 2 * b + 1)
  {
  }

  // ---------------------------------------------------------------------------------------
  // Paths and cycles of a module
  // ---------------------------------------------------------------------------------------

  /** The module's vertices are 0..m-1, the labels `disjoint_union(..., labels='integers')`
      keeps them at. */
  predicate Labelled(modGraph: Graph) {
    modGraph.Valid() && modGraph.vertices == Range(|modGraph.vertices|)
  }

  /** The first label of copy c of a module with m vertices. */
  function Start(c: nat, m: nat): nat {
    c * m
  }

  lemma StartNext(c: nat, m: nat)
    ensures Start(c + 1, m) == Start(c, m) + m
  {
  }

  lemma {:induction false} StartMono(c: nat, d: nat, m: nat)
    requires c <= d
    ensures Start(c, m) <= Start(d, m)
    decreases d - c
  {
    if c < d {
      StartMono(c, d - 1, m);
      StartNext(d - 1, m);
    }
  }

  /** A label lies in one copy only. */
  lemma CopyUnique(c: nat, d: nat, m: nat, x: nat)
    requires Start(c, m) <= x < Start(c, m) + m && Start(d, m) <= x < Start(d, m) + m
    ensures c == d
  {
    if c < d {
      StartNext(c, m);
      StartMono(c + 1, d, m);
    } else if d < c {
      StartNext(d, m);
      StartMono(d + 1, c, m);
    }
  }

  /** `graph.disjoint_union(modGraph, labels='integers')` for a graph on 0..n-1 and a module
      on 0..m-1: the graph keeps its labels and the module's copy takes n..n+m-1. */
  function DisjointUnion(g: Graph, n: nat, modGraph: Graph): Graph {
    Graph(g.vertices + (set a | a in modGraph.vertices :: n + a), g.edges + (set e | e in modGraph.edges :: (n + e.0, n + e.1)))
  }

  lemma UnionAdjacency(g: Graph, n: nat, modGraph: Graph, u: nat, w: nat)
    ensures DisjointUnion(g, n, modGraph).HasEdge(u, w) <==> g.HasEdge(u, w) || (n <= u && n <= w && modGraph.HasEdge(u - n, w - n))
  {
    var shifted := set e | e in modGraph.edges :: (n + e.0, n + e.1);
    if n <= u && n <= w && (u - n, w - n) in modGraph.edges {
      assert (u, w) in shifted;
    }
    if n <= u && n <= w && (w - n, u - n) in modGraph.edges {
      assert (w, u) in shifted;
    }
  }

  /** u and w lie in copy c and the module joins them there. */
  predicate InCopy(modGraph: Graph, c: nat, u: nat, w: nat) {
    var m := |modGraph.vertices|;
    Start(c, m) <= u < Start(c, m) + m && Start(c, m) <= w < Start(c, m) + m
    && modGraph.HasEdge(u - Start(c, m), w - Start(c, m))
  }

  /** Some copy before `copies` joins u and w. */
  predicate WithinCopies(modGraph: Graph, copies: nat, u: nat, w: nat) {
    exists c: nat | c < copies :: InCopy(modGraph, c, u, w)
  }

  /** The loop of `disjoint_union` calls shared by `modular_path` and `modular_cycle`:
      `size` copies of the module side by side, copy c on c*m..c*m+m-1. */
  method Copies(modGraph: Graph, size: nat) returns (g: Graph)
    requires Labelled(modGraph)
    ensures g.vertices == Range(Start(size, |modGraph.vertices|)) && g.Valid()
    ensures forall u: nat, w: nat :: g.HasEdge(u, w) <==> WithinCopies(modGraph, size, u, w)
  {
    var m := |modGraph.vertices|;
    g := Graph({}, {});
    for i := 0 to size
      invariant g.vertices == Range(Start(i, m)) && g.Valid()
      invariant forall u: nat, w: nat :: g.HasEdge(u, w) <==> WithinCopies(modGraph, i, u, w)
    {
      CopyStep(g, modGraph, i);
      g := DisjointUnion(g, Start(i, m), modGraph);
    }
  }

  /** One more copy keeps the labels consecutive, the graph simple and the edges those of
      the copies. */
  lemma CopyStep(g: Graph, modGraph: Graph, i: nat)
    requires Labelled(modGraph)
    requires g.vertices == Range(Start(i, |modGraph.vertices|)) && g.Valid()
    requires forall u: nat, w: nat :: g.HasEdge(u, w) <==> WithinCopies(modGraph, i, u, w)
    ensures DisjointUnion(g, Start(i, |modGraph.vertices|), modGraph).vertices == Range(Start(i + 1, |modGraph.vertices|))
    ensures DisjointUnion(g, Start(i, |modGraph.vertices|), modGraph).Valid()
    ensures forall u: nat, w: nat ::
      DisjointUnion(g, Start(i, |modGraph.vertices|), modGraph).HasEdge(u, w) <==> WithinCopies(modGraph, i + 1, u, w)
  {
    var m := |modGraph.vertices|;
    var n := Start(i, m);
    var h := DisjointUnion(g, n, modGraph);
    StartNext(i, m);
    forall u: nat, w: nat
      ensures h.HasEdge(u, w) <==> WithinCopies(modGraph, i + 1, u, w)
    {
      UnionAdjacency(g, n, modGraph, u, w);
      if WithinCopies(modGraph, i + 1, u, w) {
        var c: nat :| c < i + 1 && InCopy(modGraph, c, u, w);
      }
      if n <= u && n <= w && modGraph.HasEdge(u - n, w - n) {
        assert InCopy(modGraph, i, u, w);
      }
    }
    forall x: nat
      ensures x in h.vertices <==> x < Start(i + 1, m)
    {
      if n <= x < Start(i + 1, m) {
        assert x - n in modGraph.vertices;
      }
    }
  }

  /** u lies in the copy starting at `first` and w in the one starting at `second`, or the
      other way round. */
  predicate Between(first: nat, second: nat, m: nat, u: nat, w: nat) {
    (first <= u < first + m && second <= w < second + m) || (first <= w < first + m && second <= u < second + m)
  }

  /** The edges from the copy at `first` to the one at `second` that the two inner loops
      have added before (`left`, `right`). */
  predicate Across(first: nat, second: nat, m: nat, left: nat, right: nat, u: nat, w: nat) {
    first <= u < first + m && second <= w < second + m
    && (u - first < left || (u - first == left && w - second < right))
  }

  /** The two inner loops of `modular_path` and `modular_cycle`: every vertex of the copy
      at `first` joined to every vertex of the copy at `second`. The copies are the same
      or apart; when they are the same, the first edge is a loop and Sage raises
      `ValueError`. */
  method JoinCopies(graph: MutableGraph, first: nat, second: nat, m: nat) returns (ok: bool)
    requires forall x: nat | first <= x < first + m || second <= x < second + m :: x in graph.vertices
    requires first == second || first + m <= second || second + m <= first
    modifies graph
    ensures ok <==> first != second || m == 0
    ensures graph.vertices == old(graph.vertices)
    ensures ok ==> forall u: nat, w: nat :: graph.Value().HasEdge(u, w) <==>
      old(graph.Value()).HasEdge(u, w) || Between(first, second, m, u, w)
    ensures ok && old(graph.Value()).Valid() ==> graph.Value().Valid()
  {
    for left := 0 to m
      invariant first == second ==> left == 0
      invariant graph.vertices == old(graph.vertices)
      invariant forall u: nat, w: nat :: graph.Value().HasEdge(u, w) <==>
        old(graph.Value()).HasEdge(u, w) || Across(first, second, m, left, 0, u, w) || Across(first, second, m, left, 0, w, u)
      invariant old(graph.Value()).Valid() ==> graph.Value().Valid()
    {
      for right := 0 to m
        invariant first == second ==> left == 0 && right == 0
        invariant graph.vertices == old(graph.vertices)
        invariant forall u: nat, w: nat :: graph.Value().HasEdge(u, w) <==>
          old(graph.Value()).HasEdge(u, w) || Across(first, second, m, left, right, u, w) || Across(first, second, m, left, right, w, u)
        invariant old(graph.Value()).Valid() ==> graph.Value().Valid()
      {
        ok := AddEdges(graph, [(left + first, right + second)]);
        if !ok {
          return;
        }
      }
    }
    ok := true;
  }

  /** Copy c of a path is joined to copy c + 1. */
  predicate PathBridge(m: nat, c: nat, u: nat, w: nat) {
    Between(Start(c, m), Start(c + 1, m), m, u, w)
  }

  /** Some copy before `done` has been joined to the copy after it. */
  predicate PathBridgedBefore(m: nat, done: nat, u: nat, w: nat) {
    exists c: nat | c < done :: PathBridge(m, c, u, w)
  }

  /** Adjacency in `modular_path(module, size)`: inside a copy as in the module, and
      between consecutive copies. */
  predicate PathAdjacent(modGraph: Graph, size: nat, u: nat, w: nat) {
    WithinCopies(modGraph, size, u, w) || (size > 0 && PathBridgedBefore(|modGraph.vertices|, size - 1, u, w))
  }

  /** `modular_path(module, size)`: `size` copies of the module, each joined completely to
      the next. It never meets a loop. */
  method ModularPath(modGraph: Graph, size: nat) returns (g: Graph)
    requires Labelled(modGraph)
    ensures g.vertices == Range(Start(size, |modGraph.vertices|)) && g.Valid()
    ensures forall u: nat, w: nat :: g.HasEdge(u, w) <==> PathAdjacent(modGraph, size, u, w)
  {
    var m := |modGraph.vertices|;
    var union := Copies(modGraph, size);
    var graph := new MutableGraph(union);
    var i := 0;
    while i + 1 < size
      invariant i == 0 || i < size
      invariant graph.vertices == Range(Start(size, m)) && graph.Value().Valid()
      invariant forall u: nat, w: nat :: graph.Value().HasEdge(u, w) <==>
        WithinCopies(modGraph, size, u, w) || PathBridgedBefore(m, i, u, w)
    {
      PathRound(graph, modGraph, size, i);
      i := i + 1;
    }
    g := graph.Value();
    PathDone(modGraph, size, i, g);
  }

  /** When the bridging loop of `modular_path` ends, the graph has the adjacency of the
      path of copies. */
  lemma PathDone(modGraph: Graph, size: nat, i: nat, g: Graph)
    requires (size == 0 && i == 0) || i + 1 == size
    requires forall u: nat, w: nat :: g.HasEdge(u, w) <==>
      WithinCopies(modGraph, size, u, w) || PathBridgedBefore(|modGraph.vertices|, i, u, w)
    ensures forall u: nat, w: nat :: g.HasEdge(u, w) <==> PathAdjacent(modGraph, size, u, w)
  {
    forall u: nat, w: nat
      ensures g.HasEdge(u, w) <==> PathAdjacent(modGraph, size, u, w)
    {
      if size == 0 {
        assert !PathBridgedBefore(|modGraph.vertices|, i, u, w);
      }
    }
  }

  /** One round of the outer bridging loop of `modular_path`: copy i joined to copy
      i + 1. */
  method PathRound(graph: MutableGraph, modGraph: Graph, size: nat, i: nat)
    requires i + 1 < size
    requires graph.vertices == Range(Start(size, |modGraph.vertices|)) && graph.Value().Valid()
    requires forall u: nat, w: nat :: graph.Value().HasEdge(u, w) <==>
      WithinCopies(modGraph, size, u, w) || PathBridgedBefore(|modGraph.vertices|, i, u, w)
    modifies graph
    ensures graph.vertices == Range(Start(size, |modGraph.vertices|)) && graph.Value().Valid()
    ensures forall u: nat, w: nat :: graph.Value().HasEdge(u, w) <==>
      WithinCopies(modGraph, size, u, w) || PathBridgedBefore(|modGraph.vertices|, i + 1, u, w)
  {
    var m := |modGraph.vertices|;
    var first := i * m;
    StartNext(i, m);
    StartNext(i + 1, m);
    StartMono(i + 2, size, m);
    var ok := JoinCopies(graph, first, first + m, m);
    forall u: nat, w: nat
      ensures PathBridgedBefore(m, i + 1, u, w) <==> PathBridgedBefore(m, i, u, w) || PathBridge(m, i, u, w)
    {
      if PathBridgedBefore(m, i + 1, u, w) {
        var c: nat :| c < i + 1 && PathBridge(m, c, u, w);
      }
    }
  }

  /** Copy c of a cycle is joined to the copy after it round the cycle. */
  predicate CycleBridge(m: nat, size: nat, c: nat, u: nat, w: nat) {
    Between(Start(c, m), Start(Next(c, size), m), m, u, w)
  }

  /** Some copy before `done` has been joined to the copy after it. */
  predicate CycleBridgedBefore(m: nat, size: nat, done: nat, u: nat, w: nat) {
    exists c: nat | c < done :: CycleBridge(m, size, c, u, w)
  }

  /** Adjacency in `modular_cycle(module, size)`: inside a copy as in the module, and
      between copies next to each other round the cycle. */
  predicate CycleModuleAdjacent(modGraph: Graph, size: nat, u: nat, w: nat) {
    WithinCopies(modGraph, size, u, w) || CycleBridgedBefore(|modGraph.vertices|, size, size, u, w)
  }

  /** The copy after copy i round the cycle ends inside the graph; it is copy i itself
      when there is one copy, and is apart from it otherwise. */
  lemma NextCopy(i: nat, size: nat, m: nat)
    requires i < size
    ensures Start(Next(i, size), m) + m <= Start(size, m)
    ensures Next(i, size) == i <==> size == 1
    ensures Next(i, size) == i || Start(i, m) + m <= Start(Next(i, size), m) || Start(Next(i, size), m) + m <= Start(i, m)
  {
    StartNext(i, m);
    if i + 1 < size {
      StartNext(i + 1, m);
      StartMono(i + 2, size, m);
    } else {
      StartMono(1, size, m);
      if i >= 1 {
        StartMono(1, i, m);
      }
    }
  }

  /** `(right_index + first_vertex + module.order()) % vertices` is `right_index` past the
      start of the next copy round the cycle. */
  lemma CycleEdgeTarget(i: nat, size: nat, m: nat, r: nat)
    requires i < size && r < m
    ensures (r + Start(i, m) + m) % Start(size, m) == r + Start(Next(i, size), m)
  {
    var n := Start(size, m);
    StartNext(i, m);
    StartMono(i + 1, size, m);
    StartMono(1, size, m);
    if i + 1 < size {
      StartNext(i + 1, m);
      StartMono(i + 2, size, m);
    }
    WrapIsMod(r + Start(i, m) + m, n);
  }

  /** `modular_cycle(module, size)`: `size` copies of the module, each joined completely to
      the next one modulo the number of vertices. With one copy and a non-empty module the
      copy is joined to itself, and the first such edge is a loop: `ValueError`. With an
      empty module the inner loops are empty and no `%` is taken. */
  method ModularCycle(modGraph: Graph, size: nat) returns (r: Result<Graph>)
    requires Labelled(modGraph)
    ensures r.Failure? <==> size == 1 && |modGraph.vertices| > 0
    ensures r.Failure? ==> r.error == "ValueError"
    ensures r.Success? ==> r.value.vertices == Range(Start(size, |modGraph.vertices|)) && r.value.Valid()
    ensures r.Success? ==> forall u: nat, w: nat :: r.value.HasEdge(u, w) <==> CycleModuleAdjacent(modGraph, size, u, w)
  {
    var m := |modGraph.vertices|;
    var union := Copies(modGraph, size);
    var graph := new MutableGraph(union);
    for i := 0 to size
      invariant size == 1 && m > 0 ==> i == 0
      invariant graph.vertices == Range(Start(size, m)) && graph.Value().Valid()
      invariant forall u: nat, w: nat :: graph.Value().HasEdge(u, w) <==>
        WithinCopies(modGraph, size, u, w) || CycleBridgedBefore(m, size, i, u, w)
    {
      var ok := CycleRound(graph, modGraph, size, i);
      if !ok {
        return Failure("ValueError");
      }
    }
    return Success(graph.Value());
  }

  /** One round of the outer bridging loop of `modular_cycle`: copy i joined to the copy
      after it round the cycle, which fails only when that is copy i itself. */
  method CycleRound(graph: MutableGraph, modGraph: Graph, size: nat, i: nat) returns (ok: bool)
    requires i < size
    requires graph.vertices == Range(Start(size, |modGraph.vertices|)) && graph.Value().Valid()
    requires forall u: nat, w: nat :: graph.Value().HasEdge(u, w) <==>
      WithinCopies(modGraph, size, u, w) || CycleBridgedBefore(|modGraph.vertices|, size, i, u, w)
    modifies graph
    ensures ok <==> !(size == 1 && |modGraph.vertices| > 0)
    ensures graph.vertices == Range(Start(size, |modGraph.vertices|))
    ensures ok ==> graph.Value().Valid()
    ensures ok ==> forall u: nat, w: nat :: graph.Value().HasEdge(u, w) <==>
      WithinCopies(modGraph, size, u, w) || CycleBridgedBefore(|modGraph.vertices|, size, i + 1, u, w)
  {
    var m := |modGraph.vertices|;
    var vertices := size * m;
    var first := i * m;
    ok := true;
    if m > 0 {
      NextCopy(i, size, m);
      CycleEdgeTarget(i, size, m, 0);
      var second := (first + m) % vertices;
      ok := JoinCopies(graph, first, second, m);
      if !ok {
        return;
      }
    }
    forall u: nat, w: nat
      ensures CycleBridgedBefore(m, size, i + 1, u, w) <==> CycleBridgedBefore(m, size, i, u, w) || CycleBridge(m, size, i, u, w)
    {
      if CycleBridgedBefore(m, size, i + 1, u, w) {
        var c: nat :| c < i + 1 && CycleBridge(m, size, c, u, w);
      }
    }
  }
}
