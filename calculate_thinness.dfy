/** calculate_thinness.py: an older search that grows the order by inserting each further
    vertex at every position, keeping a "constraints graph" (the compatibility graph of the
    current order) and colouring it greedily. Its solution records the colouring as a
    dictionary from vertex to colour. */
module CalculateThinness {
  import opened Graphs
  import opened Itertools
  import opened Wrappers
  import opened Utils
  import opened Compatibility
  import opened VertexSeparation
  import opened BranchAndBound

  // ---------------------------------------------------------------------------------------
  // ConsistentSolution, dictionary form

  /** The solution record of calculate_thinness.py: an ordering and the colour of each
      coloured vertex. */
  datatype DictSolution = DictSolution(ordering: seq<nat>, partition: map<nat, nat>)
  {
    /** `number_of_classes`: the number of distinct colours in the dictionary. Vertices
        the colouring left out are not counted. */
    function NumberOfClasses(): nat {
      |partition.Values|
    }

    /** `complete_partition`: every vertex of the ordering with its colour, and colour 0
        for a vertex the colouring left out. */
    function CompletePartition(): map<nat, nat> {
      map v | v in ordering :: ClassOf(v)
    }

    /** The class `complete_partition` gives a vertex. */
    function ClassOf(v: nat): nat {
      if v in partition then partition[v] else 0
    }
  }

  /** The class count is at most the number of coloured vertices, and is zero exactly when
      no vertex is coloured. */
  lemma NumberOfClassesBounds(s: DictSolution)
    ensures s.NumberOfClasses() <= |s.partition|
    ensures s.NumberOfClasses() == 0 <==> s.partition == map[]
  {
    ValuesSize(s.partition);
    if s.partition != map[] {
      var v :| v in s.partition;
      assert s.partition[v] in s.partition.Values;
    }
  }

  lemma {:induction false} ValuesSize(m: map<nat, nat>)
    ensures |m.Values| <= |m|
    decreases |m|
  {
    if m != map[] {
      var k :| k in m;
      var rest := m - {k};
      ValuesSize(rest);
      forall v | v in m.Values
        ensures v in rest.Values + {m[k]}
      {
        var j :| j in m && m[j] == v;
        if j != k {
          assert j in rest && rest[j] == v;
        }
      }
      assert |rest| == |m| - 1;
      SetSizeLe(m.Values, rest.Values + {m[k]});
    }
  }

  /** An order whose constraints graph has no edge gets an empty colouring, so it reports
      zero classes although its complete partition puts every vertex in class 0. */
  lemma EdgelessReportsZero(v: nat)
    ensures DictSolution([v], map[]).NumberOfClasses() == 0
    ensures DictSolution([v], map[]).CompletePartition() == map[v := 0]
  {
    var s := DictSolution([v], map[]);
    assert s.partition.Values == {};
  }

  /** Every vertex of the ordering has a class in the complete partition: its colour when
      it has one, and 0 otherwise. */
  lemma CompletePartitionCovers(s: DictSolution, v: nat)
    ensures v in s.CompletePartition() <==> v in s.ordering
    ensures v in s.ordering && v in s.partition ==> s.CompletePartition()[v] == s.partition[v]
    ensures v in s.ordering && v !in s.partition ==> s.CompletePartition()[v] == 0
  {
  }

  // ---------------------------------------------------------------------------------------
  // verify_solution, dictionary form

  /** The triple (u, v, w) breaks consistency under the complete partition. */
  predicate DictViolates(g: Graph, s: DictSolution, u: nat, v: nat, w: nat) {
    s.ClassOf(u) == s.ClassOf(v) && IsIncompatibleTriple(g, u, v, w)
  }

  /** `verify_solution(G, solution)` of calculate_thinness.py: no triple of
      `combinations(ordering, 3)` breaks consistency under the complete partition. Unlike
      thinness/verify.py there is no length check. */
  predicate VerifyDictSolution(g: Graph, s: DictSolution) {
    !AnyDictViolation(g, s)
  }

  /** The `any(...)` of this `verify_solution`. */
  predicate AnyDictViolation(g: Graph, s: DictSolution) {
    exists t | t in Combinations(s.ordering, 3) ::
      |t| == 3 && DictViolates(g, s, t[0], t[1], t[2])
  }

  /** The same check over positions. */
  predicate DictConsistent(g: Graph, s: DictSolution) {
    forall i, j, k | 0 <= i < j < k < |s.ordering| :: !DictViolates(g, s, s.ordering[i], s.ordering[j], s.ordering[k])
  }

  /** The check accepts exactly when no positions i < j < k break consistency. */
  lemma VerifyDictByPositions(g: Graph, s: DictSolution)
    ensures VerifyDictSolution(g, s) <==> DictConsistent(g, s)
  {
    if !DictConsistent(g, s) {
      var i, j, k :| 0 <= i < j < k < |s.ordering| && DictViolates(g, s, s.ordering[i], s.ordering[j], s.ordering[k]);
      DictViolationIsFound(g, s, i, j, k);
    }
    if AnyDictViolation(g, s) {
      FoundDictViolationIsReal(g, s);
    }
  }

  lemma DictViolationIsFound(g: Graph, s: DictSolution, i: nat, j: nat, k: nat)
    requires i < j < k < |s.ordering| && DictViolates(g, s, s.ordering[i], s.ordering[j], s.ordering[k])
    ensures AnyDictViolation(g, s)
  {
    var t := [s.ordering[i], s.ordering[j], s.ordering[k]];
    TripleInCombinations(s.ordering, i, j, k);
    assert |t| == 3 && DictViolates(g, s, t[0], t[1], t[2]);
  }

  lemma FoundDictViolationIsReal(g: Graph, s: DictSolution)
    requires AnyDictViolation(g, s)
    ensures !DictConsistent(g, s)
  {
    var t :| t in Combinations(s.ordering, 3) && |t| == 3 && DictViolates(g, s, t[0], t[1], t[2]);
    TripleOfMember(s.ordering, t);
    var i, j, k :| 0 <= i < j < k < |s.ordering| && t == [s.ordering[i], s.ordering[j], s.ordering[k]];
    assert t[0] == s.ordering[i] && t[1] == s.ordering[j] && t[2] == s.ordering[k];
  }

  // ---------------------------------------------------------------------------------------
  // _find_first_adjacent and the filtered lists

  /** `_find_first_adjacent(G, nodes, node)`: the least index of an entry adjacent to
      `node`, or `None`. */
  function FindFirstAdjacent(g: Graph, nodes: seq<nat>, node: nat): (r: Option<nat>)
    ensures r.Some? ==> r.value < |nodes| && g.HasEdge(nodes[r.value], node)
    ensures r.Some? ==> forall i | 0 <= i < r.value :: !g.HasEdge(nodes[i], node)
    ensures r.None? <==> forall i | 0 <= i < |nodes| :: !g.HasEdge(nodes[i], node)
  {
    if nodes == [] then None
    else if g.HasEdge(nodes[0], node) then Some(0)
    else match FindFirstAdjacent(g, nodes[1..], node)
      case None => None
      case Some(k) => Some(k + 1)
  }

  /** `[w for w in nodes if not G.has_edge(x, w)]`. */
  function NonAdjacent(g: Graph, nodes: seq<nat>, x: nat): (r: seq<nat>)
    ensures forall w :: w in r <==> w in nodes && !g.HasEdge(x, w)
  {
    if nodes == [] then []
    else
      var rest := NonAdjacent(g, nodes[1..], x);
      assert nodes == [nodes[0]] + nodes[1..];
      if g.HasEdge(x, nodes[0]) then rest else [nodes[0]] + rest
  }

  /** Some vertex of `nodes` not adjacent to `x` is adjacent to `node`: this is what the
      filter followed by `_find_first_adjacent` decides. */
  lemma FirstAdjacentOfNonAdjacent(g: Graph, nodes: seq<nat>, x: nat, node: nat)
    ensures FindFirstAdjacent(g, NonAdjacent(g, nodes, x), node).Some? <==>
            exists w :: w in nodes && !g.HasEdge(x, w) && g.HasEdge(w, node)
  {
    var r := NonAdjacent(g, nodes, x);
    if FindFirstAdjacent(g, r, node).Some? {
      var i := FindFirstAdjacent(g, r, node).value;
      assert r[i] in r;
    }
    if exists w :: w in nodes && !g.HasEdge(x, w) && g.HasEdge(w, node) {
      var w :| w in nodes && !g.HasEdge(x, w) && g.HasEdge(w, node);
      assert w in r;
      var i :| 0 <= i < |r| && r[i] == w;
    }
  }

  // ---------------------------------------------------------------------------------------
  // The constraints graph and what the adders put into it

  /** The endpoints of a set of vertex pairs. */
  function Ends(pairs: set<(nat, nat)>): set<nat> {
    (set e | e in pairs :: e.0) + (set e | e in pairs :: e.1)
  }

  /** `after` is `before` with every pair of `pairs` added by `add_edge`: the endpoints
      become vertices and the two are adjacent; nothing else changes. */
  ghost predicate Adds(before: Graph, after: Graph, pairs: set<(nat, nat)>) {
    after.vertices == before.vertices + Ends(pairs) &&
    forall x: nat, y: nat :: after.HasEdge(x, y) <==> before.HasEdge(x, y) || (x, y) in pairs || (y, x) in pairs
  }

  /** Every edge joins two vertices of the graph: what networkx keeps, since `add_edge`
      adds the endpoints. */
  ghost predicate Closed(h: Graph) {
    forall x: nat, y: nat :: h.HasEdge(x, y) ==> x in h.vertices && y in h.vertices
  }

  lemma AddsNothing(h: Graph)
    ensures Adds(h, h, {})
  {
    assert Ends({}) == {};
  }

  lemma AddsEdge(h0: Graph, h1: Graph, pairs: set<(nat, nat)>, u: nat, v: nat)
    requires Adds(h0, h1, pairs)
    ensures Adds(h0, h1.AddEdge(u, v), pairs + {(u, v)})
  {
    assert Ends(pairs + {(u, v)}) == Ends(pairs) + {u, v};
  }

  lemma AddsTrans(h0: Graph, h1: Graph, h2: Graph, p: set<(nat, nat)>, q: set<(nat, nat)>)
    requires Adds(h0, h1, p) && Adds(h1, h2, q)
    ensures Adds(h0, h2, p + q)
  {
    assert Ends(p + q) == Ends(p) + Ends(q);
  }

  lemma AddsClosed(h0: Graph, h1: Graph, pairs: set<(nat, nat)>)
    requires Adds(h0, h1, pairs) && Closed(h0)
    ensures Closed(h1)
  {
    forall x: nat, y: nat | h1.HasEdge(x, y)
      ensures x in h1.vertices && y in h1.vertices
    {
      if (x, y) in pairs {
        assert x in Ends(pairs) && y in Ends(pairs);
      } else if (y, x) in pairs {
        assert x in Ends(pairs) && y in Ends(pairs);
      }
    }
  }

  // _add_last_constraints

  /** The pairs (before[a], before[j]), a < j < b, that make (before[a], before[j], node)
      incompatible: what the inner loop has added after reaching `b`. */
  function LastRow(g: Graph, before: seq<nat>, node: nat, a: nat, b: nat): set<(nat, nat)>
    requires a < |before| && b <= |before|
    decreases b
  {
    if b <= a + 1 then
      {}
    else
      var pair := (before[a], before[b - 1]);
      LastRow(g, before, node, a, b - 1) + (if IsIncompatibleTriple(g, pair.0, pair.1, node) then {pair} else {})
  }

  /** What the outer loop has added after the first `a` rows. */
  function LastRows(g: Graph, before: seq<nat>, node: nat, a: nat): set<(nat, nat)>
    requires a <= |before|
  {
    if a == 0 then {} else LastRows(g, before, node, a - 1) + LastRow(g, before, node, a - 1, |before|)
  }

  /** The pairs `_add_last_constraints` adds: (u, v), u before v in `before`, such that
      (u, v, node) is an incompatible triple. */
  function LastPairs(g: Graph, before: seq<nat>, node: nat): set<(nat, nat)> {
    LastRows(g, before, node, |before|)
  }

  lemma {:induction false} LastRowMembers(g: Graph, before: seq<nat>, node: nat, a: nat, b: nat, x: nat, y: nat)
    requires a < |before| && b <= |before|
    ensures (x, y) in LastRow(g, before, node, a, b) <==>
            exists j | a < j < b :: before[a] == x && before[j] == y && IsIncompatibleTriple(g, x, y, node)
    decreases b
  {
    if b > a + 1 {
      LastRowMembers(g, before, node, a, b - 1, x, y);
    }
  }

  lemma {:induction false} LastRowsMembers(g: Graph, before: seq<nat>, node: nat, a: nat, x: nat, y: nat)
    requires a <= |before|
    ensures (x, y) in LastRows(g, before, node, a) <==>
            exists i, j | 0 <= i < a && i < j < |before| :: before[i] == x && before[j] == y && IsIncompatibleTriple(g, x, y, node)
  {
    if a > 0 {
      LastRowsMembers(g, before, node, a - 1, x, y);
      LastRowMembers(g, before, node, a - 1, |before|, x, y);
    }
  }

  /** `_add_last_constraints` adds exactly the pairs u, v, u before v in `before`, with
      u ~ node and not v ~ node. */
  lemma LastPairsExactly(g: Graph, before: seq<nat>, node: nat)
    ensures forall x: nat, y: nat :: (x, y) in LastPairs(g, before, node) <==>
      exists i, j | 0 <= i < j < |before| :: before[i] == x && before[j] == y && IsIncompatibleTriple(g, x, y, node)
  {
    forall x: nat, y: nat
      ensures (x, y) in LastPairs(g, before, node) <==>
        exists i, j | 0 <= i < j < |before| :: before[i] == x && before[j] == y && IsIncompatibleTriple(g, x, y, node)
    {
      LastRowsMembers(g, before, node, |before|, x, y);
    }
  }

  /** A row whose first vertex is not adjacent to the new vertex adds nothing. */
  lemma {:induction false} LastRowEmpty(g: Graph, before: seq<nat>, node: nat, a: nat, b: nat)
    requires a < |before| && b <= |before| && !g.HasEdge(before[a], node)
    ensures LastRow(g, before, node, a, b) == {}
    decreases b
  {
    if b > a + 1 {
      LastRowEmpty(g, before, node, a, b - 1);
    }
  }

  lemma LastStep(g: Graph, before: seq<nat>, node: nat, a: nat, b: nat, h0: Graph, h1: Graph, h2: Graph)
    requires a < b < |before|
    requires Adds(h0, h1, LastRow(g, before, node, a, b))
    requires h2 == if IsIncompatibleTriple(g, before[a], before[b], node) then h1.AddEdge(before[a], before[b]) else h1
    ensures Adds(h0, h2, LastRow(g, before, node, a, b + 1))
  {
    if IsIncompatibleTriple(g, before[a], before[b], node) {
      AddsEdge(h0, h1, LastRow(g, before, node, a, b), before[a], before[b]);
    }
  }

  /** `_add_last_constraints(G, constraints_graph, before, new_node)`. */
  method AddLastConstraints(g: Graph, cg: MutableGraph, before: seq<nat>, node: nat)
    modifies cg
    ensures Adds(old(cg.Value()), cg.Value(), LastPairs(g, before, node))
  {
    ghost var h0 := cg.Value();
    AddsNothing(h0);
    var a := 0;
    while a < |before|
      invariant 0 <= a <= |before|
      invariant Adds(h0, cg.Value(), LastRows(g, before, node, a))
    {
      ghost var h1 := cg.Value();
      AddLastRow(g, cg, before, node, a);
      AddsTrans(h0, h1, cg.Value(), LastRows(g, before, node, a), LastRow(g, before, node, a, |before|));
      a := a + 1;
    }
  }

  /** One pass of the outer loop of `_add_last_constraints`: the vertex `before[a]` and the
      vertices after it. */
  method AddLastRow(g: Graph, cg: MutableGraph, before: seq<nat>, node: nat, a: nat)
    requires a < |before|
    modifies cg
    ensures Adds(old(cg.Value()), cg.Value(), LastRow(g, before, node, a, |before|))
  {
    ghost var h0 := cg.Value();
    AddsNothing(h0);
    var u := before[a];
    if g.HasEdge(u, node) {
      var b := a + 1;
      while b < |before|
        invariant a + 1 <= b <= |before|
        invariant Adds(h0, cg.Value(), LastRow(g, before, node, a, b))
      {
        var v := before[b];
        ghost var h1 := cg.Value();
        if !g.HasEdge(v, node) {
          cg.AddEdge(u, v);
        }
        LastStep(g, before, node, a, b, h0, h1, cg.Value());
        b := b + 1;
      }
    } else {
      LastRowEmpty(g, before, node, a, |before|);
    }
  }

  // _add_middle_constraints

  /** Some vertex `w` of `after` makes (u, node, w) incompatible. */
  ghost predicate MiddleWitness(g: Graph, after: seq<nat>, node: nat, u: nat) {
    exists w :: w in after && IsIncompatibleTriple(g, u, node, w)
  }

  /** What the loop over the first `a` entries of `before` has added. */
  ghost function MiddlePrefix(g: Graph, before: seq<nat>, after: seq<nat>, node: nat, a: nat): set<(nat, nat)>
    requires a <= |before|
  {
    if a == 0 then
      {}
    else
      var pair := (before[a - 1], node);
      MiddlePrefix(g, before, after, node, a - 1) + (if MiddleWitness(g, after, node, pair.0) then {pair} else {})
  }

  /** The pairs `_add_middle_constraints` adds. */
  ghost function MiddlePairs(g: Graph, before: seq<nat>, after: seq<nat>, node: nat): set<(nat, nat)> {
    MiddlePrefix(g, before, after, node, |before|)
  }

  lemma {:induction false} MiddlePrefixMembers(g: Graph, before: seq<nat>, after: seq<nat>, node: nat, a: nat, x: nat, y: nat)
    requires a <= |before|
    ensures (x, y) in MiddlePrefix(g, before, after, node, a) <==>
            y == node && exists i | 0 <= i < a :: before[i] == x && MiddleWitness(g, after, node, x)
  {
    if a > 0 {
      MiddlePrefixMembers(g, before, after, node, a - 1, x, y);
    }
  }

  /** `_add_middle_constraints` adds exactly the pairs (u, node), u in `before`, for which
      some w in `after` has u ~ w and not node ~ w. */
  lemma MiddlePairsExactly(g: Graph, before: seq<nat>, after: seq<nat>, node: nat)
    ensures forall x: nat, y: nat :: (x, y) in MiddlePairs(g, before, after, node) <==>
      y == node && x in before && exists w :: w in after && IsIncompatibleTriple(g, x, node, w)
  {
    forall x: nat, y: nat
      ensures (x, y) in MiddlePairs(g, before, after, node) <==>
        y == node && x in before && exists w :: w in after && IsIncompatibleTriple(g, x, node, w)
    {
      MiddlePrefixMembers(g, before, after, node, |before|, x, y);
    }
  }

  lemma MiddleStep(g: Graph, before: seq<nat>, after: seq<nat>, node: nat, a: nat, h0: Graph, h1: Graph, h2: Graph)
    requires a < |before|
    requires Adds(h0, h1, MiddlePrefix(g, before, after, node, a))
    requires Adds(h1, h2, if MiddleWitness(g, after, node, before[a]) then {(before[a], node)} else {})
    ensures Adds(h0, h2, MiddlePrefix(g, before, after, node, a + 1))
  {
    AddsTrans(h0, h1, h2, MiddlePrefix(g, before, after, node, a), if MiddleWitness(g, after, node, before[a]) then {(before[a], node)} else {});
  }

  /** One pass of the loop of `_add_middle_constraints`: the vertex `before[a]`. */
  method AddMiddleConstraint(g: Graph, cg: MutableGraph, nonadjacentAfter: seq<nat>, before: seq<nat>, after: seq<nat>, node: nat, a: nat)
    requires a < |before| && nonadjacentAfter == NonAdjacent(g, after, node)
    modifies cg
    ensures Adds(old(cg.Value()), cg.Value(), if MiddleWitness(g, after, node, before[a]) then {(before[a], node)} else {})
  {
    ghost var h0 := cg.Value();
    var u := before[a];
    FirstAdjacentOfNonAdjacent(g, after, node, u);
    AddsNothing(h0);
    if FindFirstAdjacent(g, nonadjacentAfter, u).Some? {
      var w :| w in after && !g.HasEdge(node, w) && g.HasEdge(w, u);
      assert IsIncompatibleTriple(g, u, node, w);
      AddsEdge(h0, h0, {}, u, node);
      cg.AddEdge(u, node);
      assert {} + {(u, node)} == {(u, node)};
    } else {
      assert !MiddleWitness(g, after, node, u);
    }
  }

  /** `_add_middle_constraints(G, constraints_graph, before, after, new_node)`. */
  method AddMiddleConstraints(g: Graph, cg: MutableGraph, before: seq<nat>, after: seq<nat>, node: nat)
    modifies cg
    ensures Adds(old(cg.Value()), cg.Value(), MiddlePairs(g, before, after, node))
  {
    ghost var h0 := cg.Value();
    AddsNothing(h0);
    var nonadjacentAfter := NonAdjacent(g, after, node);
    var a := 0;
    while a < |before|
      invariant 0 <= a <= |before|
      invariant Adds(h0, cg.Value(), MiddlePrefix(g, before, after, node, a))
    {
      ghost var h1 := cg.Value();
      AddMiddleConstraint(g, cg, nonadjacentAfter, before, after, node, a);
      MiddleStep(g, before, after, node, a, h0, h1, cg.Value());
      a := a + 1;
    }
  }

  // _add_first_constraints

  /** Some `w` after position b of `after` makes (node, after[b], w) incompatible. */
  ghost predicate FirstWitness(g: Graph, after: seq<nat>, node: nat, b: nat)
    requires b < |after|
  {
    exists w :: w in after[b + 1..] && IsIncompatibleTriple(g, node, after[b], w)
  }

  ghost function FirstPrefix(g: Graph, after: seq<nat>, node: nat, b: nat): set<(nat, nat)>
    requires b <= |after|
  {
    if b == 0 then
      {}
    else
      var pair := (node, after[b - 1]);
      FirstPrefix(g, after, node, b - 1) + (if FirstWitness(g, after, node, b - 1) then {pair} else {})
  }

  /** The pairs `_add_first_constraints` adds. */
  ghost function FirstPairs(g: Graph, after: seq<nat>, node: nat): set<(nat, nat)> {
    FirstPrefix(g, after, node, |after|)
  }

  lemma {:induction false} FirstPrefixMembers(g: Graph, after: seq<nat>, node: nat, b: nat, x: nat, y: nat)
    requires b <= |after|
    ensures (x, y) in FirstPrefix(g, after, node, b) <==>
            x == node && exists j | 0 <= j < b :: after[j] == y && FirstWitness(g, after, node, j)
  {
    if b > 0 {
      FirstPrefixMembers(g, after, node, b - 1, x, y);
    }
  }

  /** `_add_first_constraints` adds exactly the pairs (node, v), v in `after`, for which
      some w later in `after` has node ~ w and not v ~ w. */
  lemma FirstPairsExactly(g: Graph, after: seq<nat>, node: nat)
    ensures forall x: nat, y: nat :: (x, y) in FirstPairs(g, after, node) <==>
      x == node && exists j, k | 0 <= j < k < |after| :: after[j] == y && IsIncompatibleTriple(g, node, y, after[k])
  {
    forall x: nat, y: nat
      ensures (x, y) in FirstPairs(g, after, node) <==>
        x == node && exists j, k | 0 <= j < k < |after| :: after[j] == y && IsIncompatibleTriple(g, node, y, after[k])
    {
      FirstPrefixMembers(g, after, node, |after|, x, y);
      if x == node && exists j, k | 0 <= j < k < |after| :: after[j] == y && IsIncompatibleTriple(g, node, y, after[k]) {
        var j, k :| 0 <= j < k < |after| && after[j] == y && IsIncompatibleTriple(g, node, y, after[k]);
        FirstWitnessAt(g, after, node, j, k);
      }
      if (x, y) in FirstPairs(g, after, node) {
        var j :| 0 <= j < |after| && after[j] == y && FirstWitness(g, after, node, j);
        var k := FirstWitnessIndex(g, after, node, j);
      }
    }
  }

  lemma FirstWitnessAt(g: Graph, after: seq<nat>, node: nat, j: nat, k: nat)
    requires j < k < |after| && IsIncompatibleTriple(g, node, after[j], after[k])
    ensures FirstWitness(g, after, node, j)
  {
    assert after[k] == after[j + 1..][k - j - 1];
  }

  lemma FirstWitnessIndex(g: Graph, after: seq<nat>, node: nat, j: nat) returns (k: nat)
    requires j < |after| && FirstWitness(g, after, node, j)
    ensures j < k < |after| && IsIncompatibleTriple(g, node, after[j], after[k])
  {
    var w :| w in after[j + 1..] && IsIncompatibleTriple(g, node, after[j], w);
    var m :| 0 <= m < |after[j + 1..]| && after[j + 1..][m] == w;
    k := j + 1 + m;
  }

  lemma FirstStep(g: Graph, after: seq<nat>, node: nat, b: nat, h0: Graph, h1: Graph, h2: Graph)
    requires b < |after|
    requires Adds(h0, h1, FirstPrefix(g, after, node, b))
    requires Adds(h1, h2, if FirstWitness(g, after, node, b) then {(node, after[b])} else {})
    ensures Adds(h0, h2, FirstPrefix(g, after, node, b + 1))
  {
    AddsTrans(h0, h1, h2, FirstPrefix(g, after, node, b), if FirstWitness(g, after, node, b) then {(node, after[b])} else {});
  }

  /** One pass of the loop of `_add_first_constraints`: the vertex `after[b]`. */
  method AddFirstConstraint(g: Graph, cg: MutableGraph, after: seq<nat>, node: nat, b: nat)
    requires b < |after|
    modifies cg
    ensures Adds(old(cg.Value()), cg.Value(), if FirstWitness(g, after, node, b) then {(node, after[b])} else {})
  {
    ghost var h0 := cg.Value();
    var v := after[b];
    var nonadjacentV := NonAdjacent(g, after[b + 1..], v);
    FirstAdjacentOfNonAdjacent(g, after[b + 1..], v, node);
    if FindFirstAdjacent(g, nonadjacentV, node).Some? {
      var w :| w in after[b + 1..] && !g.HasEdge(v, w) && g.HasEdge(w, node);
      assert IsIncompatibleTriple(g, node, v, w);
      AddsNothing(h0);
      AddsEdge(h0, h0, {}, node, v);
      cg.AddEdge(node, v);
      assert {} + {(node, v)} == {(node, v)};
    } else {
      assert !FirstWitness(g, after, node, b);
      AddsNothing(h0);
    }
  }

  /** `_add_first_constraints(G, constraints_graph, after, new_node)`. */
  method AddFirstConstraints(g: Graph, cg: MutableGraph, after: seq<nat>, node: nat)
    modifies cg
    ensures Adds(old(cg.Value()), cg.Value(), FirstPairs(g, after, node))
  {
    ghost var h0 := cg.Value();
    AddsNothing(h0);
    var b := 0;
    while b < |after|
      invariant 0 <= b <= |after|
      invariant Adds(h0, cg.Value(), FirstPrefix(g, after, node, b))
    {
      ghost var h1 := cg.Value();
      AddFirstConstraint(g, cg, after, node, b);
      FirstStep(g, after, node, b, h0, h1, cg.Value());
      b := b + 1;
    }
  }

  // ---------------------------------------------------------------------------------------
  // _add_constraints and _extend_constraints_graph

  /** Every pair the three adders put in for `node` between `before` and `after`. */
  ghost function ConstraintPairs(g: Graph, before: seq<nat>, after: seq<nat>, node: nat): set<(nat, nat)> {
    LastPairs(g, before, node) + MiddlePairs(g, before, after, node) + FirstPairs(g, after, node)
  }

  /** `_add_constraints(G, constraints_graph, before, after, new_node)`. */
  method AddConstraints(g: Graph, cg: MutableGraph, before: seq<nat>, after: seq<nat>, node: nat)
    modifies cg
    ensures Adds(old(cg.Value()), cg.Value(), ConstraintPairs(g, before, after, node))
  {
    ghost var h0 := cg.Value();
    AddLastConstraints(g, cg, before, node);
    ghost var h1 := cg.Value();
    AddMiddleConstraints(g, cg, before, after, node);
    ghost var h2 := cg.Value();
    AddFirstConstraints(g, cg, after, node);
    AddsTrans(h0, h1, h2, LastPairs(g, before, node), MiddlePairs(g, before, after, node));
    AddsTrans(h0, h2, cg.Value(), LastPairs(g, before, node) + MiddlePairs(g, before, after, node), FirstPairs(g, after, node));
  }

  /** `_extend_constraints_graph(G, constraints_graph, ordering, new_node)`: a copy of the
      constraints graph with the constraints `new_node` brings at its first position. The
      graph passed in is not changed. A `new_node` missing from `ordering` raises
      `ValueError` in `list.index`; callers never pass one. */
  method ExtendConstraintsGraph(g: Graph, cg: MutableGraph, ordering: seq<nat>, node: nat) returns (result: MutableGraph)
    requires node in ordering
    ensures fresh(result)
    ensures var p := FirstIndex(ordering, node).value;
      Adds(cg.Value(), result.Value(), ConstraintPairs(g, ordering[..p], ordering[p + 1..], node))
  {
    result := new MutableGraph(cg.Value());
    var position := FirstIndex(ordering, node).value;
    var before := ordering[..position];
    var after := ordering[position + 1..];
    AddConstraints(g, result, before, after, node);
  }

  /** The order with the entry at `p` removed, read position by position. */
  lemma RemoveAtIndex(o: seq<nat>, p: nat, t: nat)
    requires p < |o| && t < |o| - 1
    ensures RemoveAt(o, p)[t] == if t < p then o[t] else o[t + 1]
  {
  }

  /** A triple that does not use position p is still there once p is removed. */
  lemma KeptTriple(g: Graph, o: seq<nat>, p: nat, i: nat, j: nat, k: nat)
    requires p < |o| && i < j < k < |o| && p != i && p != j && p != k
    requires IsIncompatibleTriple(g, o[i], o[j], o[k])
    ensures HasIncompatibleTriple(g, RemoveAt(o, p), o[i], o[j])
  {
    var i' := if i < p then i else i - 1;
    var j' := if j < p then j else j - 1;
    var k' := if k < p then k else k - 1;
    RemoveAtIndex(o, p, i');
    RemoveAtIndex(o, p, j');
    RemoveAtIndex(o, p, k');
    assert RemoveAt(o, p)[i'] == o[i] && RemoveAt(o, p)[j'] == o[j] && RemoveAt(o, p)[k'] == o[k];
  }

  /** A triple of the order without position p is a triple of the whole order. */
  lemma RestoredTriple(g: Graph, o: seq<nat>, p: nat, x: nat, y: nat)
    requires p < |o| && HasIncompatibleTriple(g, RemoveAt(o, p), x, y)
    ensures HasIncompatibleTriple(g, o, x, y)
  {
    var r := RemoveAt(o, p);
    var i, j, k :| 0 <= i < j < k < |r| && r[i] == x && r[j] == y && IsIncompatibleTriple(g, x, y, r[k]);
    RemoveAtIndex(o, p, i);
    RemoveAtIndex(o, p, j);
    RemoveAtIndex(o, p, k);
    var i' := if i < p then i else i + 1;
    var j' := if j < p then j else j + 1;
    var k' := if k < p then k else k + 1;
    assert o[i'] == x && o[j'] == y && o[k'] == r[k];
  }

  /** A triple through position p is one of the pairs the adders put in. */
  lemma TripleThroughNode(g: Graph, o: seq<nat>, p: nat, i: nat, j: nat, k: nat)
    requires p < |o| && i < j < k < |o| && (p == i || p == j || p == k)
    requires IsIncompatibleTriple(g, o[i], o[j], o[k])
    ensures (o[i], o[j]) in ConstraintPairs(g, o[..p], o[p + 1..], o[p])
  {
    var before, after := o[..p], o[p + 1..];
    if p == k {
      LastPairsExactly(g, before, o[p]);
      assert before[i] == o[i] && before[j] == o[j];
    } else if p == j {
      MiddlePairsExactly(g, before, after, o[p]);
      assert before[i] == o[i] && after[k - p - 1] == o[k];
      assert o[i] in before && o[k] in after;
    } else {
      FirstPairsExactly(g, after, o[p]);
      assert after[j - p - 1] == o[j] && after[k - p - 1] == o[k];
    }
  }

  /** A pair the adders put in comes from a triple through position p. */
  lemma PairHasTriple(g: Graph, o: seq<nat>, p: nat, x: nat, y: nat)
    requires p < |o| && (x, y) in ConstraintPairs(g, o[..p], o[p + 1..], o[p])
    ensures HasIncompatibleTriple(g, o, x, y)
  {
    if (x, y) in LastPairs(g, o[..p], o[p]) {
      LastPairHasTriple(g, o, p, x, y);
    } else if (x, y) in MiddlePairs(g, o[..p], o[p + 1..], o[p]) {
      MiddlePairHasTriple(g, o, p, x, y);
    } else {
      FirstPairHasTriple(g, o, p, x, y);
    }
  }

  lemma LastPairHasTriple(g: Graph, o: seq<nat>, p: nat, x: nat, y: nat)
    requires p < |o| && (x, y) in LastPairs(g, o[..p], o[p])
    ensures HasIncompatibleTriple(g, o, x, y)
  {
    var before := o[..p];
    LastPairsExactly(g, before, o[p]);
    var i, j :| 0 <= i < j < |before| && before[i] == x && before[j] == y && IsIncompatibleTriple(g, x, y, o[p]);
    assert o[i] == x && o[j] == y;
  }

  lemma MiddlePairHasTriple(g: Graph, o: seq<nat>, p: nat, x: nat, y: nat)
    requires p < |o| && (x, y) in MiddlePairs(g, o[..p], o[p + 1..], o[p])
    ensures HasIncompatibleTriple(g, o, x, y)
  {
    var before, after := o[..p], o[p + 1..];
    MiddlePairsExactly(g, before, after, o[p]);
    var w :| w in after && IsIncompatibleTriple(g, x, o[p], w);
    var i :| 0 <= i < |before| && before[i] == x;
    var c :| 0 <= c < |after| && after[c] == w;
    assert o[i] == x && o[p] == y && o[p + 1 + c] == w;
  }

  lemma FirstPairHasTriple(g: Graph, o: seq<nat>, p: nat, x: nat, y: nat)
    requires p < |o| && (x, y) in FirstPairs(g, o[p + 1..], o[p])
    ensures HasIncompatibleTriple(g, o, x, y)
  {
    var after := o[p + 1..];
    FirstPairsExactly(g, after, o[p]);
    var j, k :| 0 <= j < k < |after| && after[j] == y && IsIncompatibleTriple(g, o[p], y, after[k]);
    assert o[p] == x && o[p + 1 + j] == y && o[p + 1 + k] == after[k];
  }

  /** The pairs the adders put in for the entry at position p are exactly the incompatible
      pairs of the order that the order without p does not already have: the constraints
      graph grown one insertion at a time matches the one built for the whole order. */
  lemma ExtendMatchesBatch(g: Graph, o: seq<nat>, p: nat)
    requires p < |o|
    ensures forall x: nat, y: nat :: HasIncompatibleTriple(g, o, x, y) <==>
      HasIncompatibleTriple(g, RemoveAt(o, p), x, y) || (x, y) in ConstraintPairs(g, o[..p], o[p + 1..], o[p])
  {
    forall x: nat, y: nat
      ensures HasIncompatibleTriple(g, o, x, y) <==>
        HasIncompatibleTriple(g, RemoveAt(o, p), x, y) || (x, y) in ConstraintPairs(g, o[..p], o[p + 1..], o[p])
    {
      if HasIncompatibleTriple(g, o, x, y) {
        var i, j, k :| 0 <= i < j < k < |o| && o[i] == x && o[j] == y && IsIncompatibleTriple(g, x, y, o[k]);
        if p == i || p == j || p == k {
          TripleThroughNode(g, o, p, i, j, k);
        } else {
          KeptTriple(g, o, p, i, j, k);
        }
      }
      if HasIncompatibleTriple(g, RemoveAt(o, p), x, y) {
        RestoredTriple(g, o, p, x, y);
      }
      if (x, y) in ConstraintPairs(g, o[..p], o[p + 1..], o[p]) {
        PairHasTriple(g, o, p, x, y);
      }
    }
  }

  /** The adjacency a constraints graph must have for `ordering`: the compatibility graph of
      src/compatibility.py. */
  ghost predicate Tracks(g: Graph, h: Graph, ordering: seq<nat>) {
    Closed(h) && forall x: nat, y: nat :: h.HasEdge(x, y) <==> Joined(g, ordering, x, y)
  }

  /** Extending a graph that tracks the order without position p gives one that tracks the
      whole order. */
  lemma ExtensionTracks(g: Graph, h0: Graph, h1: Graph, o: seq<nat>, p: nat)
    requires p < |o| && Tracks(g, h0, RemoveAt(o, p))
    requires Adds(h0, h1, ConstraintPairs(g, o[..p], o[p + 1..], o[p]))
    ensures Tracks(g, h1, o)
  {
    ExtendMatchesBatch(g, o, p);
    AddsClosed(h0, h1, ConstraintPairs(g, o[..p], o[p + 1..], o[p]));
  }

  /** An induced subgraph that keeps every vertex of the order has the same incompatible
      triples over it, so `_calculate_thinness_for_suborder` may work on
      `induced_subgraph(G, ordering)`. */
  lemma InducedTriples(g: Graph, keep: set<nat>, o: seq<nat>, x: nat, y: nat)
    requires forall i | 0 <= i < |o| :: o[i] in keep
    ensures HasIncompatibleTriple(g.Induced(keep), o, x, y) <==> HasIncompatibleTriple(g, o, x, y)
  {
    var h := g.Induced(keep);
    forall i, j, k | 0 <= i < j < k < |o|
      ensures IsIncompatibleTriple(h, o[i], o[j], o[k]) <==> IsIncompatibleTriple(g, o[i], o[j], o[k])
    {
      assert o[i] in keep && o[j] in keep && o[k] in keep;
      assert h.HasEdge(o[i], o[k]) <==> g.HasEdge(o[i], o[k]);
      assert h.HasEdge(o[j], o[k]) <==> g.HasEdge(o[j], o[k]);
    }
  }

  lemma InducedTracks(g: Graph, keep: set<nat>, h: Graph, o: seq<nat>)
    requires forall i | 0 <= i < |o| :: o[i] in keep
    ensures Tracks(g.Induced(keep), h, o) <==> Tracks(g, h, o)
  {
    forall x: nat, y: nat
      ensures Joined(g.Induced(keep), o, x, y) <==> Joined(g, o, x, y)
    {
      InducedTriples(g, keep, o, x, y);
      InducedTriples(g, keep, o, y, x);
    }
  }

  // ---------------------------------------------------------------------------------------
  // The colouring

  /** What networkx's `greedy_color` returns: a colour for every vertex of the graph, and
      different colours at the two ends of each edge. It is taken as given. */
  predicate ProperMapColoring(h: Graph, col: map<nat, nat>) {
    col.Keys == h.vertices &&
    forall u, v | u in col && v in col && u != v && h.HasEdge(u, v) :: col[u] != col[v]
  }

  /** `_cocomparability_coloring`: a colouring function that is always proper. Nothing is
      assumed about how many colours it uses. */
  ghost predicate GreedyColoringOracle(coloring: Graph -> map<nat, nat>) {
    forall h: Graph :: ProperMapColoring(h, coloring(h))
  }

  /** A proper colouring of a constraints graph that tracks a duplicate-free order is a
      consistent solution for that order. Vertices left uncoloured have no constraint, so
      the class 0 that `complete_partition` gives them is safe. */
  lemma ColoringConsistent(g: Graph, h: Graph, o: seq<nat>, col: map<nat, nat>)
    requires Distinct(o) && Tracks(g, h, o) && ProperMapColoring(h, col)
    ensures VerifyDictSolution(g, DictSolution(o, col))
  {
    var s := DictSolution(o, col);
    forall i, j, k | 0 <= i < j < k < |o|
      ensures !DictViolates(g, s, o[i], o[j], o[k])
    {
      if IsIncompatibleTriple(g, o[i], o[j], o[k]) {
        assert HasIncompatibleTriple(g, o, o[i], o[j]);
        assert h.HasEdge(o[i], o[j]);
        assert o[i] in col && o[j] in col && o[i] != o[j];
      }
    }
    VerifyDictByPositions(g, s);
  }

  /** `_calculate_thinness_for_ordering`: extend the constraints graph for `new_node` and
      colour it. */
  method ThinnessForOrdering(g: Graph, cg: MutableGraph, ordering: seq<nat>, node: nat,
                             coloring: Graph -> map<nat, nat>)
    returns (partition: map<nat, nat>, extended: MutableGraph)
    requires node in ordering
    ensures fresh(extended)
    ensures var p := FirstIndex(ordering, node).value;
      Adds(cg.Value(), extended.Value(), ConstraintPairs(g, ordering[..p], ordering[p + 1..], node))
    ensures partition == coloring(extended.Value())
  {
    extended := ExtendConstraintsGraph(g, cg, ordering, node);
    partition := coloring(extended.Value());
  }

  // ---------------------------------------------------------------------------------------
  // The backtracking

  /** `remaining_nodes`: the Python set of vertices not yet placed, shared by the whole
      search, which pops a vertex and adds it back. */
  class NodeSet {
    var items: set<nat>

    constructor (s: set<nat>)
      ensures items == s
    {
      items := s;
    }

    /** `set.pop()`: some element, removed. Which one is not specified. */
    method Pop() returns (x: nat)
      requires items != {}
      modifies this
      ensures x in old(items) && items == old(items) - {x}
    {
      x :| x in items;
      items := items - {x};
    }

    /** `set.add(x)`. */
    method Add(x: nat)
      modifies this
      ensures items == old(items) + {x}
    {
      items := items + {x};
    }
  }

  /** What the search promises of a solution it returns for `ordering` and the vertices
      `rest` still to place: the order is `ordering` with `rest` inserted, without
      repetition, it passes `verify_solution`, and it uses fewer classes than `bound`. */
  ghost predicate Found(g: Graph, s: DictSolution, ordering: seq<nat>, rest: set<nat>, bound: int) {
    Distinct(s.ordering) && Elems(s.ordering) == Elems(ordering) + rest &&
    VerifyDictSolution(g, s) && s.NumberOfClasses() < bound
  }

  /** One pass of the loop of `_calculate_thinness_for_strict_suborder`: the search from
      `ordering` with `next` inserted at `index`. */
  method ThinnessForInsertion(g: Graph, cg: MutableGraph, ordering: seq<nat>, next: nat, candidate: seq<nat>,
                              index: nat, remaining: NodeSet, lowerBound: int, bound: int,
                              coloring: Graph -> map<nat, nat>)
    returns (solution: Option<DictSolution>)
    requires GreedyColoringOracle(coloring)
    requires Distinct(ordering) && Tracks(g, cg.Value(), ordering)
    requires index <= |ordering| && candidate == Insertions(ordering, next)[index]
    requires next !in ordering && next !in remaining.items && Elems(ordering) !! remaining.items
    modifies remaining
    ensures remaining.items == old(remaining.items)
    ensures solution.Some? ==> Found(g, solution.value, ordering, old(remaining.items) + {next}, bound)
    decreases |remaining.items|, 2
  {
    InsertionsRemove(ordering, next, index);
    InsertionDistinct(ordering, next, index);
    solution := ThinnessForSuborder(g, cg, candidate, next, index, remaining, lowerBound, bound, coloring);
    assert Elems(ordering) + {next} + remaining.items == Elems(ordering) + (remaining.items + {next});
  }

  /** In a duplicate-free order, `index` finds the one position of an entry. */
  lemma FirstIndexDistinct(s: seq<nat>, p: nat)
    requires Distinct(s) && p < |s|
    ensures FirstIndex(s, s[p]) == Some(p)
  {
    var r := FirstIndex(s, s[p]);
    assert s[p] in s;
    var q := r.value;
    assert forall t | 0 <= t < q :: s[..q][t] == s[t];
    assert q <= p;
  }

  /** Every insertion of a new vertex into a duplicate-free order is duplicate-free and holds
      the order's vertices and the new one. */
  lemma InsertionDistinct(xs: seq<nat>, e: nat, i: nat)
    requires Distinct(xs) && e !in xs && i <= |xs|
    ensures Distinct(Insertions(xs, e)[i])
    ensures Elems(Insertions(xs, e)[i]) == Elems(xs) + {e}
  {
    var c := Insertions(xs, e)[i];
    assert c == xs[..i] + [e] + xs[i..];
    forall a, b | 0 <= a < b < |c|
      ensures c[a] != c[b]
    {
      if a < i && b > i {
        assert c[a] == xs[a] && c[b] == xs[b - 1];
      } else if b < i {
        assert c[a] == xs[a] && c[b] == xs[b];
      } else if a > i {
        assert c[a] == xs[a - 1] && c[b] == xs[b - 1];
      } else if a == i {
        assert c[b] == xs[b - 1];
      } else {
        assert c[a] == xs[a];
      }
    }
    assert xs == xs[..i] + xs[i..];
    assert Elems(c) == Elems(xs[..i]) + {e} + Elems(xs[i..]);
  }

  /** The entries of an order without position p are entries of the order. */
  lemma RemoveAtElems(o: seq<nat>, p: nat)
    requires p < |o|
    ensures forall t | 0 <= t < |RemoveAt(o, p)| :: RemoveAt(o, p)[t] in Elems(o)
  {
    forall t | 0 <= t < |RemoveAt(o, p)|
      ensures RemoveAt(o, p)[t] in Elems(o)
    {
      RemoveAtIndex(o, p, t);
    }
  }

  /** `_calculate_thinness_for_suborder`: extend the constraints graph for `new_node` (at
      position `position` of `ordering`) over the subgraph induced by `ordering`, colour it,
      give up when the colouring uses `upper_bound` classes or more, return the solution when
      nothing remains, and otherwise go on placing the remaining vertices. */
  method ThinnessForSuborder(g: Graph, cg: MutableGraph, ordering: seq<nat>, node: nat, ghost position: nat,
                             remaining: NodeSet, lowerBound: int, upperBound: int,
                             coloring: Graph -> map<nat, nat>)
    returns (r: Option<DictSolution>)
    requires GreedyColoringOracle(coloring)
    requires position < |ordering| && ordering[position] == node && Distinct(ordering)
    requires Tracks(g, cg.Value(), RemoveAt(ordering, position))
    requires Elems(ordering) !! remaining.items
    modifies remaining
    ensures remaining.items == old(remaining.items)
    ensures r.Some? ==> Found(g, r.value, ordering, old(remaining.items), upperBound)
    decreases |remaining.items|, 1
  {
    var subG := g.Induced(Elems(ordering));
    FirstIndexDistinct(ordering, position);
    RemoveAtElems(ordering, position);
    InducedTracks(g, Elems(ordering), cg.Value(), RemoveAt(ordering, position));
    var partition, extended := ThinnessForOrdering(subG, cg, ordering, node, coloring);
    ExtensionTracks(subG, cg.Value(), extended.Value(), ordering, position);
    InducedTracks(g, Elems(ordering), extended.Value(), ordering);
    var best := DictSolution(ordering, partition);
    var thinness := best.NumberOfClasses();
    if thinness >= upperBound {
      return None;
    }
    if |remaining.items| == 0 {
      ColoringConsistent(g, extended.Value(), ordering, partition);
      return Some(best);
    }
    r := ThinnessForStrictSuborder(g, extended, ordering, remaining, lowerBound, upperBound, coloring);
  }

  /** `_calculate_thinness_for_strict_suborder`: pop a remaining vertex, try it at every
      position of `ordering`, keep a solution when it uses fewer classes than the bound and
      lower the bound to it, stop once the bound reaches `lower_bound`, and put the vertex
      back. */
  method ThinnessForStrictSuborder(g: Graph, cg: MutableGraph, ordering: seq<nat>, remaining: NodeSet,
                                   lowerBound: int, upperBound: int, coloring: Graph -> map<nat, nat>)
    returns (best: Option<DictSolution>)
    requires GreedyColoringOracle(coloring)
    requires Distinct(ordering) && Tracks(g, cg.Value(), ordering)
    requires remaining.items != {} && Elems(ordering) !! remaining.items
    modifies remaining
    ensures remaining.items == old(remaining.items)
    ensures best.Some? ==> Found(g, best.value, ordering, old(remaining.items), upperBound)
    decreases |remaining.items|, 0
  {
    ghost var rest := remaining.items;
    best := None;
    var bound := upperBound;
    var next := remaining.Pop();
    assert next !in ordering;
    var candidates := Insertions(ordering, next);
    var index := 0;
    while index < |candidates|
      invariant 0 <= index <= |candidates|
      invariant remaining.items == rest - {next}
      invariant best.None? ==> bound == upperBound
      invariant best.Some? ==> best.value.NumberOfClasses() == bound < upperBound
      invariant best.Some? ==> Found(g, best.value, ordering, rest, upperBound)
      invariant next in rest && next !in ordering && Elems(ordering) !! rest
    {
      var solution := ThinnessForInsertion(g, cg, ordering, next, candidates[index], index, remaining,
                                           lowerBound, bound, coloring);
      if solution.Some? {
        assert (rest - {next}) + {next} == rest;
        var newThinness := solution.value.NumberOfClasses();
        if newThinness < bound {
          bound := newThinness;
          best := solution;
        }
        if bound <= lowerBound {
          break;
        }
      }
      index := index + 1;
    }
    remaining.Add(next);
  }

  /** `upper_bound or max(1, G.number_of_nodes() - 1)`: a missing bound and a bound of 0
      both fall back. */
  function BacktrackingUpperBound(upperBound: Option<int>, n: nat): (r: int)
    ensures upperBound.Some? && upperBound.value != 0 ==> r == upperBound.value
    ensures upperBound.None? || upperBound.value == 0 ==> r == Max(1, n - 1)
  {
    if upperBound.Some? && upperBound.value != 0 then upperBound.value else Max(1, n - 1)
  }

  /** `calculate_thinness_backtracking(G, lower_bound, upper_bound)`: start from one vertex
      popped from the vertex set and an empty constraints graph. A returned solution orders
      every vertex once, passes `verify_solution` and uses fewer classes than the bound; the
      bound is exclusive here. An empty graph makes `set.pop()` raise `KeyError`. */
  method CalculateThinnessBacktracking(g: Graph, lowerBound: int, upperBound: Option<int>,
                                       coloring: Graph -> map<nat, nat>)
    returns (r: Option<DictSolution>)
    requires g.vertices != {} && GreedyColoringOracle(coloring)
    ensures r.Some? ==> Distinct(r.value.ordering) && Elems(r.value.ordering) == g.vertices
    ensures r.Some? ==> |r.value.ordering| == g.Order()
    ensures r.Some? ==> VerifyDictSolution(g, r.value)
    ensures r.Some? ==> r.value.NumberOfClasses() < BacktrackingUpperBound(upperBound, g.Order())
  {
    var nodes := new NodeSet(g.vertices);
    var first := nodes.Pop();
    var ordering := [first];
    var cg := new MutableGraph(Graph({}, {}));
    assert RemoveAt(ordering, 0) == [];
    assert Elems(ordering) == {first};
    r := ThinnessForSuborder(g, cg, ordering, first, 0, nodes, lowerBound,
                             BacktrackingUpperBound(upperBound, g.Order()), coloring);
    if r.Some? {
      DistinctSize(r.value.ordering);
    }
  }
}
