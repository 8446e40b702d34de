/** `verify_solution` of thinness/verify.py: the ground-truth check that an order and a
    partition are consistent for a graph. */
module Verify {
  import opened Graphs
  import opened Itertools
  import opened Wrappers
  import opened ConsistentSolution
  import opened Compatibility

  /** The triple (u, v, w), met in this order, breaks consistency: u and v share a class,
      u is adjacent to w and v is not. */
  predicate Violates(g: Graph, s: Solution, u: nat, v: nat, w: nat) {
    SameClass(s, u, v) && IsIncompatibleTriple(g, u, v, w)
  }

  /** `verify_solution(G, solution)`: the order has as many entries as the graph has
      vertices, and no triple from `combinations(order, 3)` breaks consistency. */
  predicate VerifySolution(g: Graph, s: Solution) {
    g.Order() == |s.order| && !AnyViolation(g, s)
  }

  /** The `any(...)` of `verify_solution`. */
  predicate AnyViolation(g: Graph, s: Solution) {
    exists t | t in Combinations(s.order, 3) :: |t| == 3 && Violates(g, s, t[0], t[1], t[2])
  }

  /** The same check stated over positions: no i < j < k breaks consistency. */
  predicate ConsistentOrder(g: Graph, s: Solution) {
    forall i, j, k | 0 <= i < j < k < |s.order| :: !Violates(g, s, s.order[i], s.order[j], s.order[k])
  }

  /** A consistent solution: the length matches and no position triple breaks consistency.
      The lemma below shows this is exactly what `verify_solution` accepts. */
  predicate Consistent(g: Graph, s: Solution) {
    g.Order() == |s.order| && ConsistentOrder(g, s)
  }

  /** `verify_solution` accepts exactly when the length matches and no i < j < k in the
      order breaks consistency. */
  lemma VerifySolutionByPositions(g: Graph, s: Solution)
    ensures VerifySolution(g, s) <==> Consistent(g, s)
  {
    if !ConsistentOrder(g, s) {
      var i, j, k :| 0 <= i < j < k < |s.order| && Violates(g, s, s.order[i], s.order[j], s.order[k]);
      ViolationIsFound(g, s, i, j, k);
    }
    if AnyViolation(g, s) {
      FoundViolationIsReal(g, s);
    }
  }

  lemma ViolationIsFound(g: Graph, s: Solution, i: nat, j: nat, k: nat)
    requires i < j < k < |s.order| && Violates(g, s, s.order[i], s.order[j], s.order[k])
    ensures AnyViolation(g, s)
  {
    var t := [s.order[i], s.order[j], s.order[k]];
    TripleInCombinations(s.order, i, j, k);
    assert |t| == 3 && Violates(g, s, t[0], t[1], t[2]);
  }

  lemma FoundViolationIsReal(g: Graph, s: Solution)
    requires AnyViolation(g, s)
    ensures !ConsistentOrder(g, s)
  {
    var t :| t in Combinations(s.order, 3) && |t| == 3 && Violates(g, s, t[0], t[1], t[2]);
    TripleOfMember(s.order, t);
    var i, j, k :| 0 <= i < j < k < |s.order| && t == [s.order[i], s.order[j], s.order[k]];
    assert Violates(g, s, s.order[i], s.order[j], s.order[k]);
  }

  /** A length mismatch is always rejected. */
  lemma WrongLengthRejected(g: Graph, s: Solution)
    requires g.Order() != |s.order|
    ensures !VerifySolution(g, s)
  {
  }

  /** With at most two entries there is no triple, so a matching length is accepted. */
  lemma ShortOrderAccepted(g: Graph, s: Solution)
    requires g.Order() == |s.order| <= 2
    ensures VerifySolution(g, s)
  {
    VerifySolutionByPositions(g, s);
  }

  /** Vertices in no class both get `None` and so count as one class: a triple of such
      vertices with u ~ w and not v ~ w is rejected whatever the classes are. */
  lemma UnassignedShareAClass(g: Graph, s: Solution, i: nat, j: nat, k: nat)
    requires i < j < k < |s.order|
    requires forall p | 0 <= p < |s.partition| :: s.order[i] !in s.partition[p] && s.order[j] !in s.partition[p]
    requires g.HasEdge(s.order[i], s.order[k]) && !g.HasEdge(s.order[j], s.order[k])
    ensures !VerifySolution(g, s)
  {
    VerifySolutionByPositions(g, s);
    assert Violates(g, s, s.order[i], s.order[j], s.order[k]);
  }

  /** The complete graph on one vertex. */
  function K1(): Graph {
    Graph({0}, {})
  }

  /** The one-vertex graph with order [0] and the single class {0} is accepted. */
  lemma SingleVertexAccepted()
    ensures VerifySolution(K1(), Solution([0], [{0}]))
  {
    ShortOrderAccepted(K1(), Solution([0], [{0}]));
  }

  /** The empty partition is accepted as well for the one-vertex graph, since there is
      no triple to check. */
  lemma EmptyPartitionAccepted()
    ensures VerifySolution(K1(), Solution([0], []))
  {
    ShortOrderAccepted(K1(), Solution([0], []));
  }
}
