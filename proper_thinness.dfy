/** The proper-thinness check of proper_thinness.py. Proper thinness asks the classes to be
    consistent both for the order and for the reversed order. The order comes with a
    dictionary from vertex to class. */
module ProperThinness {
  import opened Graphs
  import opened Itertools
  import opened Compatibility
  import opened CalculateThinness

  /** Every entry of the order has a class; Python raises `KeyError` on a lookup of a vertex
      the dictionary does not hold. */
  predicate Classified(order: seq<nat>, partition: map<nat, nat>) {
    forall i | 0 <= i < |order| :: order[i] in partition
  }

  /** `is_consistent_ordered_triple(graph, u, v, w, partition)`: when u ~ w, a class shared
      by u and v needs v ~ w, and a class shared by v and w needs u ~ v. */
  predicate IsConsistentOrderedTriple(g: Graph, u: nat, v: nat, w: nat, partition: map<nat, nat>)
    requires u in partition && v in partition && w in partition
  {
    !g.HasEdge(u, w) ||
    ((partition[u] != partition[v] || g.HasEdge(v, w)) && (partition[v] != partition[w] || g.HasEdge(u, v)))
  }

  /** A triple without the edge u ~ w is always consistent. */
  lemma NoEdgeConsistent(g: Graph, u: nat, v: nat, w: nat, partition: map<nat, nat>)
    requires u in partition && v in partition && w in partition && !g.HasEdge(u, w)
    ensures IsConsistentOrderedTriple(g, u, v, w, partition)
  {
  }

  /** With u ~ w, the triple is consistent exactly when neither same-class pair lacks its
      edge: the thinness condition for (u, v, w) and the same condition read from the right,
      for (w, v, u). */
  lemma ConsistentTripleCases(g: Graph, u: nat, v: nat, w: nat, partition: map<nat, nat>)
    requires u in partition && v in partition && w in partition && g.HasEdge(u, w)
    ensures IsConsistentOrderedTriple(g, u, v, w, partition) <==>
            !(partition[u] == partition[v] && IsIncompatibleTriple(g, u, v, w)) &&
            !(partition[w] == partition[v] && IsIncompatibleTriple(g, w, v, u))
  {
  }

  /** One triple of `combinations(order, 3)` fails. */
  predicate AnyInconsistent(g: Graph, order: seq<nat>, partition: map<nat, nat>) {
    exists t | t in Combinations(order, 3) ::
      |t| == 3 && t[0] in partition && t[1] in partition && t[2] in partition &&
      !IsConsistentOrderedTriple(g, t[0], t[1], t[2], partition)
  }

  /** `verify_solution(graph, order, partition)` of proper_thinness.py: every triple of
      `combinations(order, 3)` is consistent. There is no length check. */
  predicate VerifyProperSolution(g: Graph, order: seq<nat>, partition: map<nat, nat>)
    requires Classified(order, partition)
  {
    !AnyInconsistent(g, order, partition)
  }

  /** The same check over positions. */
  predicate ProperConsistent(g: Graph, order: seq<nat>, partition: map<nat, nat>)
    requires Classified(order, partition)
  {
    forall i, j, k | 0 <= i < j < k < |order| :: IsConsistentOrderedTriple(g, order[i], order[j], order[k], partition)
  }

  lemma VerifyProperByPositions(g: Graph, order: seq<nat>, partition: map<nat, nat>)
    requires Classified(order, partition)
    ensures VerifyProperSolution(g, order, partition) <==> ProperConsistent(g, order, partition)
  {
    if !ProperConsistent(g, order, partition) {
      var i, j, k :| 0 <= i < j < k < |order| && !IsConsistentOrderedTriple(g, order[i], order[j], order[k], partition);
      InconsistentIsFound(g, order, partition, i, j, k);
    }
    if AnyInconsistent(g, order, partition) {
      FoundInconsistencyIsReal(g, order, partition);
    }
  }

  lemma InconsistentIsFound(g: Graph, order: seq<nat>, partition: map<nat, nat>, i: nat, j: nat, k: nat)
    requires Classified(order, partition) && i < j < k < |order|
    requires !IsConsistentOrderedTriple(g, order[i], order[j], order[k], partition)
    ensures AnyInconsistent(g, order, partition)
  {
    var t := [order[i], order[j], order[k]];
    TripleInCombinations(order, i, j, k);
    assert t[0] in partition && t[1] in partition && t[2] in partition;
    assert !IsConsistentOrderedTriple(g, t[0], t[1], t[2], partition);
  }

  lemma FoundInconsistencyIsReal(g: Graph, order: seq<nat>, partition: map<nat, nat>)
    requires Classified(order, partition) && AnyInconsistent(g, order, partition)
    ensures !ProperConsistent(g, order, partition)
  {
    var t :| t in Combinations(order, 3) && |t| == 3 && t[0] in partition && t[1] in partition &&
             t[2] in partition && !IsConsistentOrderedTriple(g, t[0], t[1], t[2], partition);
    TripleOfMember(order, t);
    var i, j, k :| 0 <= i < j < k < |order| && t == [order[i], order[j], order[k]];
    assert t[0] == order[i] && t[1] == order[j] && t[2] == order[k];
  }

  /** The order read backwards. */
  function Reverse(order: seq<nat>): (r: seq<nat>)
    ensures |r| == |order| && forall i | 0 <= i < |order| :: r[i] == order[|order| - 1 - i]
  {
    seq(|order|, i requires 0 <= i < |order| => order[|order| - 1 - i])
  }

  /** A solution passes the proper check exactly when its classes are consistent (in the
      sense of calculate_thinness.py's `verify_solution`) both for the order and for the
      reversed order. */
  lemma ProperIffBothDirections(g: Graph, order: seq<nat>, partition: map<nat, nat>)
    requires Classified(order, partition)
    ensures VerifyProperSolution(g, order, partition) <==>
            VerifyDictSolution(g, DictSolution(order, partition)) &&
            VerifyDictSolution(g, DictSolution(Reverse(order), partition))
  {
    var forward := DictSolution(order, partition);
    var backward := DictSolution(Reverse(order), partition);
    VerifyProperByPositions(g, order, partition);
    VerifyDictByPositions(g, forward);
    VerifyDictByPositions(g, backward);
    if ProperConsistent(g, order, partition) {
      ForwardFromProper(g, order, partition);
      BackwardFromProper(g, order, partition);
    }
    if DictConsistent(g, forward) && DictConsistent(g, backward) {
      ProperFromBoth(g, order, partition);
    }
  }

  lemma ForwardFromProper(g: Graph, order: seq<nat>, partition: map<nat, nat>)
    requires Classified(order, partition) && ProperConsistent(g, order, partition)
    ensures DictConsistent(g, DictSolution(order, partition))
  {
    var s := DictSolution(order, partition);
    forall i, j, k | 0 <= i < j < k < |order|
      ensures !DictViolates(g, s, order[i], order[j], order[k])
    {
      assert IsConsistentOrderedTriple(g, order[i], order[j], order[k], partition);
    }
  }

  lemma BackwardFromProper(g: Graph, order: seq<nat>, partition: map<nat, nat>)
    requires Classified(order, partition) && ProperConsistent(g, order, partition)
    ensures DictConsistent(g, DictSolution(Reverse(order), partition))
  {
    var r := Reverse(order);
    var s := DictSolution(r, partition);
    var n := |order|;
    forall i, j, k | 0 <= i < j < k < n
      ensures !DictViolates(g, s, r[i], r[j], r[k])
    {
      assert r[i] == order[n - 1 - i] && r[j] == order[n - 1 - j] && r[k] == order[n - 1 - k];
      assert IsConsistentOrderedTriple(g, order[n - 1 - k], order[n - 1 - j], order[n - 1 - i], partition);
    }
  }

  lemma ProperFromBoth(g: Graph, order: seq<nat>, partition: map<nat, nat>)
    requires Classified(order, partition)
    requires DictConsistent(g, DictSolution(order, partition))
    requires DictConsistent(g, DictSolution(Reverse(order), partition))
    ensures ProperConsistent(g, order, partition)
  {
    var r := Reverse(order);
    var n := |order|;
    forall a, b, c | 0 <= a < b < c < n
      ensures IsConsistentOrderedTriple(g, order[a], order[b], order[c], partition)
    {
      assert !DictViolates(g, DictSolution(order, partition), order[a], order[b], order[c]);
      assert r[n - 1 - c] == order[c] && r[n - 1 - b] == order[b] && r[n - 1 - a] == order[a];
      assert !DictViolates(g, DictSolution(r, partition), r[n - 1 - c], r[n - 1 - b], r[n - 1 - a]);
    }
  }

  /** A solution that passes the proper check also passes the plain one: proper thinness is
      never below thinness. */
  lemma ProperIsThin(g: Graph, order: seq<nat>, partition: map<nat, nat>)
    requires Classified(order, partition) && VerifyProperSolution(g, order, partition)
    ensures VerifyDictSolution(g, DictSolution(order, partition))
  {
    ProperIffBothDirections(g, order, partition);
  }

  /** The path 0 - 2 - 1 in the order [0, 1, 2] with a single class passes the plain check
      but fails the proper one: read from the right, 2 ~ 0 and 1, 2 share the class, but
      1 and 0 are not adjacent. */
  lemma OneClassPathNotProper()
    ensures VerifyDictSolution(Graph({0, 1, 2}, {(0, 2), (1, 2)}), DictSolution([0, 1, 2], map[0 := 0, 1 := 0, 2 := 0]))
    ensures !VerifyProperSolution(Graph({0, 1, 2}, {(0, 2), (1, 2)}), [0, 1, 2], map[0 := 0, 1 := 0, 2 := 0])
  {
    var g := Graph({0, 1, 2}, {(0, 2), (1, 2)});
    var o := [0, 1, 2];
    var p := map[0 := 0, 1 := 0, 2 := 0];
    var s := DictSolution(o, p);
    forall i, j, k | 0 <= i < j < k < |o|
      ensures !DictViolates(g, s, o[i], o[j], o[k])
    {
      assert i == 0 && j == 1 && k == 2;
      assert g.HasEdge(1, 2);
    }
    VerifyDictByPositions(g, s);
    assert !g.HasEdge(0, 1);
    InconsistentIsFound(g, o, p, 0, 1, 2);
  }
}
