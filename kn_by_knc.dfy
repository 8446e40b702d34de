/** The split crown experiments of src/main.py: `create_Kn_by_Knc` builds the split crown
    (a clique K_n, an independent set, and the clique vertex i joined to n + j whenever
    i != j) on a Sage graph object, four heuristic vertex orders are proposed for it, and
    `partition_for_heuristic_4` gives classes for the fourth. The Z3 constraint helpers
    and the drivers that call the solver are not part of this model. */
module KnByKnc {
  import opened Graphs
  import opened Wrappers
  import opened ConsistentSolution
  import opened Verify
  import opened SplitCrown
  import opened ProperThinness

  /** Python's `range(start, stop, -2)`, for a stop of at least -1. */
  function Down2(start: int, stop: int): (r: seq<nat>)
    requires stop >= -1
    ensures |r| == if start > stop then (start - stop + 1) / 2 else 0
    ensures forall k | 0 <= k < |r| :: r[k] == start - 2 * k
    decreases start - stop
  {
    if start <= stop then [] else [start] + Down2(start - 2, stop)
  }

  // ---------------------------------------------------------------------------------------
  // The graph
  // ---------------------------------------------------------------------------------------

  /** `create_Kn_by_Knc(n)`: the complete graph and the edgeless graph on n vertices side
      by side, relabelled 0..2n-1, then the edge (i, n + j) for every i != j, added in
      place. */
  method CreateKnByKnc(n: nat) returns (graph: MutableGraph)
    ensures fresh(graph)
    ensures IsSplitCrown(graph.Value(), n) && graph.Value().Valid()
  {
    graph := new MutableGraph(Graph(Range(2 * n), set i: nat, j: nat | i < j < n :: (i, j)));
    for i := 0 to n
      invariant graph.vertices == Range(2 * n) && graph.Value().Valid()
      invariant forall u: nat, v: nat :: graph.Value().HasEdge(u, v) <==> Built(n, i, 0, u, v)
    {
      for j := 0 to n
        invariant graph.vertices == Range(2 * n) && graph.Value().Valid()
        invariant forall u: nat, v: nat :: graph.Value().HasEdge(u, v) <==> Built(n, i, j, u, v)
      {
        if i != j {
          graph.AddEdge(i, n + j);
        }
        forall u: nat, v: nat
          ensures graph.Value().HasEdge(u, v) <==> Built(n, i, j + 1, u, v)
        {
          BuiltStep(n, i, j, u, v);
        }
      }
      assert forall u: nat, v: nat :: Built(n, i, n, u, v) <==> Built(n, i + 1, 0, u, v);
    }
    assert forall u: nat, v: nat :: Built(n, n, 0, u, v) <==> CrownAdjacent(n, u, v);
  }

  // ---------------------------------------------------------------------------------------
  // heuristic_order_for_Kn_by_Knc4
  // ---------------------------------------------------------------------------------------

  /** The entry at position `k` of `heuristic_order_for_Kn_by_Knc4(n)`: 2n - 1, 2n - 3, ...
      down to n, then the blocks [2p, 2p + 1, n + 2p]. */
  function Knc4At(n: nat, k: nat): nat {
    var lead := (n + 1) / 2;
    if k < lead then 2 * n - 1 - 2 * k
    else
      var r := k - lead;
      var p := r / 3;
      if r % 3 == 0 then 2 * p else if r % 3 == 1 then 2 * p + 1 else n + 2 * p
  }

  /** The position of vertex `v` in the fourth heuristic order for even n. */
  function Knc4Pos(n: nat, v: nat): nat {
    if LeadingVertex(n, v) then (2 * n - 1 - v) / 2 else CrownPos(n, v)
  }

  /** `heuristic_order_for_Kn_by_Knc4(n)`: extend with range(2n - 1, n - 1, -2), then for
      every even i add [i, i + 1, i + n]. For even n it is a permutation of the vertices
      in the layout the split crown solution needs. */
  method HeuristicOrder4(n: nat) returns (order: seq<nat>)
    ensures |order| == (n + 1) / 2 + 3 * ((n + 1) / 2)
    ensures forall k | 0 <= k < |order| :: order[k] == Knc4At(n, k)
    ensures n % 2 == 0 ==> PermutationOfVertices(n, order) && CrownLayout(n, order)
  {
    order := [];
    order := order + Down2(2 * n - 1, n - 1);
    var i := 0;
    while i < n
      invariant i % 2 == 0 && i <= n + 1
      invariant |order| == (n + 1) / 2 + 3 * (i / 2)
      invariant forall k | 0 <= k < |order| :: order[k] == Knc4At(n, k)
    {
      ghost var prev := order;
      order := order + [i, i + 1, i + n];
      Knc4Block(n, i / 2, prev, order);
      i := i + 2;
    }
    if n % 2 == 0 {
      Knc4IsPermutation(n, order);
    }
  }

  /** Adding the block of the even clique vertex 2p keeps the order in its closed form. */
  lemma Knc4Block(n: nat, p: nat, prev: seq<nat>, order: seq<nat>)
    requires |prev| == (n + 1) / 2 + 3 * p
    requires forall k | 0 <= k < |prev| :: prev[k] == Knc4At(n, k)
    requires order == prev + [2 * p, 2 * p + 1, n + 2 * p]
    ensures forall k | 0 <= k < |order| :: order[k] == Knc4At(n, k)
  {
    var base := (n + 1) / 2 + 3 * p;
    assert Knc4At(n, base) == 2 * p && Knc4At(n, base + 1) == 2 * p + 1 && Knc4At(n, base + 2) == n + 2 * p;
  }

  /** For even n the fourth order lists each vertex once: the leading vertices occupy the
      first n/2 places and every other vertex is where `_order` of the split crown puts
      it. */
  lemma Knc4IsPermutation(n: nat, order: seq<nat>)
    requires n % 2 == 0 && |order| == 2 * n
    requires forall k | 0 <= k < |order| :: order[k] == Knc4At(n, k)
    ensures PermutationOfVertices(n, order) && CrownLayout(n, order)
  {
    forall k | 0 <= k < |order|
      ensures order[k] < 2 * n && Knc4Pos(n, order[k]) == k
    {
      Knc4PosAt(n, k);
    }
    forall v: nat | v < 2 * n
      ensures Knc4Pos(n, v) < 2 * n && order[Knc4Pos(n, v)] == v
    {
      Knc4AtPos(n, v);
    }
    PermutationByPositions(n, order, v => Knc4Pos(n, v));
    forall k | 0 <= k < |order|
      ensures Placed(n, order[k], k)
    {
    }
  }

  /** Past the leading vertices the fourth order agrees with `_order` of the split crown
      when n is even. */
  lemma Knc4MatchesCrown(n: nat, k: nat)
    requires n % 2 == 0 && n / 2 <= k < 2 * n
    ensures Knc4At(n, k) == CrownAt(n, k)
  {
    var r := k - n / 2;
    assert (n + 1) / 2 == n / 2;
    assert r / 3 < n / 2;
  }

  lemma Knc4PosAt(n: nat, k: nat)
    requires n % 2 == 0 && k < 2 * n
    ensures Knc4At(n, k) < 2 * n && Knc4Pos(n, Knc4At(n, k)) == k
  {
    if k >= n / 2 {
      Knc4MatchesCrown(n, k);
      CrownPosAt(n, k);
      assert !LeadingVertex(n, CrownAt(n, k));
    }
  }

  lemma Knc4AtPos(n: nat, v: nat)
    requires n % 2 == 0 && v < 2 * n
    ensures Knc4Pos(n, v) < 2 * n && Knc4At(n, Knc4Pos(n, v)) == v
  {
    if !LeadingVertex(n, v) {
      CrownAtPos(n, v);
      Knc4MatchesCrown(n, CrownPos(n, v));
    }
  }

  // ---------------------------------------------------------------------------------------
  // heuristic_order_for_Kn_by_Knc3
  // ---------------------------------------------------------------------------------------

  /** The entry at position `k` of the third heuristic order for even n: the odd
      independent vertices downwards, the even clique vertices downwards, the even
      independent vertices upwards, the odd clique vertices upwards. */
  function Knc3At(n: nat, k: nat): int {
    var f := n / 2;
    if k < f then 2 * n - 1 - 2 * k
    else if k < 2 * f then n - 2 - 2 * (k - f)
    else if k < 3 * f then n + 2 * (k - 2 * f)
    else 1 + 2 * (k - 3 * f)
  }

  /** The position of vertex `v` in the third heuristic order for even n. */
  function Knc3Pos(n: nat, v: nat): nat {
    var f := n / 2;
    if v < n then (if v % 2 == 0 then f + (if v + 2 <= n then (n - 2 - v) / 2 else 0) else 3 * f + v / 2)
    else if (v - n) % 2 == 1 then (if v < 2 * n then (2 * n - 1 - v) / 2 else 0)
    else 2 * f + (v - n) / 2
  }

  /** `heuristic_order_for_Kn_by_Knc3(n)`: four `extend`s, with range(2n - 1, n - 1, -2),
      range(n - 2, -1, -2), range(n, 2n, 2) and range(1, n, 2). For even n it is a
      permutation of the vertices. */
  method HeuristicOrder3(n: nat) returns (order: seq<nat>)
    ensures n % 2 == 0 ==> PermutationOfVertices(n, order)
  {
    order := [];
    order := order + Down2(2 * n - 1, n - 1);
    order := order + Down2(n - 2, -1);
    order := order + Up2(n, 2 * n);
    order := order + Up2(1, n);
    if n % 2 == 0 {
      Knc3Closed(n, order);
      Knc3IsPermutation(n, order);
    }
  }

  /** For even n the four ranges have n/2 entries each and line up as `Knc3At` says. */
  lemma Knc3Closed(n: nat, order: seq<nat>)
    requires n % 2 == 0
    requires order == Down2(2 * n - 1, n - 1) + Down2(n - 2, -1) + Up2(n, 2 * n) + Up2(1, n)
    ensures |order| == 2 * n && forall k | 0 <= k < |order| :: order[k] == Knc3At(n, k)
  {
    var a, b, c, d := Down2(2 * n - 1, n - 1), Down2(n - 2, -1), Up2(n, 2 * n), Up2(1, n);
    var f := n / 2;
    assert |a| == f && |b| == f && |c| == f && |d| == f;
    forall k | 0 <= k < |order|
      ensures order[k] == Knc3At(n, k)
    {
      if k < f {
        assert order[k] == a[k];
      } else if k < 2 * f {
        assert order[k] == b[k - f];
      } else if k < 3 * f {
        assert order[k] == c[k - 2 * f];
      } else {
        assert order[k] == d[k - 3 * f];
      }
    }
  }

  lemma Knc3IsPermutation(n: nat, order: seq<nat>)
    requires n % 2 == 0 && |order| == 2 * n
    requires forall k | 0 <= k < |order| :: order[k] == Knc3At(n, k)
    ensures PermutationOfVertices(n, order)
  {
    var pos := v => Knc3Pos(n, v);
    forall k | 0 <= k < |order|
      ensures order[k] < 2 * n && pos(order[k]) == k
    {
      Knc3PosAt(n, k);
    }
    forall v: nat | v < 2 * n
      ensures pos(v) < 2 * n && order[pos(v)] == v
    {
      Knc3AtPos(n, v);
    }
    PermutationByPositions(n, order, pos);
  }

  lemma Knc3PosAt(n: nat, k: nat)
    requires n % 2 == 0 && k < 2 * n
    ensures 0 <= Knc3At(n, k) < 2 * n && Knc3Pos(n, Knc3At(n, k)) == k
  {
    var f := n / 2;
    if k < f {
      assert Knc3At(n, k) == 2 * n - 1 - 2 * k;
    } else if k < 2 * f {
      assert Knc3At(n, k) == n - 2 - 2 * (k - f);
    } else if k < 3 * f {
      assert Knc3At(n, k) == n + 2 * (k - 2 * f);
    } else {
      assert Knc3At(n, k) == 1 + 2 * (k - 3 * f);
    }
  }

  lemma Knc3AtPos(n: nat, v: nat)
    requires n % 2 == 0 && v < 2 * n
    ensures Knc3Pos(n, v) < 2 * n && Knc3At(n, Knc3Pos(n, v)) == v
  {
    var f := n / 2;
    if v < n && v % 2 == 0 {
      assert Knc3Pos(n, v) == f + (n - 2 - v) / 2;
    } else if v < n {
      assert Knc3Pos(n, v) == 3 * f + v / 2;
    } else if (v - n) % 2 == 1 {
      assert Knc3Pos(n, v) == (2 * n - 1 - v) / 2;
    } else {
      assert Knc3Pos(n, v) == 2 * f + (v - n) / 2;
    }
  }

  // ---------------------------------------------------------------------------------------
  // heuristic_order_for_Kn_by_Knc2
  // ---------------------------------------------------------------------------------------

  /** The entry at position `k` of the second heuristic order: blocks
      [n + 2p + 1, 2p, 2p + 1, n + 2p]. */
  function Knc2At(n: nat, k: nat): nat {
    var p := k / 4;
    var q := k % 4;
    if q == 0 then n + 2 * p + 1 else if q == 1 then 2 * p else if q == 2 then 2 * p + 1 else n + 2 * p
  }

  /** The position of vertex `v` in the second heuristic order. */
  function Knc2Pos(n: nat, v: nat): nat {
    if v < n then 4 * (v / 2) + 1 + v % 2
    else 4 * ((v - n) / 2) + (if (v - n) % 2 == 1 then 0 else 3)
  }

  /** `heuristic_order_for_Kn_by_Knc2(n)`: for every even i add [i + n + 1, i, i + 1,
      i + n]. For even n it is a permutation of the vertices. */
  method HeuristicOrder2(n: nat) returns (order: seq<nat>)
    ensures |order| == 4 * ((n + 1) / 2)
    ensures forall k | 0 <= k < |order| :: order[k] == Knc2At(n, k)
    ensures n % 2 == 0 ==> PermutationOfVertices(n, order)
  {
    order := [];
    var i := 0;
    while i < n
      invariant i % 2 == 0 && i <= n + 1
      invariant |order| == 4 * (i / 2)
      invariant forall k | 0 <= k < |order| :: order[k] == Knc2At(n, k)
    {
      ghost var prev := order;
      order := order + [i + n + 1, i, i + 1, i + n];
      Knc2Block(n, i / 2, prev, order);
      i := i + 2;
    }
    if n % 2 == 0 {
      Knc2IsPermutation(n, order);
    }
  }

  lemma Knc2Block(n: nat, p: nat, prev: seq<nat>, order: seq<nat>)
    requires |prev| == 4 * p
    requires forall k | 0 <= k < |prev| :: prev[k] == Knc2At(n, k)
    requires order == prev + [2 * p + n + 1, 2 * p, 2 * p + 1, 2 * p + n]
    ensures forall k | 0 <= k < |order| :: order[k] == Knc2At(n, k)
  {
    assert Knc2At(n, 4 * p) == n + 2 * p + 1 && Knc2At(n, 4 * p + 1) == 2 * p;
    assert Knc2At(n, 4 * p + 2) == 2 * p + 1 && Knc2At(n, 4 * p + 3) == n + 2 * p;
  }

  lemma Knc2IsPermutation(n: nat, order: seq<nat>)
    requires n % 2 == 0 && |order| == 2 * n
    requires forall k | 0 <= k < |order| :: order[k] == Knc2At(n, k)
    ensures PermutationOfVertices(n, order)
  {
    forall k | 0 <= k < |order|
      ensures order[k] < 2 * n && Knc2Pos(n, order[k]) == k
    {
      Knc2PosAt(n, k);
    }
    forall v: nat | v < 2 * n
      ensures Knc2Pos(n, v) < 2 * n && order[Knc2Pos(n, v)] == v
    {
      Knc2AtPos(n, v);
    }
    PermutationByPositions(n, order, v => Knc2Pos(n, v));
  }

  lemma Knc2PosAt(n: nat, k: nat)
    requires n % 2 == 0 && k < 2 * n
    ensures Knc2At(n, k) < 2 * n && Knc2Pos(n, Knc2At(n, k)) == k
  {
    var p, q := k / 4, k % 4;
    assert k == 4 * p + q && 2 * p < n;
  }

  lemma Knc2AtPos(n: nat, v: nat)
    requires n % 2 == 0 && v < 2 * n
    ensures Knc2Pos(n, v) < 2 * n && Knc2At(n, Knc2Pos(n, v)) == v
  {
    if v < n {
      var p := v / 2;
      assert Knc2Pos(n, v) == 4 * p + 1 + v % 2;
    } else {
      var p := (v - n) / 2;
      assert Knc2Pos(n, v) == 4 * p + (if (v - n) % 2 == 1 then 0 else 3);
    }
  }

  // ---------------------------------------------------------------------------------------
  // heuristic_order_for_Kn_by_Knc1
  // ---------------------------------------------------------------------------------------

  /** The entry at position `k` of the first heuristic order for even n >= 2: pairs
      [n + 2t, 2t + 1], then pairs [n + x + 1, x] for x = n - 2, n - 4, ..., 2, then
      [0, n + 1]. */
  function Knc1At(n: nat, k: nat): int {
    if k < n then (if k % 2 == 0 then n + k else k)
    else if k < 2 * n - 2 then
      var x := n - 2 - 2 * ((k - n) / 2);
      if k % 2 == 0 then n + x + 1 else x
    else if k == 2 * n - 2 then 0
    else n + 1
  }

  /** The position of vertex `v` in the first heuristic order for even n >= 2. */
  function Knc1Pos(n: nat, v: nat): nat {
    if 2 * n <= v then 0
    else if v < n then (if v % 2 == 1 then v else if v == 0 then 2 * n - 2 else 2 * n - 1 - v)
    else
      var j := v - n;
      if j % 2 == 0 then j else if j == 1 then 2 * n - 1 else 2 * n - 1 - j
  }

  /** `heuristic_order_for_Kn_by_Knc1(n)`: for every odd i append i - 1 + n and i; for
      every even i from n - 2 down to 2 append i + n + 1 and i; then add [0, n + 1]. For
      even n >= 2 it is a permutation of the vertices. */
  method HeuristicOrder1(n: nat) returns (order: seq<nat>)
    ensures n >= 2 && n % 2 == 0 ==> PermutationOfVertices(n, order)
  {
    order := [];
    order := AppendOddPairs(n, order);
    order := AppendEvenPairs(n, order);
    order := order + [0, n + 1];
    if n >= 2 && n % 2 == 0 {
      Knc1IsPermutation(n, order);
    }
  }

  /** The first loop of `heuristic_order_for_Kn_by_Knc1`: for every odd i, append i - 1 + n
      and then i. */
  method AppendOddPairs(n: nat, start: seq<nat>) returns (order: seq<nat>)
    requires start == []
    ensures |order| == 2 * |Up2(1, n)|
    ensures forall k | 0 <= k < |order| :: order[k] == Knc1At(n, k)
  {
    order := start;
    var odds := Up2(1, n);
    for t := 0 to |odds|
      invariant |order| == 2 * t
      invariant forall k | 0 <= k < |order| :: order[k] == Knc1At(n, k)
    {
      var i := odds[t];
      ghost var prev := order;
      order := order + [i - 1 + n];
      order := order + [i];
      Knc1Odd(n, t, i);
      AppendPair(n, prev, order);
    }
  }

  /** The second loop of `heuristic_order_for_Kn_by_Knc1`: for every even i from the top
      down to 2, append i + n + 1 and then i. */
  method AppendEvenPairs(n: nat, start: seq<nat>) returns (order: seq<nat>)
    requires |start| == 2 * |Up2(1, n)|
    requires forall k | 0 <= k < |start| :: start[k] == Knc1At(n, k)
    ensures |order| == |start| + 2 * |Up2(2, n)|
    ensures n >= 2 && n % 2 == 0 ==> forall k | 0 <= k < |order| :: order[k] == Knc1At(n, k)
  {
    order := start;
    var evensReversed := Reverse(Up2(2, n));
    for s := 0 to |evensReversed|
      invariant |order| == |start| + 2 * s
      invariant n >= 2 && n % 2 == 0 ==> forall k | 0 <= k < |order| :: order[k] == Knc1At(n, k)
    {
      var i := evensReversed[s];
      ghost var prev := order;
      order := order + [i + n + 1];
      order := order + [i];
      if n >= 2 && n % 2 == 0 {
        Knc1Even(n, s, i);
        AppendPair(n, prev, order);
      }
    }
  }

  /** Appending the two entries the closed form expects next keeps the closed form. */
  lemma AppendPair(n: nat, prev: seq<nat>, order: seq<nat>)
    requires forall k | 0 <= k < |prev| :: prev[k] == Knc1At(n, k)
    requires |order| == |prev| + 2 && order[..|prev|] == prev
    requires order[|prev|] == Knc1At(n, |prev|) && order[|prev| + 1] == Knc1At(n, |prev| + 1)
    ensures forall k | 0 <= k < |order| :: order[k] == Knc1At(n, k)
  {
    forall k | 0 <= k < |order|
      ensures order[k] == Knc1At(n, k)
    {
      if k < |prev| {
        assert order[k] == order[..|prev|][k];
      }
    }
  }

  /** The t-th odd vertex i = 2t + 1 and its partner i - 1 + n sit at positions 2t + 1
      and 2t. */
  lemma Knc1Odd(n: nat, t: nat, i: nat)
    requires t < |Up2(1, n)| && i == Up2(1, n)[t]
    ensures Knc1At(n, 2 * t) == i - 1 + n && Knc1At(n, 2 * t + 1) == i
  {
    assert i == 1 + 2 * t && 2 * t + 1 < n;
  }

  /** The s-th even vertex from the top, x = n - 2 - 2s, and its partner n + x + 1 sit at
      positions n + 2s + 1 and n + 2s. */
  lemma Knc1Even(n: nat, s: nat, x: nat)
    requires n >= 2 && n % 2 == 0 && s < |Up2(2, n)|
    requires x == Reverse(Up2(2, n))[s]
    ensures 2 * |Up2(1, n)| + 2 * s == n + 2 * s
    ensures Knc1At(n, n + 2 * s) == x + n + 1 && Knc1At(n, n + 2 * s + 1) == x
  {
    var evens := Up2(2, n);
    assert |evens| == n / 2 - 1;
    assert x == evens[|evens| - 1 - s];
    var h := n / 2;
    assert n == 2 * h && x == n - 2 - 2 * s;
    Halves(h + s);
    Halves(s);
  }

  /** Halving and parity of 2a and 2a + 1. */
  lemma Halves(a: nat)
    ensures (2 * a) % 2 == 0 && (2 * a) / 2 == a && (2 * a + 1) % 2 == 1 && (2 * a + 1) / 2 == a
  {
  }

  lemma Knc1IsPermutation(n: nat, order: seq<nat>)
    requires n >= 2 && n % 2 == 0 && |order| == 2 * n
    requires forall k | 0 <= k < 2 * n - 2 :: order[k] == Knc1At(n, k)
    requires order[2 * n - 2] == 0 && order[2 * n - 1] == n + 1
    ensures PermutationOfVertices(n, order)
  {
    forall k | 0 <= k < |order|
      ensures order[k] < 2 * n && Knc1Pos(n, order[k]) == k
    {
      if k < 2 * n - 2 {
        Knc1PosAt(n, k);
      }
    }
    forall v: nat | v < 2 * n
      ensures Knc1Pos(n, v) < 2 * n && order[Knc1Pos(n, v)] == v
    {
      Knc1AtPos(n, v);
    }
    PermutationByPositions(n, order, v => Knc1Pos(n, v));
  }

  lemma Knc1PosAt(n: nat, k: nat)
    requires n >= 2 && n % 2 == 0 && k < 2 * n - 2
    ensures 0 <= Knc1At(n, k) < 2 * n && Knc1Pos(n, Knc1At(n, k)) == k
  {
    if k >= n {
      var s := (k - n) / 2;
      assert Knc1At(n, k) == if k % 2 == 0 then 2 * n - 1 - 2 * s else n - 2 - 2 * s;
    }
  }

  lemma Knc1AtPos(n: nat, v: nat)
    requires n >= 2 && n % 2 == 0 && v < 2 * n
    ensures Knc1Pos(n, v) < 2 * n
    ensures Knc1Pos(n, v) < 2 * n - 2 ==> Knc1At(n, Knc1Pos(n, v)) == v
    ensures Knc1Pos(n, v) == 2 * n - 2 ==> v == 0
    ensures Knc1Pos(n, v) == 2 * n - 1 ==> v == n + 1
  {
    if v < n && v % 2 == 0 && v != 0 {
      Knc1CliqueEven(n / 2, v / 2);
    } else if n <= v && (v - n) % 2 == 1 && v != n + 1 {
      Knc1IndependentOdd(n / 2, (v - n) / 2);
    }
  }

  /** The even clique vertex 2a, 0 < a < h, with n = 2h: it sits at position 4h - 1 - 2a. */
  lemma Knc1CliqueEven(h: nat, a: nat)
    requires 1 <= a < h
    ensures Knc1Pos(2 * h, 2 * a) == 4 * h - 1 - 2 * a
    ensures Knc1At(2 * h, 4 * h - 1 - 2 * a) == 2 * a
  {
    Halves(a);
    var k := 4 * h - 1 - 2 * a;
    assert k == 2 * (2 * h - a - 1) + 1;
    Halves(2 * h - a - 1);
    assert k - 2 * h == 2 * (h - a - 1) + 1;
    Halves(h - a - 1);
  }

  /** The odd independent vertex n + 2a + 1, 0 < a < h, with n = 2h: it sits at position
      4h - 2 - 2a. */
  lemma Knc1IndependentOdd(h: nat, a: nat)
    requires 1 <= a < h
    ensures Knc1Pos(2 * h, 2 * h + 2 * a + 1) == 4 * h - 2 - 2 * a
    ensures Knc1At(2 * h, 4 * h - 2 - 2 * a) == 2 * h + 2 * a + 1
  {
    Halves(a);
    var k := 4 * h - 2 - 2 * a;
    assert k == 2 * (2 * h - a - 1);
    Halves(2 * h - a - 1);
    assert k - 2 * h == 2 * (h - a - 1);
    Halves(h - a - 1);
  }

  // ---------------------------------------------------------------------------------------
  // partition_for_heuristic_4 and the solution it completes
  // ---------------------------------------------------------------------------------------

  /** `partition_for_heuristic_4(n)`: n/2 empty classes; class t receives n + 1 + 2t, then
      2t and 2t + 1, class 0 receives 2n - 2, and class t + 1 receives n + 2t. An odd n
      or n = 0 makes an index fall outside the list, so n is even and positive. The
      classes are those of the split crown solution: disjoint, and covering every
      vertex. */
  method PartitionForHeuristic4(n: nat) returns (partition: seq<set<nat>>)
    requires n >= 2 && n % 2 == 0
    ensures |partition| == n / 2
    ensures forall p, v: nat | 0 <= p < |partition| :: v in partition[p] <==> CrownClass(n, v) == Some(p)
    ensures forall a, b | 0 <= a < b < |partition| :: partition[a] !! partition[b]
    ensures Covered(partition) == Range(2 * n)
  {
    var parts := n / 2;
    var empty := seq(parts, _ => {});
    var first := Enumerate(Up2(n + 1, 2 * n), 0);
    var withFirst := AddAll(empty, first);
    var withClique := AddCliquePairs(n, withFirst);
    var withCorner := withClique[0 := withClique[0] + {2 * n - 2}];
    var last := Enumerate(Up2(n, 2 * n - 2), 1);
    LastPartsInRange(n);
    partition := AddAll(withCorner, last);
    forall p, v: nat | 0 <= p < |partition|
      ensures v in partition[p] <==> CrownClass(n, v) == Some(p)
    {
      assert v in partition[p] <==> v in withCorner[p] || (p, v) in last;
      assert v in withCorner[p] <==> v in withClique[p] || (p == 0 && v == 2 * n - 2);
      assert v in withClique[p] <==> v in withFirst[p] || (v < n && v / 2 == p);
      assert v in withFirst[p] <==> (p, v) in first;
      Heuristic4Chain(n, p, v);
    }
    PartitionCovers(n, partition);
  }

  /** The last range of `partition_for_heuristic_4` names classes 1 .. n/2 - 1 only. */
  lemma LastPartsInRange(n: nat)
    requires n >= 2 && n % 2 == 0
    ensures var last := Enumerate(Up2(n, 2 * n - 2), 1);
      forall k | 0 <= k < |last| :: last[k].0 < n / 2
  {
    var last := Enumerate(Up2(n, 2 * n - 2), 1);
    var h := n / 2;
    assert n == 2 * h;
    assert |last| == h - 1;
  }

  /** The middle loop of `partition_for_heuristic_4`: clique vertices 2p and 2p + 1 join
      class p. */
  method AddCliquePairs(n: nat, start: seq<set<nat>>) returns (partition: seq<set<nat>>)
    requires n % 2 == 0 && |start| == n / 2
    ensures |partition| == |start|
    ensures forall p, v | 0 <= p < |partition| :: v in partition[p] <==> v in start[p] || (v < n && v / 2 == p)
  {
    partition := start;
    var evens := Up2(0, n);
    for part := 0 to |evens|
      invariant |partition| == |start|
      invariant forall p, v | 0 <= p < |partition| :: v in partition[p] <==>
        v in start[p] || (v < n && v / 2 == p && p < part)
    {
      var vertex := evens[part];
      partition := partition[part := partition[part] + {vertex}];
      partition := partition[part := partition[part] + {vertex + 1}];
    }
  }

  /** The four steps of `partition_for_heuristic_4` put each vertex in its split crown
      class. */
  lemma Heuristic4Chain(n: nat, p: nat, v: nat)
    requires n >= 2 && n % 2 == 0
    ensures (p, v) in Enumerate(Up2(n + 1, 2 * n), 0) || (v < n && v / 2 == p) ||
            (p == 0 && v == 2 * n - 2) || (p, v) in Enumerate(Up2(n, 2 * n - 2), 1)
        <==> CrownClass(n, v) == Some(p)
  {
    EnumerateUp2(n + 1, 2 * n, 0, p, v);
    EnumerateUp2(n, 2 * n - 2, 1, p, v);
    Heuristic4Classes(n, p, v);
  }

  /** The four steps of `partition_for_heuristic_4`, stated as conditions on the vertex,
      put each vertex in its split crown class. */
  lemma Heuristic4Classes(n: nat, p: nat, v: nat)
    requires n >= 2 && n % 2 == 0
    ensures (n + 1 <= v < 2 * n && (v - (n + 1)) % 2 == 0 && p == (v - (n + 1)) / 2) ||
            (v < n && v / 2 == p) || (p == 0 && v == 2 * n - 2) ||
            (n <= v < 2 * n - 2 && (v - n) % 2 == 0 && p == 1 + (v - n) / 2)
        <==> CrownClass(n, v) == Some(p)
  {
    var h := n / 2;
    assert n == 2 * h;
    if n <= v < 2 * n {
      var a := (v - n) / 2;
      if (v - n) % 2 == 1 {
        assert v == 2 * h + 2 * a + 1;
        OddIndependentClass(h, a, p);
      } else {
        assert v == 2 * h + 2 * a;
        EvenIndependentClass(h, a, p);
      }
    }
  }

  /** The odd independent vertex n + 2a + 1 comes from the first range, with index a. */
  lemma OddIndependentClass(h: nat, a: nat, p: nat)
    requires a < h
    ensures var v := 2 * h + 2 * a + 1;
      CrownClass(2 * h, v) == Some(a) &&
      (v - (2 * h + 1)) % 2 == 0 && (v - (2 * h + 1)) / 2 == a &&
      (v - 2 * h) % 2 != 0 && v != 4 * h - 2
  {
    Halves(a);
    assert (2 * a + 1) % 2 == 1 && (2 * a + 1) / 2 == a;
  }

  /** The even independent vertex n + 2a comes from the last range, with index a + 1, or
      is 2n - 2. */
  lemma EvenIndependentClass(h: nat, a: nat, p: nat)
    requires a < h
    ensures var v := 2 * h + 2 * a;
      CrownClass(2 * h, v) == Some(if a + 1 < h then a + 1 else 0) &&
      (v - 2 * h) % 2 == 0 && (v - 2 * h) / 2 == a && (v - (2 * h + 1)) % 2 != 0 &&
      (v == 4 * h - 2 <==> a + 1 == h)
  {
    Halves(a);
    if a > 0 {
      assert 2 * a - 1 == 2 * (a - 1) + 1;
      Halves(a - 1);
    }
  }

  /** The fourth heuristic order with `partition_for_heuristic_4` is a consistent solution
      with n/2 = ceil(n/2) classes for every even n >= 2, so the minimum partition for that
      order, which the driver compares with ceil(n/2), has at most that many classes. */
  method HeuristicSolution4(n: nat) returns (s: Solution)
    requires n >= 2 && n % 2 == 0
    ensures s.Thinness() == (n + 1) / 2
    ensures PermutationOfVertices(n, s.order)
    ensures forall g | IsSplitCrown(g, n) :: VerifySolution(g, s)
  {
    var order := HeuristicOrder4(n);
    var partition := PartitionForHeuristic4(n);
    s := Solution(order, partition);
    forall g | IsSplitCrown(g, n)
      ensures VerifySolution(g, s)
    {
      LayoutIsConsistent(n, g, s);
    }
  }
}
