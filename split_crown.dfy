/** The split crown graphs of thinness/split_crown.py and the explicit solution built for
    them. With `n` vertices per side, the vertices 0..n-1 form a clique, the vertices
    n..2n-1 are independent, and the clique vertex `i` is adjacent to `j + n` exactly when
    `i != j`. The order and partition below give a consistent solution with ceil(n/2)
    classes for every n. */
module SplitCrown {
  import opened Graphs
  import opened Wrappers
  import opened ConsistentSolution
  import opened Verify
  import opened VertexSeparation

  // ---------------------------------------------------------------------------------------
  // Python ranges and `enumerate`
  // ---------------------------------------------------------------------------------------

  /** Python's `range(start, stop, 2)`. */
  function Up2(start: nat, stop: int): (r: seq<nat>)
    ensures |r| == if start < stop then (stop - start + 1) / 2 else 0
    ensures forall k | 0 <= k < |r| :: r[k] == start + 2 * k
    decreases stop - start
  {
    if start >= stop then [] else [start] + Up2(start + 2, stop)
  }

  /** Python's `enumerate(xs, start)`: each entry paired with its running index. */
  function Enumerate(xs: seq<nat>, start: nat): (r: seq<(nat, nat)>)
    ensures |r| == |xs|
    ensures forall k | 0 <= k < |r| :: r[k] == (start + k, xs[k])
  {
    seq(|xs|, k requires 0 <= k < |xs| => (start + k, xs[k]))
  }

  /** The pairs of `enumerate(range(a, b, 2), s)` are exactly the values of the range,
      each with its index shifted by `s`. */
  lemma EnumerateUp2(a: nat, b: int, s: nat, p: nat, v: nat)
    ensures (p, v) in Enumerate(Up2(a, b), s) <==> a <= v < b && (v - a) % 2 == 0 && p == s + (v - a) / 2
  {
    var e := Enumerate(Up2(a, b), s);
    if a <= v < b && (v - a) % 2 == 0 && p == s + (v - a) / 2 {
      var k := (v - a) / 2;
      assert e[k] == (p, v);
    }
  }

  // ---------------------------------------------------------------------------------------
  // The graph
  // ---------------------------------------------------------------------------------------

  /** Adjacency in the split crown with `n` vertices per side. */
  predicate CrownAdjacent(n: nat, u: nat, v: nat) {
    u < 2 * n && v < 2 * n && u != v &&
    ((u < n && v < n) || (u < n && n <= v && v != u + n) || (v < n && n <= u && u != v + n))
  }

  /** `g` is the split crown with `n` vertices per side. */
  ghost predicate IsSplitCrown(g: Graph, n: nat) {
    g.vertices == Range(2 * n) && forall u: nat, v: nat :: g.HasEdge(u, v) <==> CrownAdjacent(n, u, v)
  }

  /** The cross edge (a, x) with a in the clique has been added once the loop over
      `permutations(range(n), 2)` has passed the pair (a, x - n), the loop being at (i, j). */
  predicate CrossBefore(n: nat, i: nat, j: nat, a: nat, x: nat) {
    a < n && n <= x < 2 * n && x != a + n && (a < i || (a == i && x - n < j))
  }

  /** The edges present at the point (i, j) of the loop: the clique, and the cross edges
      passed so far. */
  predicate Built(n: nat, i: nat, j: nat, u: nat, v: nat) {
    (u < n && v < n && u != v) || CrossBefore(n, i, j, u, v) || CrossBefore(n, i, j, v, u)
  }

  /** `build_split_crown_graph(n)`: the complete graph on 0..n-1 and the edgeless graph on
      n..2n-1 side by side, then the edge (i, j + n) for every ordered pair i != j. */
  method BuildSplitCrownGraph(n: nat) returns (g: Graph)
    ensures IsSplitCrown(g, n) && g.Valid()
  {
    g := Graph(Range(2 * n), set i: nat, j: nat | i < j < n :: (i, j));
    var i := 0;
    while i < n
      invariant i <= n
      invariant g.vertices == Range(2 * n) && g.Valid()
      invariant forall u: nat, v: nat :: g.HasEdge(u, v) <==> Built(n, i, 0, u, v)
    {
      var j := 0;
      while j < n
        invariant j <= n
        invariant g.vertices == Range(2 * n) && g.Valid()
        invariant forall u: nat, v: nat :: g.HasEdge(u, v) <==> Built(n, i, j, u, v)
      {
        ghost var before := g;
        if i != j {
          g := g.AddEdge(i, j + n);
        }
        forall u: nat, v: nat
          ensures g.HasEdge(u, v) <==> Built(n, i, j + 1, u, v)
        {
          BuiltStep(n, i, j, u, v);
        }
        j := j + 1;
      }
      assert forall u: nat, v: nat :: Built(n, i, n, u, v) <==> Built(n, i + 1, 0, u, v);
      i := i + 1;
    }
    assert forall u: nat, v: nat :: Built(n, n, 0, u, v) <==> CrownAdjacent(n, u, v);
  }

  /** Passing the pair (i, j) adds the cross edge (i, j + n) when i != j and nothing else. */
  lemma BuiltStep(n: nat, i: nat, j: nat, u: nat, v: nat)
    requires i < n && j < n
    ensures Built(n, i, j + 1, u, v) <==>
      Built(n, i, j, u, v) || (i != j && ((u == i && v == j + n) || (v == i && u == j + n)))
  {
  }

  // ---------------------------------------------------------------------------------------
  // The order
  // ---------------------------------------------------------------------------------------

  /** The independent vertices n + 1, n + 3, ... that `_order` puts first. */
  predicate LeadingVertex(n: nat, x: nat) {
    n <= x < 2 * n && (x - n) % 2 == 1
  }

  /** The vertex at position `k` of `_order(n)`: the leading vertices n + 1, n + 3, ...,
      then the blocks [2p, 2p + 1, n + 2p], the last one without 2p + 1 when n is odd. */
  function CrownAt(n: nat, k: nat): nat {
    var f := n / 2;
    if k < f then n + 1 + 2 * k
    else
      var r := k - f;
      var p := r / 3;
      if r % 3 == 0 then 2 * p
      else if r % 3 == 1 && 2 * p + 1 < n then 2 * p + 1
      else n + 2 * p
  }

  /** The position of vertex `v` in `_order(n)`. */
  function CrownPos(n: nat, v: nat): nat {
    if v < n then n / 2 + 3 * (v / 2) + v % 2
    else
      var j := v - n;
      if j % 2 == 1 then j / 2
      else n / 2 + 3 * (j / 2) + (if j + 1 < n then 2 else 1)
  }

  /** Every vertex sits at the position `CrownPos` names. */
  lemma CrownAtPos(n: nat, v: nat)
    requires v < 2 * n
    ensures CrownPos(n, v) < 2 * n && CrownAt(n, CrownPos(n, v)) == v
  {
  }

  /** Every position holds a vertex, and `CrownPos` gives the position back. */
  lemma CrownPosAt(n: nat, k: nat)
    requires k < 2 * n
    ensures CrownAt(n, k) < 2 * n && CrownPos(n, CrownAt(n, k)) == k
  {
  }

  /** `x` is at position `k` as far as consistency is concerned: a leading vertex
      anywhere among the first n/2 positions, any other vertex exactly where `_order` has
      it. */
  predicate Placed(n: nat, x: nat, k: nat) {
    if LeadingVertex(n, x) then k < n / 2 else k == CrownPos(n, x)
  }

  /** An arrangement of the 2n vertices that the consistency argument covers. */
  predicate CrownLayout(n: nat, order: seq<nat>) {
    |order| == 2 * n && Distinct(order) &&
    forall k | 0 <= k < |order| :: order[k] < 2 * n && Placed(n, order[k], k)
  }

  /** The order lists every vertex of the split crown exactly once. */
  ghost predicate PermutationOfVertices(n: nat, order: seq<nat>) {
    |order| == 2 * n && Distinct(order) && forall v: nat :: v in order <==> v < 2 * n
  }

  /** An order of length 2n is a permutation of the vertices when some map `pos` sends
      every vertex to a position holding it and every position back to itself. */
  lemma PermutationByPositions(n: nat, order: seq<nat>, pos: nat -> nat)
    requires |order| == 2 * n
    requires forall k | 0 <= k < |order| :: order[k] < 2 * n && pos(order[k]) == k
    requires forall v: nat | v < 2 * n :: pos(v) < 2 * n && order[pos(v)] == v
    ensures PermutationOfVertices(n, order)
  {
    forall i, j | 0 <= i < j < |order|
      ensures order[i] != order[j]
    {
      assert pos(order[i]) == i && pos(order[j]) == j;
    }
    forall v: nat
      ensures v in order <==> v < 2 * n
    {
      if v < 2 * n {
        assert order[pos(v)] == v;
      }
    }
  }

  /** `_order(n)`: extend with range(n + 1, 2n, 2), then for every even i append i, then
      i + 1 when it is a vertex of the clique, then i + n. */
  method Order(n: nat) returns (order: seq<nat>)
    ensures forall k | 0 <= k < |order| :: order[k] == CrownAt(n, k)
    ensures PermutationOfVertices(n, order)
    ensures CrownLayout(n, order)
  {
    order := [];
    order := order + Up2(n + 1, 2 * n);
    var i := 0;
    while i < n
      invariant i % 2 == 0 && i <= n + 1
      invariant |order| == n / 2 + 3 * (i / 2) - (if i > n then 1 else 0)
      invariant forall k | 0 <= k < |order| :: order[k] == CrownAt(n, k)
    {
      ghost var prev := order;
      order := order + [i];
      if i + 1 < n {
        order := order + [i + 1];
      }
      order := order + [i + n];
      AppendBlock(n, i / 2, prev, order);
      i := i + 2;
    }
    OrderIsPermutation(n, order);
  }

  /** The block [2p, 2p + 1, n + 2p] follows the leading vertices and the p blocks before
      it; 2p + 1 is left out when it is not a vertex of the clique. */
  lemma BlockAt(n: nat, p: nat)
    requires 2 * p < n
    ensures CrownAt(n, n / 2 + 3 * p) == 2 * p
    ensures 2 * p + 1 < n ==> CrownAt(n, n / 2 + 3 * p + 1) == 2 * p + 1 && CrownAt(n, n / 2 + 3 * p + 2) == n + 2 * p
    ensures 2 * p + 1 >= n ==> CrownAt(n, n / 2 + 3 * p + 1) == n + 2 * p
  {
  }

  /** Appending the block of the even clique vertex 2p keeps the order in its closed
      form. */
  lemma AppendBlock(n: nat, p: nat, prev: seq<nat>, order: seq<nat>)
    requires 2 * p < n && |prev| == n / 2 + 3 * p
    requires forall k | 0 <= k < |prev| :: prev[k] == CrownAt(n, k)
    requires order == prev + (if 2 * p + 1 < n then [2 * p, 2 * p + 1, n + 2 * p] else [2 * p, n + 2 * p])
    ensures forall k | 0 <= k < |order| :: order[k] == CrownAt(n, k)
  {
    BlockAt(n, p);
    forall k | |prev| <= k < |order|
      ensures order[k] == CrownAt(n, k)
    {
    }
  }

  /** The closed form of `_order(n)` is a permutation of the vertices, laid out as the
      consistency argument needs. */
  lemma OrderIsPermutation(n: nat, order: seq<nat>)
    requires |order| == 2 * n
    requires forall k | 0 <= k < |order| :: order[k] == CrownAt(n, k)
    ensures PermutationOfVertices(n, order) && CrownLayout(n, order)
  {
    forall k | 0 <= k < |order|
      ensures order[k] < 2 * n && CrownPos(n, order[k]) == k
    {
      CrownPosAt(n, k);
    }
    forall v: nat | v < 2 * n
      ensures v in order
    {
      CrownAtPos(n, v);
      assert order[CrownPos(n, v)] == v;
    }
    forall k | 0 <= k < |order|
      ensures Placed(n, order[k], k)
    {
      assert CrownPos(n, order[k]) == k;
    }
  }

  // ---------------------------------------------------------------------------------------
  // The partition
  // ---------------------------------------------------------------------------------------

  /** The class `_partition(n)` gives vertex `v`, or `None` when it gives none. */
  function CrownClass(n: nat, v: nat): (c: Option<nat>)
    ensures c.Some? ==> c.value < (n + 1) / 2
  {
    if v >= 2 * n then None
    else if v < n then Some(v / 2)
    else
      var j := v - n;
      if j % 2 == 1 then Some(j / 2)
      else if j + 2 < n then Some(j / 2 + 1)
      else if n % 2 == 0 then Some(0)
      else None
  }

  /** Every vertex has a class, except 2n - 1 when n is odd. */
  lemma CrownClassCoverage(n: nat, v: nat)
    requires v < 2 * n
    ensures CrownClass(n, v).None? <==> n % 2 == 1 && v == 2 * n - 1
  {
  }

  /** The (part, vertex) pairs of `_partition`'s chain of four `enumerate`s. */
  function Chain(n: nat): seq<(nat, nat)> {
    Enumerate(Up2(n + 1, 2 * n), 0) + Enumerate(Up2(0, n), 0) +
    Enumerate(Up2(1, n), 0) + Enumerate(Up2(n, 2 * n - 2), 1)
  }

  /** The chain assigns each vertex its class, except 2n - 2, which the even case adds
      to class 0 afterwards. */
  lemma ChainExactly(n: nat, p: nat, v: nat)
    ensures (p, v) in Chain(n) <==> CrownClass(n, v) == Some(p) && !(n % 2 == 0 && v == 2 * n - 2)
  {
    var a, b, c, d := Enumerate(Up2(n + 1, 2 * n), 0), Enumerate(Up2(0, n), 0),
      Enumerate(Up2(1, n), 0), Enumerate(Up2(n, 2 * n - 2), 1);
    InConcat((p, v), a, b, c, d);
    EnumerateUp2(n + 1, 2 * n, 0, p, v);
    EnumerateUp2(0, n, 0, p, v);
    EnumerateUp2(1, n, 0, p, v);
    EnumerateUp2(n, 2 * n - 2, 1, p, v);
    ChainArithmetic(n, p, v);
  }

  /** Membership in the concatenation of four sequences. */
  lemma InConcat<T>(x: T, a: seq<T>, b: seq<T>, c: seq<T>, d: seq<T>)
    ensures x in a + b + c + d <==> x in a || x in b || x in c || x in d
  {
    assert x in a + b + c + d <==> x in a + b + c || x in d;
    assert x in a + b + c <==> x in a + b || x in c;
  }

  /** The four ranges of the chain, stated as conditions on the vertex, pick out its
      class. */
  lemma ChainArithmetic(n: nat, p: nat, v: nat)
    ensures (n + 1 <= v < 2 * n && (v - (n + 1)) % 2 == 0 && p == (v - (n + 1)) / 2) ||
            (v < n && v % 2 == 0 && p == v / 2) ||
            (1 <= v < n && (v - 1) % 2 == 0 && p == (v - 1) / 2) ||
            (n <= v < 2 * n - 2 && (v - n) % 2 == 0 && p == 1 + (v - n) / 2)
        <==> CrownClass(n, v) == Some(p) && !(n % 2 == 0 && v == 2 * n - 2)
  {
  }

  /** The vertices that some class holds. */
  ghost function Covered(partition: seq<set<nat>>): set<nat> {
    set p, v | 0 <= p < |partition| && v in partition[p] :: v
  }

  /** `_partition(n)`: ceil(n/2) empty classes, filled from the chain, and 2n - 2 added to
      class 0 when n is even. For n = 0 the final `partition[0]` would raise. */
  method Partition(n: nat) returns (partition: seq<set<nat>>)
    requires n >= 1
    ensures |partition| == (n + 1) / 2
    ensures forall p, v: nat | 0 <= p < |partition| :: v in partition[p] <==> CrownClass(n, v) == Some(p)
    ensures forall a, b | 0 <= a < b < |partition| :: partition[a] !! partition[b]
    ensures Covered(partition) == Range(2 * n) - (if n % 2 == 1 then {2 * n - 1} else {})
  {
    var parts := (n + 1) / 2;
    partition := seq(parts, _ => {});
    var chain := Chain(n);
    forall k | 0 <= k < |chain|
      ensures chain[k].0 < parts
    {
      ChainExactly(n, chain[k].0, chain[k].1);
    }
    partition := AddAll(partition, chain);
    if n % 2 == 0 {
      partition := partition[0 := partition[0] + {2 * n - 2}];
    }
    forall p, v: nat | 0 <= p < |partition|
      ensures v in partition[p] <==> CrownClass(n, v) == Some(p)
    {
      ChainExactly(n, p, v);
    }
    PartitionCovers(n, partition);
  }

  /** The loop `for part, vertex in chain: partition[part].add(vertex)`. */
  method AddAll(start: seq<set<nat>>, chain: seq<(nat, nat)>) returns (partition: seq<set<nat>>)
    requires forall k | 0 <= k < |chain| :: chain[k].0 < |start|
    ensures |partition| == |start|
    ensures forall p, v | 0 <= p < |partition| :: v in partition[p] <==> v in start[p] || (p, v) in chain
  {
    partition := start;
    for k := 0 to |chain|
      invariant |partition| == |start|
      invariant forall p, v | 0 <= p < |partition| :: v in partition[p] <==> v in start[p] || (p, v) in chain[..k]
    {
      assert chain[..k + 1] == chain[..k] + [chain[k]];
      var (part, vertex) := chain[k];
      partition := partition[part := partition[part] + {vertex}];
    }
    assert chain[..|chain|] == chain;
  }

  /** Classes given by `CrownClass` are disjoint and hold every vertex but 2n - 1 for odd
      n. */
  lemma PartitionCovers(n: nat, partition: seq<set<nat>>)
    requires |partition| == (n + 1) / 2
    requires forall p, v: nat | 0 <= p < |partition| :: v in partition[p] <==> CrownClass(n, v) == Some(p)
    ensures forall a, b | 0 <= a < b < |partition| :: partition[a] !! partition[b]
    ensures Covered(partition) == Range(2 * n) - (if n % 2 == 1 then {2 * n - 1} else {})
  {
    forall a, b | 0 <= a < b < |partition|
      ensures partition[a] !! partition[b]
    {
      forall v | v in partition[a]
        ensures v !in partition[b]
      {
        assert CrownClass(n, v) == Some(a);
      }
    }
    forall v: nat
      ensures v in Covered(partition) <==> v in Range(2 * n) - (if n % 2 == 1 then {2 * n - 1} else {})
    {
      if CrownClass(n, v).Some? {
        assert v in partition[CrownClass(n, v).value];
      }
      if v < 2 * n {
        CrownClassCoverage(n, v);
      }
    }
  }

  /** With classes given by `CrownClass`, `part_of` answers `CrownClass`. */
  lemma PartOfIsCrownClass(n: nat, s: Solution, v: nat)
    requires |s.partition| == (n + 1) / 2
    requires forall p, x: nat | 0 <= p < |s.partition| :: x in s.partition[p] <==> CrownClass(n, x) == Some(p)
    ensures s.PartOf(v) == CrownClass(n, v)
  {
    if CrownClass(n, v).Some? {
      assert v in s.partition[CrownClass(n, v).value];
    }
  }

  // ---------------------------------------------------------------------------------------
  // Consistency
  // ---------------------------------------------------------------------------------------

  /** No triple of a split crown layout breaks consistency: if u and v share a class, u
      comes before v before w, and u is adjacent to w, then so is v. */
  lemma CrownTriple(n: nat, u: nat, v: nat, w: nat, pu: nat, pv: nat, pw: nat)
    requires u < 2 * n && v < 2 * n && w < 2 * n && u != v && v != w && u != w
    requires pu < pv < pw
    requires Placed(n, u, pu) && Placed(n, v, pv) && Placed(n, w, pw)
    requires CrownClass(n, u) == CrownClass(n, v)
    requires CrownAdjacent(n, u, w)
    ensures CrownAdjacent(n, v, w)
  {
    if v < n {
      CliqueMiddle(n, u, v, w, pu, pv, pw);
    } else {
      IndependentMiddle(n, u, v, w, pu, pv, pw);
    }
  }

  /** The middle vertex is in the clique: its only non-neighbour is its partner v + n,
      which is either placed before it or only shares v's class with vertices that come
      after v. */
  lemma CliqueMiddle(n: nat, u: nat, v: nat, w: nat, pu: nat, pv: nat, pw: nat)
    requires u < 2 * n && v < n && w < 2 * n && u != v && v != w && u != w
    requires pu < pv < pw
    requires Placed(n, u, pu) && Placed(n, v, pv) && Placed(n, w, pw)
    requires CrownClass(n, u) == CrownClass(n, v)
    requires CrownAdjacent(n, u, w)
    ensures CrownAdjacent(n, v, w)
  {
    assert pv == CrownPos(n, v);
    if u < n {
      assert u == v + 1 || v == u + 1;
    }
  }

  /** The middle vertex is independent: a later non-neighbour is another independent
      vertex, and the vertices before it in its class are independent too. */
  lemma IndependentMiddle(n: nat, u: nat, v: nat, w: nat, pu: nat, pv: nat, pw: nat)
    requires u < 2 * n && n <= v < 2 * n && w < 2 * n && u != v && v != w && u != w
    requires pu < pv < pw
    requires Placed(n, u, pu) && Placed(n, v, pv) && Placed(n, w, pw)
    requires CrownClass(n, u) == CrownClass(n, v)
    requires CrownAdjacent(n, u, w)
    ensures CrownAdjacent(n, v, w)
  {
  }

  /** Any layout of the split crown with `_partition`'s classes passes `verify_solution`. */
  lemma LayoutIsConsistent(n: nat, g: Graph, s: Solution)
    requires IsSplitCrown(g, n) && CrownLayout(n, s.order)
    requires |s.partition| == (n + 1) / 2
    requires forall p, x: nat | 0 <= p < |s.partition| :: x in s.partition[p] <==> CrownClass(n, x) == Some(p)
    ensures VerifySolution(g, s)
  {
    RangeSize(2 * n);
    forall i, j, k | 0 <= i < j < k < |s.order|
      ensures !Violates(g, s, s.order[i], s.order[j], s.order[k])
    {
      var u, v, w := s.order[i], s.order[j], s.order[k];
      PartOfIsCrownClass(n, s, u);
      PartOfIsCrownClass(n, s, v);
      if CrownClass(n, u) == CrownClass(n, v) && CrownAdjacent(n, u, w) {
        CrownTriple(n, u, v, w, i, j, k);
      }
    }
    VerifySolutionByPositions(g, s);
  }

  /** `thinness_of_split_crown_graph(n)`: the solution with `_order(n)` and
      `_partition(n)`. It has ceil(n/2) classes and passes `verify_solution` on the split
      crown. */
  method ThinnessOfSplitCrownGraph(n: nat) returns (s: Solution)
    requires n >= 1
    ensures s.Thinness() == (n + 1) / 2
    ensures PermutationOfVertices(n, s.order)
    ensures forall g | IsSplitCrown(g, n) :: VerifySolution(g, s)
  {
    var order := Order(n);
    var partition := Partition(n);
    s := Solution(order, partition);
    forall g | IsSplitCrown(g, n)
      ensures VerifySolution(g, s)
    {
      LayoutIsConsistent(n, g, s);
    }
  }
}
