/** The prefix-extension dynamic programme of thinness/dynamic_programming.py.

    A prefix is a tuple with one entry per vertex: -1 for a vertex that is not placed yet
    (a suffix vertex) and the index of its part otherwise. Each round extends every
    surviving prefix by one vertex placed in a part whose suffix neighbours all lie in the
    vertex's closed suffix neighbourhood. Sage's `pathwidth` is a parameter. */
module DynamicProgramming {
  import opened Graphs
  import opened Wrappers

  // ---------------------------------------------------------------------------------------
  // Suffix vertices and neighbourhoods
  // ---------------------------------------------------------------------------------------

  /** `_get_suffix_vertices`: the vertices whose entry is -1. */
  function SuffixVertices(prefix: seq<int>): set<nat> {
    set v: nat | v < |prefix| && prefix[v] == -1
  }

  /** The vertices that a prefix has already placed in a part. */
  function Assigned(prefix: seq<int>): set<nat> {
    set v: nat | v < |prefix| && prefix[v] != -1
  }

  /** The suffix vertices and the placed vertices split the vertices of the prefix. */
  lemma SuffixSplitsVertices(prefix: seq<int>)
    ensures SuffixVertices(prefix) + Assigned(prefix) == Range(|prefix|)
    ensures SuffixVertices(prefix) * Assigned(prefix) == {}
    ensures |SuffixVertices(prefix)| + |Assigned(prefix)| == |prefix|
  {
    RangeSize(|prefix|);
    assert SuffixVertices(prefix) + Assigned(prefix) == Range(|prefix|);
  }

  /** `_get_vertex_suffix_neighbors`: the closed neighbourhood of `v` cut down to the
      suffix. */
  function VertexSuffixNeighbors(g: Graph, prefix: seq<int>, v: nat): set<nat> {
    g.ClosedNeighbors(v) * SuffixVertices(prefix)
  }

  /** A vertex's suffix neighbours are suffix vertices adjacent to it, and an unplaced
      vertex of the graph is one of its own. */
  lemma VertexSuffixNeighborsMembers(g: Graph, prefix: seq<int>, v: nat, u: nat)
    ensures u in VertexSuffixNeighbors(g, prefix, v) <==>
      u < |prefix| && prefix[u] == -1 && u in g.vertices && (u == v || g.HasEdge(u, v))
  {
  }

  /** The neighbours of the vertices among 0..i-1 that the prefix puts in part `p`. */
  function NeighborsOfPartBelow(g: Graph, prefix: seq<int>, p: int, i: nat): set<nat>
    requires i <= |prefix|
  {
    if i == 0 then {}
    else NeighborsOfPartBelow(g, prefix, p, i - 1) + (if prefix[i - 1] == p then g.Neighbors(i - 1) else {})
  }

  /** The suffix neighbours of part `p`: the entry for `p` of `_get_part_suffix_neighbors`. */
  function PartSuffixNeighbors(g: Graph, prefix: seq<int>, p: int): set<nat> {
    NeighborsOfPartBelow(g, prefix, p, |prefix|) * SuffixVertices(prefix)
  }

  lemma {:induction false} NeighborsOfPartBelowMembers(g: Graph, prefix: seq<int>, p: int, i: nat, u: nat)
    requires i <= |prefix|
    ensures u in NeighborsOfPartBelow(g, prefix, p, i) <==>
      exists w: nat :: w < i && prefix[w] == p && u in g.Neighbors(w)
  {
    if i > 0 {
      NeighborsOfPartBelowMembers(g, prefix, p, i - 1, u);
      if u in g.Neighbors(i - 1) && prefix[i - 1] == p {
        assert u in NeighborsOfPartBelow(g, prefix, p, i);
      }
    }
  }

  /** The suffix neighbours of a part are the suffix vertices adjacent to some vertex of
      that part. */
  lemma PartSuffixNeighborsMembers(g: Graph, prefix: seq<int>, p: int, u: nat)
    ensures u in PartSuffixNeighbors(g, prefix, p) <==>
      u in SuffixVertices(prefix) && u in g.vertices &&
      exists w: nat :: w < |prefix| && prefix[w] == p && g.HasEdge(u, w)
  {
    NeighborsOfPartBelowMembers(g, prefix, p, |prefix|, u);
  }

  /** The parts that the prefix uses among the vertices 0..i-1. */
  function UsedPartsBelow(prefix: seq<int>, i: nat): set<int>
    requires i <= |prefix|
  {
    if i == 0 then {}
    else UsedPartsBelow(prefix, i - 1) + (if prefix[i - 1] != -1 then {prefix[i - 1]} else {})
  }

  /** -1 marks an unplaced vertex and is never a part. */
  lemma {:induction false} UnplacedIsNoPart(prefix: seq<int>, i: nat)
    requires i <= |prefix|
    ensures -1 !in UsedPartsBelow(prefix, i)
  {
    if i > 0 {
      UnplacedIsNoPart(prefix, i - 1);
    }
  }

  /** A part that no vertex uses has no neighbours; this is what `get(part, set())` relies
      on. */
  lemma {:induction false} UnusedPartHasNoNeighbors(g: Graph, prefix: seq<int>, p: int, i: nat)
    requires i <= |prefix| && p != -1 && p !in UsedPartsBelow(prefix, i)
    ensures NeighborsOfPartBelow(g, prefix, p, i) == {}
  {
    if i > 0 {
      UnusedPartHasNoNeighbors(g, prefix, p, i - 1);
    }
  }

  /** One pass of the first loop of `_get_part_suffix_neighbors`: `setdefault(part,
      set()).update(graph.neighbors(vertex))`. */
  method AddVertexNeighbors(g: Graph, prefix: seq<int>, vertex: nat, parts: map<int, set<nat>>)
    returns (next: map<int, set<nat>>)
    requires vertex < |prefix|
    requires parts.Keys == UsedPartsBelow(prefix, vertex)
    requires forall p | p in parts :: parts[p] == NeighborsOfPartBelow(g, prefix, p, vertex)
    ensures next.Keys == UsedPartsBelow(prefix, vertex + 1)
    ensures forall p | p in next :: next[p] == NeighborsOfPartBelow(g, prefix, p, vertex + 1)
  {
    var part := prefix[vertex];
    if part == -1 {
      next := parts;
      UnplacedIsNoPart(prefix, vertex);
    } else {
      var before := if part in parts then parts[part] else {};
      if part !in parts {
        UnusedPartHasNoNeighbors(g, prefix, part, vertex);
      }
      next := parts[part := before + g.Neighbors(vertex)];
      forall q | q in next
        ensures next[q] == NeighborsOfPartBelow(g, prefix, q, vertex + 1)
      {
        if q != part {
          assert next[q] == parts[q];
        }
      }
    }
  }

  /** `_get_part_suffix_neighbors`: collects the neighbours of every used part, then cuts
      each collection down to the suffix in place. */
  method GetPartSuffixNeighbors(g: Graph, prefix: seq<int>) returns (parts: map<int, set<nat>>)
    requires g.vertices == Range(|prefix|)
    ensures parts.Keys == UsedPartsBelow(prefix, |prefix|)
    ensures forall p | p in parts :: parts[p] == PartSuffixNeighbors(g, prefix, p)
    ensures forall p | p !in parts && p != -1 :: PartSuffixNeighbors(g, prefix, p) == {}
  {
    parts := map[];
    for vertex := 0 to |prefix|
      invariant parts.Keys == UsedPartsBelow(prefix, vertex)
      invariant forall p | p in parts :: parts[p] == NeighborsOfPartBelow(g, prefix, p, vertex)
    {
      parts := AddVertexNeighbors(g, prefix, vertex, parts);
    }
    parts := IntersectEach(parts, SuffixVertices(prefix));
    forall p | p !in parts && p != -1
      ensures PartSuffixNeighbors(g, prefix, p) == {}
    {
      UnusedPartHasNoNeighbors(g, prefix, p, |prefix|);
    }
  }

  /** `for neighbors in part_neighbors.values(): neighbors.intersection_update(keep)`. */
  method IntersectEach(parts: map<int, set<nat>>, keep: set<nat>) returns (next: map<int, set<nat>>)
    ensures next.Keys == parts.Keys
    ensures forall p | p in next :: next[p] == parts[p] * keep
  {
    next := parts;
    var pending := parts.Keys;
    while pending != {}
      invariant pending <= next.Keys && next.Keys == parts.Keys
      invariant forall p | p in next :: next[p] == if p in pending then parts[p] else parts[p] * keep
      decreases |pending|
    {
      NonEmptyHasElement(pending);
      var p :| p in pending;
      next := next[p := next[p] * keep];
      pending := pending - {p};
    }
  }

  // ---------------------------------------------------------------------------------------
  // One round
  // ---------------------------------------------------------------------------------------

  /** Vertex `v` may join part `p`: the part's suffix neighbours all lie in the closed
      suffix neighbourhood of `v`. */
  predicate CanJoin(g: Graph, prefix: seq<int>, v: nat, p: int) {
    PartSuffixNeighbors(g, prefix, p) <= VertexSuffixNeighbors(g, prefix, v)
  }

  /** The prefixes obtained by placing `v` in one of the parts 0..j-1 it may join. */
  function JoinsBelow(g: Graph, prefix: seq<int>, v: nat, j: nat): set<seq<int>>
    requires v < |prefix|
  {
    if j == 0 then {}
    else JoinsBelow(g, prefix, v, j - 1) + (if CanJoin(g, prefix, v, j - 1) then {prefix[v := j - 1]} else {})
  }

  /** The prefixes obtained by placing `v`, when it is unplaced, in a part below
      `upperBound - 1`. */
  function VertexJoins(g: Graph, prefix: seq<int>, upperBound: int, v: nat): set<seq<int>>
    requires v < |prefix|
  {
    if prefix[v] != -1 || upperBound - 1 <= 0 then {} else JoinsBelow(g, prefix, v, upperBound - 1)
  }

  /** The prefixes obtained by placing one of the vertices 0..i-1. */
  function SuccessorsBelow(g: Graph, prefix: seq<int>, upperBound: int, i: nat): set<seq<int>>
    requires i <= |prefix|
  {
    if i == 0 then {}
    else SuccessorsBelow(g, prefix, upperBound, i - 1) + VertexJoins(g, prefix, upperBound, i - 1)
  }

  /** The prefixes one round makes from `prefix`: one unplaced vertex placed in a part
      below `upperBound - 1` that it may join. */
  function Successors(g: Graph, prefix: seq<int>, upperBound: int): set<seq<int>> {
    set v: nat, p: int | v < |prefix| && prefix[v] == -1 && 0 <= p < upperBound - 1 && CanJoin(g, prefix, v, p) ::
      prefix[v := p]
  }

  lemma {:induction false} JoinsBelowMembers(g: Graph, prefix: seq<int>, v: nat, j: nat, s: seq<int>)
    requires v < |prefix|
    ensures s in JoinsBelow(g, prefix, v, j) <==>
      exists p: int :: 0 <= p < j && CanJoin(g, prefix, v, p) && s == prefix[v := p]
  {
    if j > 0 {
      JoinsBelowMembers(g, prefix, v, j - 1, s);
    }
  }

  lemma {:induction false} SuccessorsBelowMembers(g: Graph, prefix: seq<int>, upperBound: int, i: nat, s: seq<int>)
    requires i <= |prefix|
    ensures s in SuccessorsBelow(g, prefix, upperBound, i) <==>
      exists v: nat, p: int :: v < i && prefix[v] == -1 && 0 <= p < upperBound - 1 &&
        CanJoin(g, prefix, v, p) && s == prefix[v := p]
  {
    if i > 0 {
      SuccessorsBelowMembers(g, prefix, upperBound, i - 1, s);
      VertexJoinsMembers(g, prefix, upperBound, i - 1, s);
    }
  }

  lemma VertexJoinsMembers(g: Graph, prefix: seq<int>, upperBound: int, v: nat, s: seq<int>)
    requires v < |prefix|
    ensures s in VertexJoins(g, prefix, upperBound, v) <==>
      prefix[v] == -1 && exists p: int :: 0 <= p < upperBound - 1 && CanJoin(g, prefix, v, p) && s == prefix[v := p]
  {
    if prefix[v] == -1 && upperBound - 1 > 0 {
      JoinsBelowMembers(g, prefix, v, upperBound - 1, s);
    }
  }

  /** The vertex-by-vertex, part-by-part enumeration of the loops finds every successor
      and nothing else. */
  lemma SuccessorsBelowComplete(g: Graph, prefix: seq<int>, upperBound: int)
    ensures SuccessorsBelow(g, prefix, upperBound, |prefix|) == Successors(g, prefix, upperBound)
  {
    forall s
      ensures s in SuccessorsBelow(g, prefix, upperBound, |prefix|) <==> s in Successors(g, prefix, upperBound)
    {
      SuccessorsBelowMembers(g, prefix, upperBound, |prefix|, s);
    }
  }

  /** The body of the `for prefix in valid_prefixes` loop: every unplaced vertex against
      every part below `upperBound - 1`. */
  method ExtendPrefix(g: Graph, prefix: seq<int>, upperBound: int) returns (next: set<seq<int>>)
    requires g.vertices == Range(|prefix|)
    ensures next == Successors(g, prefix, upperBound)
  {
    var partSuffixNeighbors := GetPartSuffixNeighbors(g, prefix);
    next := {};
    for vertex := 0 to |prefix|
      invariant next == SuccessorsBelow(g, prefix, upperBound, vertex)
    {
      if prefix[vertex] == -1 {
        var vertexSuffixNeighbors := VertexSuffixNeighbors(g, prefix, vertex);
        var joins := JoinParts(g, prefix, upperBound, vertex, partSuffixNeighbors, vertexSuffixNeighbors);
        next := next + joins;
      }
    }
    SuccessorsBelowComplete(g, prefix, upperBound);
  }

  /** The innermost loop: `vertex` against the parts 0 .. upperBound - 2. */
  method JoinParts(g: Graph, prefix: seq<int>, upperBound: int, vertex: nat,
                   partSuffixNeighbors: map<int, set<nat>>, vertexSuffixNeighbors: set<nat>)
    returns (joins: set<seq<int>>)
    requires vertex < |prefix| && prefix[vertex] == -1
    requires forall p | p in partSuffixNeighbors :: partSuffixNeighbors[p] == PartSuffixNeighbors(g, prefix, p)
    requires forall p | p !in partSuffixNeighbors && p != -1 :: PartSuffixNeighbors(g, prefix, p) == {}
    requires vertexSuffixNeighbors == VertexSuffixNeighbors(g, prefix, vertex)
    ensures joins == VertexJoins(g, prefix, upperBound, vertex)
  {
    joins := {};
    var part := 0;
    while part < upperBound - 1
      invariant if upperBound - 1 > 0 then 0 <= part <= upperBound - 1 else part == 0
      invariant joins == JoinsBelow(g, prefix, vertex, part)
      decreases upperBound - 1 - part
    {
      var neighbors := LookupPart(g, prefix, partSuffixNeighbors, part);
      JoinsBelowStep(g, prefix, vertex, part, neighbors, vertexSuffixNeighbors);
      if neighbors <= vertexSuffixNeighbors {
        joins := joins + {prefix[vertex := part]};
      }
      part := part + 1;
    }
  }

  /** `part_suffix_neighbors.get(part, set())`: a part no vertex of the prefix is in has no
      neighbours. */
  method LookupPart(g: Graph, prefix: seq<int>, partSuffixNeighbors: map<int, set<nat>>, part: nat)
    returns (neighbors: set<nat>)
    requires forall p | p in partSuffixNeighbors :: partSuffixNeighbors[p] == PartSuffixNeighbors(g, prefix, p)
    requires forall p | p !in partSuffixNeighbors && p != -1 :: PartSuffixNeighbors(g, prefix, p) == {}
    ensures neighbors == PartSuffixNeighbors(g, prefix, part)
  {
    neighbors := if part in partSuffixNeighbors then partSuffixNeighbors[part] else {};
  }

  /** One turn of the innermost loop: the subset test on the precomputed neighbourhoods is
      `CanJoin`. */
  lemma JoinsBelowStep(g: Graph, prefix: seq<int>, vertex: nat, part: nat,
                       neighbors: set<nat>, vertexSuffixNeighbors: set<nat>)
    requires vertex < |prefix|
    requires neighbors == PartSuffixNeighbors(g, prefix, part)
    requires vertexSuffixNeighbors == VertexSuffixNeighbors(g, prefix, vertex)
    ensures neighbors <= vertexSuffixNeighbors ==>
      JoinsBelow(g, prefix, vertex, part + 1) == JoinsBelow(g, prefix, vertex, part) + {prefix[vertex := part]}
    ensures !(neighbors <= vertexSuffixNeighbors) ==>
      JoinsBelow(g, prefix, vertex, part + 1) == JoinsBelow(g, prefix, vertex, part)
  {
  }

  /** The prefixes one round makes from a set of prefixes: the union of their successors,
      taken one prefix at a time. */
  ghost function Round(g: Graph, upperBound: int, prefixes: set<seq<int>>): set<seq<int>>
    decreases |prefixes|
  {
    if prefixes == {} then {}
    else
      var pr :| pr in prefixes;
      Successors(g, pr, upperBound) + Round(g, upperBound, prefixes - {pr})
  }

  /** A prefix is made by a round exactly when it is a successor of one of the round's
      prefixes, whatever order the union is taken in. */
  lemma {:induction false} RoundMembers(g: Graph, upperBound: int, prefixes: set<seq<int>>, s: seq<int>)
    ensures s in Round(g, upperBound, prefixes) <==>
      exists pr :: pr in prefixes && s in Successors(g, pr, upperBound)
    decreases |prefixes|
  {
    if prefixes != {} {
      var pr :| pr in prefixes &&
        Round(g, upperBound, prefixes) == Successors(g, pr, upperBound) + Round(g, upperBound, prefixes - {pr});
      RoundMembers(g, upperBound, prefixes - {pr}, s);
    }
  }

  /** The successors of the prefixes of `done`, taken in the order the loop visits them. */
  function SuccessorsOfAll(g: Graph, upperBound: int, done: seq<seq<int>>): set<seq<int>> {
    if |done| == 0 then {}
    else SuccessorsOfAll(g, upperBound, done[..|done| - 1]) + Successors(g, done[|done| - 1], upperBound)
  }

  lemma {:induction false} SuccessorsOfAllMembers(g: Graph, upperBound: int, done: seq<seq<int>>, s: seq<int>)
    ensures s in SuccessorsOfAll(g, upperBound, done) <==>
      exists k :: 0 <= k < |done| && s in Successors(g, done[k], upperBound)
  {
    if |done| > 0 {
      var rest := done[..|done| - 1];
      SuccessorsOfAllMembers(g, upperBound, rest, s);
      if exists k :: 0 <= k < |done| && s in Successors(g, done[k], upperBound) {
        var k :| 0 <= k < |done| && s in Successors(g, done[k], upperBound);
        if k < |done| - 1 {
          assert done[k] == rest[k];
        }
      }
    }
  }

  /** Visiting every prefix of the set once, in any order, gives the round. */
  lemma SuccessorsOfAllIsRound(g: Graph, upperBound: int, done: seq<seq<int>>, prefixes: set<seq<int>>)
    requires forall pr :: pr in done <==> pr in prefixes
    ensures SuccessorsOfAll(g, upperBound, done) == Round(g, upperBound, prefixes)
  {
    forall s
      ensures s in SuccessorsOfAll(g, upperBound, done) <==> s in Round(g, upperBound, prefixes)
    {
      SuccessorsOfAllMembers(g, upperBound, done, s);
      RoundMembers(g, upperBound, prefixes, s);
      if s in Round(g, upperBound, prefixes) {
        var pr :| pr in prefixes && s in Successors(g, pr, upperBound);
        var k :| 0 <= k < |done| && done[k] == pr;
      }
    }
  }

  /** One pass of the `while` loop: the new set of valid prefixes. */
  method ExtendRound(g: Graph, upperBound: int, prefixes: set<seq<int>>) returns (next: set<seq<int>>)
    requires forall pr | pr in prefixes :: |pr| == |g.vertices|
    requires g.vertices == Range(|g.vertices|)
    ensures next == Round(g, upperBound, prefixes)
  {
    next := {};
    var pending := prefixes;
    ghost var done: seq<seq<int>> := [];
    while pending != {}
      invariant pending <= prefixes
      invariant forall pr :: pr in done <==> pr in prefixes && pr !in pending
      invariant next == SuccessorsOfAll(g, upperBound, done)
      decreases |pending|
    {
      var prefix :| prefix in pending;
      var successors := ExtendPrefix(g, prefix, upperBound);
      next := next + successors;
      done := done + [prefix];
      assert done[..|done| - 1] == done[..|done| - 1];
      pending := pending - {prefix};
    }
    SuccessorsOfAllIsRound(g, upperBound, done, prefixes);
  }

  // ---------------------------------------------------------------------------------------
  // The rounds
  // ---------------------------------------------------------------------------------------

  /** The starting prefix: every vertex unplaced. */
  function Initial(n: nat): (r: seq<int>)
    ensures |r| == n && Assigned(r) == {}
  {
    seq(n, _ => -1)
  }

  /** The valid prefixes after `k` rounds. */
  ghost function Rounds(g: Graph, upperBound: int, k: nat): set<seq<int>> {
    if k == 0 then {Initial(|g.vertices|)} else Round(g, upperBound, Rounds(g, upperBound, k - 1))
  }

  /** A prefix after `k` rounds: one entry per vertex, exactly `k` vertices placed, every
      part below `upperBound - 1`. */
  predicate WellFormed(prefix: seq<int>, n: nat, upperBound: int, k: nat) {
    |prefix| == n && |Assigned(prefix)| == k &&
    forall v | 0 <= v < |prefix| :: prefix[v] == -1 || 0 <= prefix[v] < upperBound - 1
  }

  /** Placing an unplaced vertex places exactly one more vertex. */
  lemma PlaceOne(prefix: seq<int>, v: nat, p: int)
    requires v < |prefix| && prefix[v] == -1 && p != -1
    ensures |Assigned(prefix[v := p])| == |Assigned(prefix)| + 1
  {
    assert Assigned(prefix[v := p]) == Assigned(prefix) + {v};
  }

  /** Every prefix one round makes from a prefix with `k` placed vertices has `k + 1`. */
  lemma SuccessorWellFormed(g: Graph, prefix: seq<int>, upperBound: int, s: seq<int>, n: nat, k: nat)
    requires WellFormed(prefix, n, upperBound, k) && s in Successors(g, prefix, upperBound)
    ensures WellFormed(s, n, upperBound, k + 1)
  {
    var v: nat, p: int :| v < |prefix| && prefix[v] == -1 && 0 <= p < upperBound - 1 &&
      CanJoin(g, prefix, v, p) && s == prefix[v := p];
    PlaceOne(prefix, v, p);
  }

  lemma RoundWellFormed(g: Graph, upperBound: int, prefixes: set<seq<int>>, n: nat, k: nat)
    requires forall pr | pr in prefixes :: WellFormed(pr, n, upperBound, k)
    ensures forall s | s in Round(g, upperBound, prefixes) :: WellFormed(s, n, upperBound, k + 1)
  {
    forall s | s in Round(g, upperBound, prefixes)
      ensures WellFormed(s, n, upperBound, k + 1)
    {
      RoundMembers(g, upperBound, prefixes, s);
      var pr :| pr in prefixes && s in Successors(g, pr, upperBound);
      SuccessorWellFormed(g, pr, upperBound, s, n, k);
    }
  }

  /** After `k` rounds every surviving prefix has exactly `k` placed vertices. */
  lemma {:induction false} RoundsWellFormed(g: Graph, upperBound: int, k: nat)
    ensures forall pr | pr in Rounds(g, upperBound, k) :: WellFormed(pr, |g.vertices|, upperBound, k)
  {
    if k > 0 {
      RoundsWellFormed(g, upperBound, k - 1);
      RoundWellFormed(g, upperBound, Rounds(g, upperBound, k - 1), |g.vertices|, k - 1);
    }
  }

  /** Every prefix keeps one entry per vertex. */
  lemma RoundsLength(g: Graph, upperBound: int, k: nat)
    ensures forall pr | pr in Rounds(g, upperBound, k) :: |pr| == |g.vertices|
  {
    RoundsWellFormed(g, upperBound, k);
  }

  /** Once no prefix survives, none ever does. */
  lemma {:induction false} EmptyStaysEmpty(g: Graph, upperBound: int, k: nat, m: nat)
    requires k <= m && Rounds(g, upperBound, k) == {}
    ensures Rounds(g, upperBound, m) == {}
  {
    if k < m {
      EmptyStaysEmpty(g, upperBound, k, m - 1);
    }
  }

  /** With no part below `upperBound - 1` no vertex can be placed, so no prefix survives the
      first round. */
  lemma NoPartsNoSurvivors(g: Graph, upperBound: int, k: nat)
    requires upperBound <= 1 && k >= 1 && |g.vertices| >= 1
    ensures Rounds(g, upperBound, k) == {}
  {
    forall s | s in Rounds(g, upperBound, 1)
      ensures false
    {
      RoundMembers(g, upperBound, {Initial(|g.vertices|)}, s);
    }
    assert Rounds(g, upperBound, 1) == {};
    EmptyStaysEmpty(g, upperBound, 1, k);
  }

  // ---------------------------------------------------------------------------------------
  // The result
  // ---------------------------------------------------------------------------------------

  /** Python's `max` of a non-empty tuple. */
  function MaxOf(s: seq<int>): (m: int)
    requires |s| > 0
    ensures m in s && forall x | x in s :: x <= m
  {
    if |s| == 1 then s[0]
    else
      var rest := MaxOf(s[1..]);
      assert forall x | x in s :: x == s[0] || x in s[1..];
      if s[0] >= rest then s[0] else rest
  }

  /** The exclusive upper bound after capping by the pathwidth. */
  function Cap(n: nat, upperBound: Option<int>, pathwidth: nat): (r: int)
    ensures r <= (if pathwidth > 1 then pathwidth else 1)
    ensures upperBound.Some? ==> r <= upperBound.value
    ensures upperBound.None? ==> r <= n
  {
    var byPathwidth := if pathwidth > 1 then pathwidth else 1;
    var given := if upperBound.None? then n else upperBound.value;
    if byPathwidth < given then byPathwidth else given
  }

  /** `min(max(prefix) + 1 for prefix in valid_prefixes)`. */
  method LeastClasses(prefixes: set<seq<int>>) returns (best: int)
    requires prefixes != {} && forall pr | pr in prefixes :: |pr| > 0
    ensures exists pr | pr in prefixes :: best == MaxOf(pr) + 1
    ensures forall pr | pr in prefixes :: best <= MaxOf(pr) + 1
  {
    var first :| first in prefixes;
    best := MaxOf(first) + 1;
    var pending := prefixes - {first};
    while pending != {}
      invariant pending <= prefixes
      invariant exists pr | pr in prefixes :: best == MaxOf(pr) + 1
      invariant forall pr | pr in prefixes - pending :: best <= MaxOf(pr) + 1
      decreases |pending|
    {
      var prefix :| prefix in pending;
      if MaxOf(prefix) + 1 < best {
        best := MaxOf(prefix) + 1;
      }
      pending := pending - {prefix};
    }
  }

  /** The prefixes of round `k + 1` from those of round `k`. */
  method NextRound(g: Graph, upperBound: int, k: nat, prefixes: set<seq<int>>) returns (next: set<seq<int>>)
    requires g.vertices == Range(|g.vertices|)
    requires prefixes == Rounds(g, upperBound, k)
    ensures next == Rounds(g, upperBound, k + 1)
  {
    RoundsLength(g, upperBound, k);
    next := ExtendRound(g, upperBound, prefixes);
  }

  /** The `while` loop: at most one round per vertex, stopping early when no prefix
      survives. */
  method RunRounds(g: Graph, upperBound: int) returns (validPrefixes: set<seq<int>>)
    requires g.vertices == Range(|g.vertices|)
    ensures validPrefixes == Rounds(g, upperBound, |g.vertices|)
  {
    var n := |g.vertices|;
    validPrefixes := {Initial(n)};
    var prefixesLength := 0;
    while prefixesLength < n && validPrefixes != {}
      invariant prefixesLength <= n
      invariant validPrefixes == Rounds(g, upperBound, prefixesLength)
      decreases n - prefixesLength
    {
      validPrefixes := NextRound(g, upperBound, prefixesLength, validPrefixes);
      prefixesLength := prefixesLength + 1;
    }
    if prefixesLength < n {
      EmptyStaysEmpty(g, upperBound, prefixesLength, n);
    }
  }

  /** `calculate_thinness_with_dynamic_programming`. For the empty graph the single empty
      prefix survives and `max(())` raises. */
  method CalculateThinnessWithDynamicProgramming(g: Graph, upperBound: Option<int>, pathwidth: nat)
    returns (r: Result<int>)
    requires g.vertices == Range(|g.vertices|)
    ensures r.Failure? <==> |g.vertices| == 0
    ensures r.Success? ==>
      var bound := Cap(|g.vertices|, upperBound, pathwidth);
      var survivors := Rounds(g, bound, |g.vertices|);
      r.value <= bound &&
      (survivors == {} ==> r.value == bound) &&
      (survivors != {} ==>
        |g.vertices| >= 1 && (forall pr | pr in survivors :: |pr| == |g.vertices|) &&
        (exists pr | pr in survivors :: r.value == MaxOf(pr) + 1) &&
        (forall pr | pr in survivors :: r.value <= MaxOf(pr) + 1))
  {
    var n := |g.vertices|;
    var bound := Cap(n, upperBound, pathwidth);
    var validPrefixes := RunRounds(g, bound);
    if validPrefixes == {} {
      return Success(bound);
    }
    if n == 0 {
      return Failure("max() arg is an empty sequence");
    }
    RoundsWellFormed(g, bound, n);
    var best := LeastClasses(validPrefixes);
    SurvivorsBelowBound(validPrefixes, n, bound);
    r := Success(best);
  }

  /** A prefix with every vertex placed in a part below `upperBound - 1` needs fewer than
      `upperBound` classes. */
  lemma SurvivorsBelowBound(prefixes: set<seq<int>>, n: nat, upperBound: int)
    requires n >= 1 && prefixes != {}
    requires forall pr | pr in prefixes :: |pr| == n && WellFormed(pr, n, upperBound, n)
    ensures forall pr | pr in prefixes :: MaxOf(pr) + 1 < upperBound
  {
    forall pr | pr in prefixes
      ensures MaxOf(pr) + 1 < upperBound
    {
      SuffixSplitsVertices(pr);
      var v :| v in Assigned(pr);
      assert pr[v] in pr;
      var i :| 0 <= i < |pr| && pr[i] == MaxOf(pr);
    }
  }

  /** A complete graph on 0..n-1. */
  predicate Complete(g: Graph) {
    g.vertices == Range(|g.vertices|) &&
    forall u, v | u in g.vertices && v in g.vertices && u != v :: g.HasEdge(u, v)
  }

  /** The prefix with the vertices 0..k-1 in part 0 and the others unplaced. */
  function Filled(n: nat, k: nat): (r: seq<int>)
    requires k <= n
    ensures |r| == n && forall i | 0 <= i < n :: r[i] == if i < k then 0 else -1
  {
    if k == 0 then Initial(n) else Filled(n, k - 1)[k - 1 := 0]
  }

  /** In a complete graph, every suffix vertex is a neighbour of every other vertex, so
      vertex k may always join part 0 after 0..k-1 went there. */
  lemma CompleteCanJoin(g: Graph, k: nat)
    requires Complete(g) && k < |g.vertices|
    ensures CanJoin(g, Filled(|g.vertices|, k), k, 0)
  {
    var prefix := Filled(|g.vertices|, k);
    forall u | u in PartSuffixNeighbors(g, prefix, 0)
      ensures u in VertexSuffixNeighbors(g, prefix, k)
    {
      PartSuffixNeighborsMembers(g, prefix, 0, u);
      VertexSuffixNeighborsMembers(g, prefix, k, u);
    }
  }

  /** Putting vertex k - 1 into part 0 after 0..k-2 is a successor in a complete graph. */
  lemma CompleteStep(g: Graph, upperBound: int, k: nat)
    requires Complete(g) && 2 <= upperBound && 0 < k <= |g.vertices|
    ensures Filled(|g.vertices|, k) in Successors(g, Filled(|g.vertices|, k - 1), upperBound)
  {
    CompleteCanJoin(g, k - 1);
  }

  /** In a complete graph, with part 0 available, putting the vertices into part 0 one by
      one in vertex order survives every round. */
  lemma {:induction false} CompleteFilledSurvives(g: Graph, upperBound: int, k: nat)
    requires Complete(g) && 2 <= upperBound && k <= |g.vertices|
    ensures Filled(|g.vertices|, k) in Rounds(g, upperBound, k)
  {
    if k > 0 {
      CompleteFilledSurvives(g, upperBound, k - 1);
      CompleteNext(g, upperBound, k);
    }
  }

  /** A successor of a prefix of the round is made by the round. */
  lemma InRound(g: Graph, upperBound: int, prefixes: set<seq<int>>, pr: seq<int>, s: seq<int>)
    requires pr in prefixes && s in Successors(g, pr, upperBound)
    ensures s in Round(g, upperBound, prefixes)
  {
    RoundMembers(g, upperBound, prefixes, s);
  }

  /** One more round keeps the filled prefix alive. */
  lemma CompleteNext(g: Graph, upperBound: int, k: nat)
    requires Complete(g) && 2 <= upperBound && 0 < k <= |g.vertices|
    requires Filled(|g.vertices|, k - 1) in Rounds(g, upperBound, k - 1)
    ensures Filled(|g.vertices|, k) in Rounds(g, upperBound, k)
  {
    CompleteStep(g, upperBound, k);
    InRound(g, upperBound, Rounds(g, upperBound, k - 1), Filled(|g.vertices|, k - 1), Filled(|g.vertices|, k));
  }

  /** On a complete graph with at least two vertices and pathwidth at least two (K3, and
      Kn of pathwidth n - 1), no bound given: some prefix survives, the least survivor uses
      one part, so the result is 1. */
  lemma CompleteGivesOne(g: Graph, pathwidth: nat)
    requires Complete(g) && 2 <= |g.vertices| && 2 <= pathwidth
    ensures var bound := Cap(|g.vertices|, None, pathwidth);
      var survivors := Rounds(g, bound, |g.vertices|);
      (exists pr | pr in survivors :: |pr| > 0 && MaxOf(pr) + 1 == 1) &&
      (forall pr | pr in survivors :: |pr| > 0 && 1 <= MaxOf(pr) + 1)
  {
    var n := |g.vertices|;
    var bound := Cap(n, None, pathwidth);
    CompleteFilledSurvives(g, bound, n);
    var all := Filled(n, n);
    assert forall x | x in all :: x == 0;
    assert all[0] == 0;
    RoundsWellFormed(g, bound, n);
    forall pr | pr in Rounds(g, bound, n)
      ensures |pr| > 0 && 1 <= MaxOf(pr) + 1
    {
      SuffixSplitsVertices(pr);
      var v :| v in Assigned(pr);
      assert pr[v] in pr;
    }
  }

  /** With a pathwidth of at most one and no bound given (the single vertex, the single edge
      and the edgeless graphs), no prefix survives and the result is one class. */
  lemma PathwidthAtMostOneGivesOne(g: Graph, pathwidth: nat)
    requires |g.vertices| >= 1 && pathwidth <= 1
    ensures Cap(|g.vertices|, None, pathwidth) == 1
    ensures Rounds(g, 1, |g.vertices|) == {}
  {
    NoPartsNoSurvivors(g, 1, |g.vertices|);
  }
}
