/** src/thinness/vertex_separation.py: a consistent solution read off a linear layout of
    the vertices. Walking the layout, a vertex whose last neighbour comes later is
    "active": it is appended to the order and takes the least class not held by the
    vertices active at that moment. Any other vertex is put at the head of the order with
    class 0 when its last neighbour sits at layout position 0, and otherwise just in front of
    that last neighbour, in the last neighbour's class. */
module VertexSeparation {
  import opened Graphs
  import opened Itertools
  import opened Wrappers
  import opened ConsistentSolution
  import opened Verify

  /** The vertices are the numbers 0..order-1, as the docstring demands. */
  predicate Numbered(g: Graph) {
    g.vertices == Range(g.Order())
  }

  /** `layout` lists each of 0..n-1 exactly once. */
  predicate IsLayout(layout: seq<nat>, n: nat) {
    |layout| == n &&
    (forall i | 0 <= i < n :: layout[i] < n) &&
    (forall i, j | 0 <= i < j < n :: layout[i] != layout[j]) &&
    (forall v | 0 <= v < n :: v in layout)
  }

  predicate Distinct(xs: seq<nat>) {
    forall i, j | 0 <= i < j < |xs| :: xs[i] != xs[j]
  }

  // ---------------------------------------------------------------------------------------
  // _get_last_neighbors

  /** The marker `_get_last_neighbors` starts every entry at, and the inactive branch
      compares against: 0 in the source, which position 0 can also hold. A negative marker
      never equals a position. */
  predicate Marker(noNeighbor: int) {
    noNeighbor <= 0
  }

  /** The largest position below `t` at which `layout` holds a neighbour of `v`, or the
      marker when there is none. */
  function LastNeighborBefore(g: Graph, layout: seq<nat>, v: nat, t: nat, noNeighbor: int): (r: int)
    requires t <= |layout|
    ensures r == noNeighbor || 0 <= r < t
    ensures (exists i | 0 <= i < t :: g.HasEdge(layout[i], v)) ==>
      0 <= r < t && g.HasEdge(layout[r], v) && forall i | r < i < t :: !g.HasEdge(layout[i], v)
    ensures (forall i | 0 <= i < t :: !g.HasEdge(layout[i], v)) ==> r == noNeighbor
  {
    if t == 0 then noNeighbor
    else if g.HasEdge(layout[t - 1], v) then t - 1
    else LastNeighborBefore(g, layout, v, t - 1, noNeighbor)
  }

  /** `last[v]` is the position of the last neighbour of `v` in the whole layout, or the
      marker. */
  predicate LastNeighbors(g: Graph, layout: seq<nat>, last: seq<int>, noNeighbor: int) {
    forall v | 0 <= v < |last| :: last[v] == LastNeighborBefore(g, layout, v, |layout|, noNeighbor)
  }

  /** `_get_last_neighbors`: every entry starts at the marker; then for each layout position
      in turn, every neighbour of the vertex there records `max(index, last_neighbors[neighbor])`. */
  method GetLastNeighbors(g: Graph, layout: seq<nat>, noNeighbor: int) returns (last: array<int>)
    requires Numbered(g) && Marker(noNeighbor)
    ensures fresh(last) && last.Length == g.Order()
    ensures LastNeighbors(g, layout, last[..], noNeighbor)
  {
    var n := g.Order();
    last := new int[n](_ => noNeighbor);
    var index := 0;
    while index < |layout|
      invariant 0 <= index <= |layout|
      invariant forall v | 0 <= v < n :: last[v] == LastNeighborBefore(g, layout, v, index, noNeighbor)
    {
      var vertex := layout[index];
      var todo := g.Neighbors(vertex);
      while todo != {}
        invariant todo <= g.Neighbors(vertex)
        invariant forall v | 0 <= v < n ::
          last[v] == (if v in g.Neighbors(vertex) - todo then index else LastNeighborBefore(g, layout, v, index, noNeighbor))
        decreases todo
      {
        var neighbor :| neighbor in todo;
        last[neighbor] := if index > last[neighbor] then index else last[neighbor];
        todo := todo - {neighbor};
      }
      index := index + 1;
    }
  }

  // ---------------------------------------------------------------------------------------
  // _mex

  /** Python's `sorted` on a list of naturals. */
  function SortedValues(xs: seq<nat>): (r: seq<nat>)
    ensures multiset(r) == multiset(xs)
    ensures forall i, j | 0 <= i < j < |r| :: r[i] <= r[j]
  {
    var key := map x | x in xs :: x as int;
    var r := OrderFromModel(xs, key);
    assert forall i | 0 <= i < |r| :: key[r[i]] == r[i] by {
      forall i | 0 <= i < |r|
        ensures key[r[i]] == r[i]
      {
        assert r[i] in multiset(xs);
      }
    }
    r
  }

  /** `_mex`: sort, then return the first position whose entry differs from it, or the
      length when there is none. With repeated entries that is not the least missing
      value ([0, 0, 1] gives 1), so the contract pins the value only for distinct entries,
      which is what the construction passes. */
  method Mex(xs: seq<nat>) returns (m: nat)
    ensures m <= |xs|
    ensures forall k | 0 <= k < m :: k in xs
    ensures Distinct(xs) ==> m !in xs
  {
    var sorted := SortedValues(xs);
    assert |sorted| == |multiset(sorted)| == |xs|;
    var i := 0;
    while i < |sorted|
      invariant 0 <= i <= |sorted|
      invariant forall k | 0 <= k < i :: sorted[k] == k
    {
      if i != sorted[i] {
        MexAt(xs, sorted, i);
        return i;
      }
      i := i + 1;
    }
    MexAt(xs, sorted, i);
    return i;
  }

  /** A sorted copy of `xs` that starts 0, 1, .., i-1 and then leaves out i. */
  lemma MexAt(xs: seq<nat>, sorted: seq<nat>, i: nat)
    requires multiset(sorted) == multiset(xs)
    requires forall a, b | 0 <= a < b < |sorted| :: sorted[a] <= sorted[b]
    requires i <= |sorted| && forall k | 0 <= k < i :: sorted[k] == k
    requires i < |sorted| ==> sorted[i] != i
    ensures forall k | 0 <= k < i :: k in xs
    ensures Distinct(xs) ==> i !in xs
  {
    forall k | 0 <= k < i
      ensures k in xs
    {
      assert sorted[k] in multiset(sorted);
    }
    if Distinct(xs) {
      DistinctPermutation(xs, sorted);
      forall k | 0 <= k < |sorted|
        ensures sorted[k] != i
      {
        if i < k {
          StrictlyAbove(sorted, i, k);
        }
      }
      assert i !in multiset(sorted);
    }
  }

  /** In a sorted list of distinct naturals that starts 0, .., i-1 and then leaves out i,
      everything from position i on is above i. */
  lemma StrictlyAbove(sorted: seq<nat>, i: nat, k: nat)
    requires forall a, b | 0 <= a < b < |sorted| :: sorted[a] <= sorted[b]
    requires Distinct(sorted)
    requires i < k < |sorted| && sorted[i] != i && forall q | 0 <= q < i :: sorted[q] == q
    ensures i < sorted[k]
  {
    if i > 0 {
      assert sorted[i - 1] < sorted[i];
    }
    assert sorted[i] < sorted[k];
  }

  lemma {:induction false} DistinctCount(xs: seq<nat>, x: nat)
    requires Distinct(xs)
    ensures multiset(xs)[x] <= 1
  {
    if xs != [] {
      var init := xs[..|xs| - 1];
      assert xs == init + [xs[|xs| - 1]];
      assert Distinct(init);
      DistinctCount(init, x);
      if xs[|xs| - 1] == x {
        assert forall q | 0 <= q < |init| :: init[q] != x;
        assert x !in init;
      }
    }
  }

  lemma TwoCopies(ys: seq<nat>, a: nat, b: nat)
    requires a < b < |ys| && ys[a] == ys[b]
    ensures multiset(ys)[ys[a]] >= 2
  {
    assert ys == ys[..b] + [ys[b]] + ys[b + 1..];
    assert ys[..b][a] == ys[a];
  }

  /** A rearrangement of a list of distinct naturals has distinct entries. */
  lemma DistinctPermutation(xs: seq<nat>, ys: seq<nat>)
    requires multiset(xs) == multiset(ys) && Distinct(xs)
    ensures Distinct(ys)
  {
    forall a, b | 0 <= a < b < |ys|
      ensures ys[a] != ys[b]
    {
      if ys[a] == ys[b] {
        TwoCopies(ys, a, b);
        DistinctCount(xs, ys[a]);
      }
    }
  }

  // ---------------------------------------------------------------------------------------
  // The deque and _insert_before

  /** `s` with `x` put at position `k`. */
  function InsertAt(s: seq<nat>, k: nat, x: nat): seq<nat>
    requires k <= |s|
  {
    s[..k] + [x] + s[k..]
  }

  /** `deque.index(x)`: the first position holding `x`, or `None` where Python raises
      `ValueError`. */
  function FirstIndex(s: seq<nat>, x: nat): (r: Option<nat>)
    ensures r.Some? ==> r.value < |s| && s[r.value] == x && x !in s[..r.value]
    ensures r.None? <==> x !in s
  {
    if s == [] then None
    else if s[0] == x then Some(0)
    else match FirstIndex(s[1..], x)
      case None => None
      case Some(k) =>
        assert s[..k + 1] == [s[0]] + s[1..][..k];
        Some(k + 1)
  }

  /** The `collections.deque` the order is built in, as the list it holds. */
  class Deque {
    var items: seq<nat>

    constructor ()
      ensures items == []
    {
      items := [];
    }

    /** `append(x)`. */
    method Append(x: nat)
      modifies this
      ensures items == InsertAt(old(items), |old(items)|, x)
    {
      items := items + [x];
    }

    /** `appendleft(x)`. */
    method AppendLeft(x: nat)
      modifies this
      ensures items == InsertAt(old(items), 0, x)
    {
      items := [x] + items;
    }

    /** `insert(i, x)`: a position past the end inserts at the end. */
    method Insert(i: nat, x: nat)
      modifies this
      ensures items == InsertAt(old(items), if i <= |old(items)| then i else |old(items)|, x)
    {
      var k := if i <= |items| then i else |items|;
      items := items[..k] + [x] + items[k..];
    }
  }

  /** `_insert_before(deck, element, before)`: `element` goes just in front of the first
      `before`. When `before` is missing, `index` raises and the deque is left as it was;
      `ok` reports which happened. */
  method InsertBefore(deck: Deque, element: nat, before: nat) returns (ok: bool)
    modifies deck
    ensures ok <==> before in old(deck.items)
    ensures ok ==> deck.items == InsertAt(old(deck.items), FirstIndex(old(deck.items), before).value, element)
    ensures !ok ==> deck.items == old(deck.items)
  {
    var position := FirstIndex(deck.items, before);
    if position.None? {
      return false;
    }
    deck.Insert(position.value, element);
    return true;
  }

  /** What `_insert_before` produces: one entry longer, `element` directly in front of the
      first `before`, and removing it gives the deque back. */
  lemma InsertedJustBefore(s: seq<nat>, element: nat, before: nat, k: nat)
    requires before in s && FirstIndex(s, before) == Some(k)
    ensures |InsertAt(s, k, element)| == |s| + 1
    ensures InsertAt(s, k, element)[k] == element && InsertAt(s, k, element)[k + 1] == before
    ensures before !in InsertAt(s, k, element)[..k]
    ensures RemoveAt(InsertAt(s, k, element), k) == s
    ensures multiset(InsertAt(s, k, element)) == multiset(s) + multiset{element}
  {
    var r := InsertAt(s, k, element);
    assert r[..k] == s[..k];
    InsertAtMultiset(s, k, element);
    RemoveInserted(s, k, element);
  }

  lemma InsertAtMultiset(s: seq<nat>, k: nat, x: nat)
    requires k <= |s|
    ensures multiset(InsertAt(s, k, x)) == multiset(s) + multiset{x}
  {
    assert s == s[..k] + s[k..];
  }

  lemma RemoveInserted(s: seq<nat>, k: nat, x: nat)
    requires k <= |s|
    ensures RemoveAt(InsertAt(s, k, x), k) == s
  {
    var r := InsertAt(s, k, x);
    assert r[..k] == s[..k];
    assert r[k + 1..] == s[k..];
  }

  /** `x` stands somewhere in front of `y`. */
  ghost predicate Before(s: seq<nat>, x: nat, y: nat) {
    exists i, j :: 0 <= i < j < |s| && s[i] == x && s[j] == y
  }

  /** Inserting an entry keeps every "in front of" relation. */
  lemma InsertKeepsBefore(s: seq<nat>, k: nat, z: nat, x: nat, y: nat)
    requires k <= |s| && Before(s, x, y)
    ensures Before(InsertAt(s, k, z), x, y)
  {
    var i, j :| 0 <= i < j < |s| && s[i] == x && s[j] == y;
    var r := InsertAt(s, k, z);
    var i' := if i < k then i else i + 1;
    var j' := if j < k then j else j + 1;
    assert r[i'] == x && r[j'] == y;
  }

  // ---------------------------------------------------------------------------------------
  // The main loop of solution_from_vertex_separation

  /** `[part_of[a] for a in graph if is_active[a]]`, vertices taken in increasing order. */
  function ActiveClasses(isActive: seq<bool>, partOf: seq<Option<nat>>): (r: seq<nat>)
    requires |isActive| == |partOf|
    requires forall a | 0 <= a < |isActive| && isActive[a] :: partOf[a].Some?
    ensures forall c :: c in r <==> exists a | 0 <= a < |isActive| :: isActive[a] && partOf[a] == Some(c)
    ensures (forall a, b | 0 <= a < b < |isActive| && isActive[a] && isActive[b] :: partOf[a] != partOf[b]) ==>
      Distinct(r)
    decreases |isActive|
  {
    if |isActive| == 0 then []
    else
      var k := |isActive| - 1;
      var rest := ActiveClasses(isActive[..k], partOf[..k]);
      assert forall c :: c in rest <==> exists a | 0 <= a < k :: isActive[a] && partOf[a] == Some(c);
      if isActive[k] then rest + [partOf[k].value] else rest
  }

  /** The lengths agree and `layout` lists 0..n-1 once each. */
  ghost predicate Shape(layout: seq<nat>, last: seq<int>, partOf: seq<Option<nat>>) {
    IsLayout(layout, |layout|) && |last| == |layout| && |partOf| == |layout|
  }

  /** The classes held, when the vertex at layout position `i` arrives, by the earlier
      vertices whose last neighbour lies beyond `i`: the vertices active at that moment. */
  ghost function ActiveAt(layout: seq<nat>, last: seq<int>, partOf: seq<Option<nat>>, i: nat): set<nat>
    requires Shape(layout, last, partOf) && i <= |layout|
  {
    set j | 0 <= j < i && i < last[layout[j]] && partOf[layout[j]].Some? :: partOf[layout[j]].value
  }

  /** The classes held by the vertices at the first `t` layout positions. */
  ghost function ClassesOf(layout: seq<nat>, partOf: seq<Option<nat>>, t: nat): set<nat>
    requires IsLayout(layout, |layout|) && |partOf| == |layout| && t <= |layout|
  {
    set j | 0 <= j < t && partOf[layout[j]].Some? :: partOf[layout[j]].value
  }

  /** How the vertex at layout position `i` got its class. An active vertex (its last
      neighbour comes later) holds the least class not held by the vertices active when it
      arrived: the mex. Any other vertex holds class 0 when its entry is the marker, and
      otherwise the class of its last neighbour, and stands in front of it in `order`. */
  ghost predicate ClassRule(layout: seq<nat>, last: seq<int>, noNeighbor: int, partOf: seq<Option<nat>>, order: seq<nat>, i: nat)
    requires Shape(layout, last, partOf) && i < |layout|
  {
    var v := layout[i];
    partOf[v].Some? &&
    if i < last[v] then
      partOf[v].value !in ActiveAt(layout, last, partOf, i) &&
      forall c | 0 <= c < partOf[v].value :: c in ActiveAt(layout, last, partOf, i)
    else if last[v] == noNeighbor then
      partOf[v] == Some(0)
    else
      0 <= last[v] < i && partOf[v] == partOf[layout[last[v]]] && Before(order, v, layout[last[v]])
  }

  /** Where the vertex at layout position `i` stands in the order being built. An active
      vertex ranks 2i + 1. A vertex filed in front of its last neighbour at position p
      ranks 2p, just below that neighbour. A vertex put at the head ranks -1 - i, so later
      heads come first. */
  ghost function Rank(layout: seq<nat>, last: seq<int>, noNeighbor: int, i: nat): int
    requires |last| == |layout| && IsLayout(layout, |layout|) && i < |layout|
  {
    var v := layout[i];
    if i < last[v] then 2 * i + 1
    else if last[v] == noNeighbor then -1 - i
    else 2 * last[v]
  }

  /** The layout position of `v`. */
  function Pos(layout: seq<nat>, v: nat): (i: nat)
    requires IsLayout(layout, |layout|) && v < |layout|
    ensures i < |layout| && layout[i] == v
  {
    IndexOf(layout, v)
  }

  /** The order lists its vertices by non-decreasing rank. */
  ghost predicate Ranked(layout: seq<nat>, last: seq<int>, noNeighbor: int, order: seq<nat>)
    requires |last| == |layout| && IsLayout(layout, |layout|)
  {
    forall a, b | 0 <= a < b < |order| && order[a] < |layout| && order[b] < |layout| ::
      Rank(layout, last, noNeighbor, Pos(layout, order[a])) <= Rank(layout, last, noNeighbor, Pos(layout, order[b]))
  }

  /** Every class below a class in use is in use. */
  ghost predicate DownClosed(layout: seq<nat>, partOf: seq<Option<nat>>, t: nat)
    requires IsLayout(layout, |layout|) && |partOf| == |layout| && t <= |layout|
  {
    forall c, d | c in ClassesOf(layout, partOf, t) && 0 <= d < c :: d in ClassesOf(layout, partOf, t)
  }

  /** The state after the first `t` layout positions: they and only they are in `order` and
      have a class, each got its class by the rule, and the classes in use are downward
      closed. */
  ghost predicate Progress(g: Graph, layout: seq<nat>, last: seq<int>, noNeighbor: int, partOf: seq<Option<nat>>, order: seq<nat>, t: nat) {
    Shape(layout, last, partOf) && LastNeighbors(g, layout, last, noNeighbor) && t <= |layout| &&
    multiset(order) == multiset(layout[..t]) &&
    (forall i | 0 <= i < |layout| :: partOf[layout[i]].Some? <==> i < t) &&
    (forall i | 0 <= i < t :: ClassRule(layout, last, noNeighbor, partOf, order, i)) &&
    DownClosed(layout, partOf, t)
  }

  /** `is_active`: exactly the vertices among the first `t` whose last neighbour is at
      position `h` or later. */
  ghost predicate Activity(layout: seq<nat>, last: seq<int>, isActive: seq<bool>, t: nat, h: nat)
    requires IsLayout(layout, |layout|) && |last| == |layout| && |isActive| == |layout|
  {
    forall i | 0 <= i < |layout| :: isActive[layout[i]] <==> i < t && h <= last[layout[i]]
  }

  /** The first inner loop: each neighbour of `vertex` whose last neighbour is at `index`
      stops being active. */
  method Deactivate(g: Graph, vertex: nat, index: nat, last: array<int>, isActive: array<bool>)
    requires Numbered(g) && last.Length == g.Order() && isActive.Length == g.Order()
    modifies isActive
    ensures forall w | 0 <= w < isActive.Length ::
      isActive[w] == (old(isActive[w]) && !(g.HasEdge(vertex, w) && last[w] == index))
  {
    var todo := g.Neighbors(vertex);
    while todo != {}
      invariant todo <= g.Neighbors(vertex)
      invariant forall w | 0 <= w < isActive.Length ::
        isActive[w] == (old(isActive[w]) && !(w in g.Neighbors(vertex) - todo && last[w] == index))
      decreases todo
    {
      var neighbor :| neighbor in todo;
      if last[neighbor] == index {
        isActive[neighbor] := false;
      }
      todo := todo - {neighbor};
    }
  }

  /** After the deactivation at position t, the active vertices are those among the first
      t whose last neighbour lies beyond t. */
  lemma DeactivationStep(g: Graph, layout: seq<nat>, last: seq<int>, noNeighbor: int, before: seq<bool>, after: seq<bool>, t: nat)
    requires g.Valid() && IsLayout(layout, |layout|) && |last| == |layout| && LastNeighbors(g, layout, last, noNeighbor)
    requires Marker(noNeighbor) && |before| == |layout| && |after| == |layout| && t < |layout|
    requires Activity(layout, last, before, t, t)
    requires forall w | 0 <= w < |after| :: after[w] == (before[w] && !(g.HasEdge(layout[t], w) && last[w] == t))
    ensures Activity(layout, last, after, t, t + 1)
  {
    forall i | 0 <= i < |layout| && i < t && last[layout[i]] == t
      ensures g.HasEdge(layout[t], layout[i])
    {
      var v := layout[i];
      assert last[v] == LastNeighborBefore(g, layout, v, |layout|, noNeighbor);
    }
  }

  /** The position of a vertex in the layout. */
  lemma PositionOf(layout: seq<nat>, v: nat) returns (i: nat)
    requires IsLayout(layout, |layout|) && v < |layout|
    ensures i < |layout| && layout[i] == v
  {
    assert v in layout;
    i :| 0 <= i < |layout| && layout[i] == v;
  }

  /** Once the deactivation at position t is done, the list handed to `_mex` holds exactly
      the classes active when position t arrives, and they are distinct. */
  lemma ActiveClassesAt(g: Graph, layout: seq<nat>, last: seq<int>, noNeighbor: int, partOf: seq<Option<nat>>,
                        order: seq<nat>, isActive: seq<bool>, t: nat)
    requires Progress(g, layout, last, noNeighbor, partOf, order, t) && t < |layout| && |isActive| == |layout|
    requires Activity(layout, last, isActive, t, t + 1)
    ensures forall a | 0 <= a < |isActive| && isActive[a] :: partOf[a].Some?
    ensures forall c :: c in ActiveClasses(isActive, partOf) <==> c in ActiveAt(layout, last, partOf, t)
    ensures Distinct(ActiveClasses(isActive, partOf))
  {
    var n := |layout|;
    forall a | 0 <= a < n && isActive[a]
      ensures partOf[a].Some?
    {
      var i := PositionOf(layout, a);
    }
    forall c
      ensures c in ActiveClasses(isActive, partOf) <==> c in ActiveAt(layout, last, partOf, t)
    {
      if c in ActiveClasses(isActive, partOf) {
        var a :| 0 <= a < n && isActive[a] && partOf[a] == Some(c);
        var j := PositionOf(layout, a);
      }
      if c in ActiveAt(layout, last, partOf, t) {
        var j :| 0 <= j < t && t < last[layout[j]] && partOf[layout[j]] == Some(c);
        assert isActive[layout[j]];
      }
    }
    forall a, b | 0 <= a < b < n && isActive[a] && isActive[b]
      ensures partOf[a] != partOf[b]
    {
      var ia := PositionOf(layout, a);
      var ib := PositionOf(layout, b);
      if ia < ib {
        ActiveDiffers(g, layout, last, noNeighbor, partOf, order, t, ia, ib);
      } else {
        ActiveDiffers(g, layout, last, noNeighbor, partOf, order, t, ib, ia);
      }
    }
  }

  /** Two vertices both active at position t hold different classes: the later one avoided
      the earlier one's class when it arrived. */
  lemma ActiveDiffers(g: Graph, layout: seq<nat>, last: seq<int>, noNeighbor: int, partOf: seq<Option<nat>>,
                      order: seq<nat>, t: nat, i: nat, j: nat)
    requires Progress(g, layout, last, noNeighbor, partOf, order, t)
    requires i < j < t < last[layout[i]] && t < last[layout[j]]
    ensures partOf[layout[i]] != partOf[layout[j]]
  {
    assert ClassRule(layout, last, noNeighbor, partOf, order, j);
    assert partOf[layout[i]].value in ActiveAt(layout, last, partOf, j);
  }

  /** Changing only classes at positions `i` and later leaves the earlier active classes. */
  lemma ActiveAtFrame(layout: seq<nat>, last: seq<int>, partOf: seq<Option<nat>>, partOf': seq<Option<nat>>, i: nat)
    requires Shape(layout, last, partOf) && |partOf'| == |partOf| && i <= |layout|
    requires forall j | 0 <= j < i :: partOf'[layout[j]] == partOf[layout[j]]
    ensures ActiveAt(layout, last, partOf', i) == ActiveAt(layout, last, partOf, i)
  {
  }

  /** Giving position t a class adds just that class to the classes in use. */
  lemma ClassesOfStep(layout: seq<nat>, partOf: seq<Option<nat>>, t: nat, x: nat)
    requires IsLayout(layout, |layout|) && |partOf| == |layout| && t < |layout|
    requires forall j | 0 <= j < t :: layout[j] != layout[t]
    ensures ClassesOf(layout, partOf[layout[t] := Some(x)], t + 1) == ClassesOf(layout, partOf, t) + {x}
  {
    var partOf' := partOf[layout[t] := Some(x)];
    assert forall j | 0 <= j < t :: partOf'[layout[j]] == partOf[layout[j]];
    assert partOf'[layout[t]] == Some(x);
  }

  /** A position's class rule survives a step that leaves the classes of positions up to
      it alone and inserts one entry into the order. */
  lemma ClassRuleFrame(layout: seq<nat>, last: seq<int>, noNeighbor: int, partOf: seq<Option<nat>>, partOf': seq<Option<nat>>,
                       order: seq<nat>, k: nat, z: nat, i: nat)
    requires Shape(layout, last, partOf) && |partOf'| == |layout|
    requires i < |layout| && k <= |order| && ClassRule(layout, last, noNeighbor, partOf, order, i)
    requires forall j | 0 <= j <= i :: partOf'[layout[j]] == partOf[layout[j]]
    ensures ClassRule(layout, last, noNeighbor, partOf', InsertAt(order, k, z), i)
  {
    var u := layout[i];
    ActiveAtFrame(layout, last, partOf, partOf', i);
    if !(i < last[u]) && last[u] != noNeighbor {
      InsertKeepsBefore(order, k, z, u, layout[last[u]]);
    }
  }

  /** Inserting the vertex at layout position t into the order extends the multiset. */
  lemma StepOrder(layout: seq<nat>, order: seq<nat>, t: nat, k: nat)
    requires t < |layout| && k <= |order| && multiset(order) == multiset(layout[..t])
    ensures multiset(InsertAt(order, k, layout[t])) == multiset(layout[..t + 1])
  {
    assert order == order[..k] + order[k..];
    assert layout[..t + 1] == layout[..t] + [layout[t]];
  }

  /** Giving the vertex at position t a class: exactly the first t + 1 have one. */
  lemma StepClassified(layout: seq<nat>, partOf: seq<Option<nat>>, t: nat, x: nat)
    requires IsLayout(layout, |layout|) && |partOf| == |layout| && t < |layout|
    requires forall i | 0 <= i < |layout| :: partOf[layout[i]].Some? <==> i < t
    ensures forall i | 0 <= i < |layout| :: partOf[layout[t] := Some(x)][layout[i]].Some? <==> i < t + 1
  {
  }

  /** The earlier positions keep their class rule across a step. */
  lemma StepRules(g: Graph, layout: seq<nat>, last: seq<int>, noNeighbor: int, partOf: seq<Option<nat>>, order: seq<nat>,
                  t: nat, x: nat, k: nat, partOf': seq<Option<nat>>, order': seq<nat>)
    requires Progress(g, layout, last, noNeighbor, partOf, order, t) && t < |layout| && k <= |order|
    requires partOf' == partOf[layout[t] := Some(x)] && order' == InsertAt(order, k, layout[t])
    ensures forall i | 0 <= i < t :: ClassRule(layout, last, noNeighbor, partOf', order', i)
  {
    assert forall j | 0 <= j < t :: layout[j] != layout[t];
    forall i | 0 <= i < t
      ensures ClassRule(layout, last, noNeighbor, partOf', order', i)
    {
      ClassRuleFrame(layout, last, noNeighbor, partOf, partOf', order, k, layout[t], i);
    }
  }

  /** A step that gives position t a class by the rule and keeps the classes downward
      closed makes progress. */
  lemma ProgressAfterStep(g: Graph, layout: seq<nat>, last: seq<int>, noNeighbor: int, partOf: seq<Option<nat>>, order: seq<nat>,
                          t: nat, x: nat, k: nat)
    requires Progress(g, layout, last, noNeighbor, partOf, order, t) && t < |layout| && k <= |order|
    requires ClassRule(layout, last, noNeighbor, partOf[layout[t] := Some(x)], InsertAt(order, k, layout[t]), t)
    requires DownClosed(layout, partOf[layout[t] := Some(x)], t + 1)
    ensures Progress(g, layout, last, noNeighbor, partOf[layout[t] := Some(x)], InsertAt(order, k, layout[t]), t + 1)
  {
    StepOrder(layout, order, t, k);
    StepClassified(layout, partOf, t, x);
    StepRules(g, layout, last, noNeighbor, partOf, order, t, x, k, partOf[layout[t] := Some(x)], InsertAt(order, k, layout[t]));
  }

  /** The active branch: append, take the mex `m` of the active classes, activate. */
  lemma ActiveStep(g: Graph, layout: seq<nat>, last: seq<int>, noNeighbor: int, partOf: seq<Option<nat>>, order: seq<nat>,
                   isActive: seq<bool>, t: nat, m: nat)
    requires Progress(g, layout, last, noNeighbor, partOf, order, t) && t < |layout| && |isActive| == |layout|
    requires Activity(layout, last, isActive, t, t + 1) && t < last[layout[t]]
    requires m !in ActiveAt(layout, last, partOf, t) && forall c | 0 <= c < m :: c in ActiveAt(layout, last, partOf, t)
    ensures Progress(g, layout, last, noNeighbor, partOf[layout[t] := Some(m)], InsertAt(order, |order|, layout[t]), t + 1)
    ensures Activity(layout, last, isActive[layout[t] := true], t + 1, t + 1)
  {
    var v := layout[t];
    var partOf' := partOf[v := Some(m)];
    assert forall j | 0 <= j < t :: layout[j] != v;
    ActiveAtFrame(layout, last, partOf, partOf', t);
    ClassesOfStep(layout, partOf, t, m);
    assert ClassRule(layout, last, noNeighbor, partOf', InsertAt(order, |order|, v), t);
    MexDownClosed(layout, last, partOf, t, m);
    ProgressAfterStep(g, layout, last, noNeighbor, partOf, order, t, m, |order|);
    ActivateActivity(layout, last, isActive, t);
  }

  /** Adding the mex of the active classes keeps the classes in use downward closed. */
  lemma MexDownClosed(layout: seq<nat>, last: seq<int>, partOf: seq<Option<nat>>, t: nat, m: nat)
    requires Shape(layout, last, partOf) && t < |layout| && DownClosed(layout, partOf, t)
    requires forall c | 0 <= c < m :: c in ActiveAt(layout, last, partOf, t)
    requires ClassesOf(layout, partOf[layout[t] := Some(m)], t + 1) == ClassesOf(layout, partOf, t) + {m}
    ensures DownClosed(layout, partOf[layout[t] := Some(m)], t + 1)
  {
    assert ActiveAt(layout, last, partOf, t) <= ClassesOf(layout, partOf, t);
  }

  /** Adding a class already in use, or class 0, keeps the classes downward closed. */
  lemma OldClassDownClosed(layout: seq<nat>, last: seq<int>, partOf: seq<Option<nat>>, t: nat, x: nat)
    requires Shape(layout, last, partOf) && t < |layout| && DownClosed(layout, partOf, t)
    requires x == 0 || x in ClassesOf(layout, partOf, t)
    requires ClassesOf(layout, partOf[layout[t] := Some(x)], t + 1) == ClassesOf(layout, partOf, t) + {x}
    ensures DownClosed(layout, partOf[layout[t] := Some(x)], t + 1)
  {
  }

  /** A vertex placed inactive leaves the activity flags as they are. */
  lemma StayInactive(layout: seq<nat>, last: seq<int>, isActive: seq<bool>, t: nat)
    requires IsLayout(layout, |layout|) && |last| == |layout| && |isActive| == |layout| && t < |layout|
    requires Activity(layout, last, isActive, t, t + 1) && last[layout[t]] <= t
    ensures Activity(layout, last, isActive, t + 1, t + 1)
  {
  }

  /** The newly placed active vertex turns active; nothing else changes. */
  lemma ActivateActivity(layout: seq<nat>, last: seq<int>, isActive: seq<bool>, t: nat)
    requires IsLayout(layout, |layout|) && |last| == |layout| && |isActive| == |layout| && t < |layout|
    requires Activity(layout, last, isActive, t, t + 1) && t < last[layout[t]]
    ensures Activity(layout, last, isActive[layout[t] := true], t + 1, t + 1)
  {
  }

  /** The inactive branch: class 0 at the head, or the last neighbour's class just in
      front of it. */
  lemma InactiveStep(g: Graph, layout: seq<nat>, last: seq<int>, noNeighbor: int, partOf: seq<Option<nat>>, order: seq<nat>,
                     isActive: seq<bool>, t: nat, k: nat)
    requires Progress(g, layout, last, noNeighbor, partOf, order, t) && t < |layout| && |isActive| == |layout|
    requires Activity(layout, last, isActive, t, t + 1) && last[layout[t]] <= t
    requires last[layout[t]] != noNeighbor ==> 0 <= last[layout[t]] < t
    requires last[layout[t]] == noNeighbor ==> k == 0
    requires last[layout[t]] != noNeighbor ==> k < |order| && order[k] == layout[last[layout[t]]]
    ensures last[layout[t]] != noNeighbor ==> partOf[layout[last[layout[t]]]].Some?
    ensures Progress(g, layout, last, noNeighbor,
                     partOf[layout[t] := Some(if last[layout[t]] == noNeighbor then 0 else partOf[layout[last[layout[t]]]].value)],
                     InsertAt(order, k, layout[t]), t + 1)
    ensures Activity(layout, last, isActive, t + 1, t + 1)
  {
    var v := layout[t];
    var p := last[v];
    var x := if p == noNeighbor then 0 else partOf[layout[p]].value;
    assert forall j | 0 <= j < t :: layout[j] != v;
    ClassesOfStep(layout, partOf, t, x);
    if p != noNeighbor {
      assert x in ClassesOf(layout, partOf, t);
    }
    InactiveRule(layout, last, noNeighbor, partOf, order, t, k, x);
    OldClassDownClosed(layout, last, partOf, t, x);
    ProgressAfterStep(g, layout, last, noNeighbor, partOf, order, t, x, k);
    StayInactive(layout, last, isActive, t);
  }

  /** The inactive vertex follows the rule: class 0 when its entry is the marker, else its
      last neighbour's class, standing right in front of that neighbour. */
  lemma InactiveRule(layout: seq<nat>, last: seq<int>, noNeighbor: int, partOf: seq<Option<nat>>, order: seq<nat>,
                     t: nat, k: nat, x: nat)
    requires Shape(layout, last, partOf) && t < |layout| && last[layout[t]] <= t && k <= |order|
    requires last[layout[t]] == noNeighbor ==> x == 0
    requires last[layout[t]] != noNeighbor ==>
               0 <= last[layout[t]] < t && k < |order| && order[k] == layout[last[layout[t]]] &&
               partOf[layout[last[layout[t]]]] == Some(x)
    ensures ClassRule(layout, last, noNeighbor, partOf[layout[t] := Some(x)], InsertAt(order, k, layout[t]), t)
  {
    var v := layout[t];
    var p := last[v];
    var order' := InsertAt(order, k, v);
    if p != noNeighbor {
      assert layout[p] != v;
      assert order'[k] == v && order'[k + 1] == layout[p];
    }
  }

  // ---------------------------------------------------------------------------------------
  // Ranks: the order is always sorted by rank

  /** `layout[i]` sits at layout position i. */
  lemma PosOf(layout: seq<nat>, i: nat)
    requires IsLayout(layout, |layout|) && i < |layout|
    ensures Pos(layout, layout[i]) == i
  {
  }

  /** An order holding the first `t` layout positions holds only vertices placed there. */
  lemma InPrefix(layout: seq<nat>, order: seq<nat>, t: nat, a: nat)
    requires IsLayout(layout, |layout|) && t <= |layout| && multiset(order) == multiset(layout[..t]) && a < |order|
    ensures order[a] < |layout| && Pos(layout, order[a]) < t
  {
    assert order[a] in multiset(layout[..t]);
    var i :| 0 <= i < t && layout[..t][i] == order[a];
    PosOf(layout, i);
  }

  /** The rank of position i lies between -1 - i and 2i + 1. */
  lemma RankBounds(g: Graph, layout: seq<nat>, last: seq<int>, noNeighbor: int, i: nat)
    requires IsLayout(layout, |layout|) && |last| == |layout| && LastNeighbors(g, layout, last, noNeighbor) && i < |layout|
    ensures -1 - i <= Rank(layout, last, noNeighbor, i) <= 2 * i + 1
  {
    var v := layout[i];
    assert last[v] == LastNeighborBefore(g, layout, v, |layout|, noNeighbor);
  }

  /** Putting `v` at index `k` keeps the order ranked when nothing before `k` ranks above
      `v` and nothing from `k` on ranks below it. */
  lemma RankedInsert(layout: seq<nat>, last: seq<int>, noNeighbor: int, order: seq<nat>, k: nat, v: nat)
    requires IsLayout(layout, |layout|) && |last| == |layout| && v < |layout| && k <= |order|
    requires Ranked(layout, last, noNeighbor, order)
    requires forall a | 0 <= a < k && order[a] < |layout| ::
      Rank(layout, last, noNeighbor, Pos(layout, order[a])) <= Rank(layout, last, noNeighbor, Pos(layout, v))
    requires forall a | k <= a < |order| && order[a] < |layout| ::
      Rank(layout, last, noNeighbor, Pos(layout, v)) <= Rank(layout, last, noNeighbor, Pos(layout, order[a]))
    ensures Ranked(layout, last, noNeighbor, InsertAt(order, k, v))
  {
    var o := InsertAt(order, k, v);
    forall a, b | 0 <= a < b < |o| && o[a] < |layout| && o[b] < |layout|
      ensures Rank(layout, last, noNeighbor, Pos(layout, o[a])) <= Rank(layout, last, noNeighbor, Pos(layout, o[b]))
    {
      if a == k {
        assert o[a] == v && o[b] == order[b - 1];
      } else if b == k {
        assert o[a] == order[a] && o[b] == v;
      } else if b < k {
        assert o[a] == order[a] && o[b] == order[b];
      } else if a < k {
        assert o[a] == order[a] && o[b] == order[b - 1];
      } else {
        assert o[a] == order[a - 1] && o[b] == order[b - 1];
      }
    }
  }

  /** An active vertex ranks above everything placed before it: appending keeps the rank
      order. */
  lemma RankedActive(g: Graph, layout: seq<nat>, last: seq<int>, noNeighbor: int, order: seq<nat>, t: nat)
    requires IsLayout(layout, |layout|) && |last| == |layout| && LastNeighbors(g, layout, last, noNeighbor)
    requires t < |layout| && multiset(order) == multiset(layout[..t]) && Ranked(layout, last, noNeighbor, order)
    requires t < last[layout[t]]
    ensures Ranked(layout, last, noNeighbor, InsertAt(order, |order|, layout[t]))
  {
    PosOf(layout, t);
    forall a | 0 <= a < |order|
      ensures order[a] < |layout| &&
              Rank(layout, last, noNeighbor, Pos(layout, order[a])) <= Rank(layout, last, noNeighbor, Pos(layout, layout[t]))
    {
      InPrefix(layout, order, t, a);
      RankBounds(g, layout, last, noNeighbor, Pos(layout, order[a]));
    }
    RankedInsert(layout, last, noNeighbor, order, |order|, layout[t]);
  }

  /** A vertex put at the head ranks below everything placed before it. */
  lemma RankedHead(g: Graph, layout: seq<nat>, last: seq<int>, noNeighbor: int, order: seq<nat>, t: nat)
    requires IsLayout(layout, |layout|) && |last| == |layout| && LastNeighbors(g, layout, last, noNeighbor)
    requires t < |layout| && multiset(order) == multiset(layout[..t]) && Ranked(layout, last, noNeighbor, order)
    requires last[layout[t]] <= t && last[layout[t]] == noNeighbor
    ensures Ranked(layout, last, noNeighbor, InsertAt(order, 0, layout[t]))
  {
    PosOf(layout, t);
    forall a | 0 <= a < |order|
      ensures order[a] < |layout| &&
              Rank(layout, last, noNeighbor, Pos(layout, layout[t])) <= Rank(layout, last, noNeighbor, Pos(layout, order[a]))
    {
      InPrefix(layout, order, t, a);
      RankBounds(g, layout, last, noNeighbor, Pos(layout, order[a]));
    }
    RankedInsert(layout, last, noNeighbor, order, 0, layout[t]);
  }

  /** A neighbour of `layout[i]` at position j puts the last neighbour of `layout[i]` at j
      or later. */
  lemma NeighborBound(g: Graph, layout: seq<nat>, last: seq<int>, noNeighbor: int, i: nat, j: nat)
    requires IsLayout(layout, |layout|) && |last| == |layout| && LastNeighbors(g, layout, last, noNeighbor)
    requires i < |layout| && j < |layout| && g.HasEdge(layout[i], layout[j])
    ensures 0 <= last[layout[i]] && j <= last[layout[i]]
  {
    var u := layout[i];
    assert last[u] == LastNeighborBefore(g, layout, u, |layout|, noNeighbor);
    assert g.HasEdge(layout[j], u);
  }

  /** Only the active vertex at position p ranks 2p + 1. */
  lemma OddRank(layout: seq<nat>, last: seq<int>, noNeighbor: int, i: nat, p: nat)
    requires IsLayout(layout, |layout|) && |last| == |layout| && i < |layout| && i != p
    ensures Rank(layout, last, noNeighbor, i) != 2 * p + 1
  {
  }

  /** A vertex filed in front of its last neighbour at position p ranks 2p: below that
      neighbour, which is still active and ranks 2p + 1, and above everything else in front
      of it. */
  lemma RankedBefore(g: Graph, layout: seq<nat>, last: seq<int>, noNeighbor: int, order: seq<nat>, t: nat, k: nat)
    requires IsLayout(layout, |layout|) && |last| == |layout| && LastNeighbors(g, layout, last, noNeighbor)
    requires t < |layout| && multiset(order) == multiset(layout[..t]) && Ranked(layout, last, noNeighbor, order)
    requires last[layout[t]] != noNeighbor && 0 <= last[layout[t]] < t
    requires k < |order| && order[k] == layout[last[layout[t]]] && layout[last[layout[t]]] !in order[..k]
    ensures Ranked(layout, last, noNeighbor, InsertAt(order, k, layout[t]))
  {
    var v, p := layout[t], last[layout[t]];
    assert last[v] == LastNeighborBefore(g, layout, v, |layout|, noNeighbor);
    NeighborBound(g, layout, last, noNeighbor, p, t);
    PosOf(layout, t);
    PosOf(layout, p);
    assert Rank(layout, last, noNeighbor, p) == 2 * p + 1;
    assert Rank(layout, last, noNeighbor, Pos(layout, v)) == 2 * p;
    forall a | 0 <= a < k
      ensures order[a] < |layout| && Rank(layout, last, noNeighbor, Pos(layout, order[a])) <= 2 * p
    {
      InPrefix(layout, order, t, a);
      assert order[..k][a] == order[a];
      OddRank(layout, last, noNeighbor, Pos(layout, order[a]), p);
    }
    forall a | k <= a < |order|
      ensures order[a] < |layout| && 2 * p <= Rank(layout, last, noNeighbor, Pos(layout, order[a]))
    {
      InPrefix(layout, order, t, a);
    }
    RankedInsert(layout, last, noNeighbor, order, k, v);
  }

  // ---------------------------------------------------------------------------------------
  // The partition

  /** A set of naturals holding every number below each of its members is 0..|s|-1. */
  lemma DownClosedRange(s: set<nat>)
    requires forall c | c in s :: forall d | 0 <= d < c :: d in s
    ensures s == Range(|s|)
  {
    forall c | c in s
      ensures c < |s|
    {
      BelowSize(s, c);
    }
    assert s <= Range(|s|);
    SubsetSize(s, Range(|s|));
    RangeSize(|s|);
    SameSizeSubset(s, Range(|s|));
  }

  /** A member of a downward closed set is below its size: 0..c all lie in it. */
  lemma BelowSize(s: set<nat>, c: nat)
    requires forall c | c in s :: forall d | 0 <= d < c :: d in s
    requires c in s
    ensures c < |s|
  {
    forall d | d in Range(c + 1)
      ensures d in s
    {
      if d < c {
      }
    }
    SubsetSize(Range(c + 1), s);
    RangeSize(c + 1);
  }

  lemma SubsetSize(a: set<nat>, b: set<nat>)
    requires a <= b
    ensures |a| <= |b|
  {
    assert b == a + (b - a);
  }

  lemma SameSizeSubset(a: set<nat>, b: set<nat>)
    requires a <= b && |a| == |b|
    ensures a == b
  {
    assert b == a + (b - a);
    assert |b - a| == 0;
  }

  /** `set(part_of)`. */
  function Values(classes: seq<nat>): set<nat> {
    set c | c in classes
  }

  /** The last lines of `solution_from_vertex_separation`: one empty part per distinct class,
      then each vertex is added to the part of its class. The classes must be downward
      closed, or `partition[part]` is out of range. */
  method PartitionByClass(classes: seq<nat>) returns (partition: seq<set<nat>>)
    requires forall v | 0 <= v < |classes| :: forall c | 0 <= c < classes[v] :: c in classes
    ensures |partition| == |Values(classes)|
    ensures forall v | 0 <= v < |classes| :: classes[v] < |partition|
    ensures forall p | 0 <= p < |partition| :: partition[p] == set v | 0 <= v < |classes| && classes[v] == p
    ensures forall p | 0 <= p < |partition| :: p in classes
  {
    var values := Values(classes);
    DownClosedRange(values);
    partition := seq(|values|, _ => {});
    var v := 0;
    while v < |classes|
      invariant 0 <= v <= |classes| && |partition| == |values|
      invariant forall p | 0 <= p < |partition| :: partition[p] == WithClass(classes, v, p)
    {
      var part := classes[v];
      assert part in values;
      ClassStep(classes, v, partition, partition[part := partition[part] + {v}], part);
      partition := partition[part := partition[part] + {v}];
      v := v + 1;
    }
    assert forall p | 0 <= p < |partition| :: p in values;
    assert forall u | 0 <= u < |classes| :: classes[u] in values;
  }

  /** The vertices below `v` with class `p`. */
  function WithClass(classes: seq<nat>, v: nat, p: nat): set<nat>
    requires v <= |classes|
  {
    set u | 0 <= u < v && classes[u] == p
  }

  lemma ClassStep(classes: seq<nat>, v: nat, partition: seq<set<nat>>, next: seq<set<nat>>, part: nat)
    requires v < |classes| && part == classes[v] && part < |partition|
    requires next == partition[part := partition[part] + {v}]
    requires forall p | 0 <= p < |partition| :: partition[p] == WithClass(classes, v, p)
    ensures forall p | 0 <= p < |next| :: next[p] == WithClass(classes, v + 1, p)
  {
    forall p | 0 <= p < |next|
      ensures next[p] == WithClass(classes, v + 1, p)
    {
      if p == part {
        assert WithClass(classes, v + 1, p) == WithClass(classes, v, p) + {v};
      } else {
        assert WithClass(classes, v + 1, p) == WithClass(classes, v, p);
      }
    }
  }

  // ---------------------------------------------------------------------------------------
  // solution_from_vertex_separation

  /** The `last_neighbors` list `_get_last_neighbors` returns. */
  ghost function LastSeq(g: Graph, layout: seq<nat>, noNeighbor: int): (last: seq<int>)
    ensures |last| == |layout| && LastNeighbors(g, layout, last, noNeighbor)
  {
    seq(|layout|, v requires 0 <= v => LastNeighborBefore(g, layout, v, |layout|, noNeighbor))
  }

  /** The classes of 0..|layout|-1, read off a solution. */
  function ClassesIn(layout: seq<nat>, s: Solution): (partOf: seq<Option<nat>>)
    ensures |partOf| == |layout| && forall v | 0 <= v < |layout| :: partOf[v] == s.PartOf(v)
  {
    seq(|layout|, v requires 0 <= v => s.PartOf(v))
  }

  /** The vertex at layout position `i` got its class by the rule, read off a solution. */
  ghost predicate SolutionFollowsRule(g: Graph, layout: seq<nat>, noNeighbor: int, s: Solution, i: nat)
    requires IsLayout(layout, |layout|) && i < |layout|
  {
    ClassRule(layout, LastSeq(g, layout, noNeighbor), noNeighbor, ClassesIn(layout, s), s.order, i)
  }

  /** What `solution_from_vertex_separation` returns: the order is a rearrangement of the
      layout listed by rank, every vertex is in exactly the part of its class, no part is
      empty (so the thinness is the number of distinct classes), and every vertex got its
      class by the rule. */
  ghost predicate SeparationSolution(g: Graph, layout: seq<nat>, noNeighbor: int, s: Solution)
    requires IsLayout(layout, |layout|)
  {
    var n := |layout|;
    multiset(s.order) == multiset(layout) &&
    Ranked(layout, LastSeq(g, layout, noNeighbor), noNeighbor, s.order) &&
    (forall v | 0 <= v < n :: s.PartOf(v).Some?) &&
    (forall p, v: nat | 0 <= p < |s.partition| :: v in s.partition[p] <==> v < n && s.PartOf(v) == Some(p)) &&
    (forall p | 0 <= p < |s.partition| :: s.partition[p] != {}) &&
    (forall i | 0 <= i < n :: SolutionFollowsRule(g, layout, noNeighbor, s, i))
  }

  /** `solution_from_vertex_separation(graph, linear_layout, vertex_separation)`, with the
      marker of `_get_last_neighbors` as a parameter: 0 in the source, negative in the
      corrected construction. The separation value is not used by the construction. With a
      negative marker the result passes `verify_solution`. */
  method SolutionFromVertexSeparation(g: Graph, layout: seq<nat>, separation: nat, noNeighbor: int) returns (s: Solution)
    requires Numbered(g) && g.Valid() && IsLayout(layout, g.Order()) && Marker(noNeighbor)
    ensures SeparationSolution(g, layout, noNeighbor, s)
    ensures noNeighbor < 0 ==> Consistent(g, s)
  {
    var n := g.Order();
    var last := GetLastNeighbors(g, layout, noNeighbor);
    var order := new Deque();
    var partOf := new Option<nat>[n](_ => None);
    var isActive := new bool[n](_ => false);
    ghost var lastNeighbors := last[..];
    Start(g, layout, lastNeighbors, noNeighbor, partOf[..], isActive[..]);
    var index := 0;
    while index < |layout|
      invariant 0 <= index <= n && partOf.Length == n && isActive.Length == n
      invariant last[..] == lastNeighbors
      invariant Progress(g, layout, lastNeighbors, noNeighbor, partOf[..], order.items, index)
      invariant Ranked(layout, lastNeighbors, noNeighbor, order.items)
      invariant Activity(layout, lastNeighbors, isActive[..], index, index)
    {
      Place(g, layout, last, noNeighbor, partOf, isActive, order, index);
      index := index + 1;
    }
    s := Collect(g, layout, last[..], noNeighbor, partOf[..], order.items);
    if noNeighbor < 0 {
      SeparationSolutionConsistent(g, layout, noNeighbor, s);
    }
  }

  /** Before the loop nothing is placed: no classes, no order, nobody active. */
  lemma Start(g: Graph, layout: seq<nat>, last: seq<int>, noNeighbor: int, partOf: seq<Option<nat>>, isActive: seq<bool>)
    requires IsLayout(layout, g.Order()) && LastNeighbors(g, layout, last, noNeighbor) && |last| == g.Order()
    requires |partOf| == g.Order() && forall v | 0 <= v < |partOf| :: partOf[v] == None
    requires |isActive| == g.Order() && forall v | 0 <= v < |isActive| :: !isActive[v]
    ensures Progress(g, layout, last, noNeighbor, partOf, [], 0)
    ensures Ranked(layout, last, noNeighbor, [])
    ensures Activity(layout, last, isActive, 0, 0)
  {
    assert layout[..0] == [];
  }

  /** The end of `solution_from_vertex_separation`: every vertex has a class; group the
      vertices by class into the partition and pair it with the order built. */
  method Collect(g: Graph, layout: seq<nat>, last: seq<int>, noNeighbor: int, partOf: seq<Option<nat>>, order: seq<nat>)
      returns (s: Solution)
    requires Progress(g, layout, last, noNeighbor, partOf, order, |layout|)
    requires Ranked(layout, last, noNeighbor, order)
    ensures SeparationSolution(g, layout, noNeighbor, s)
  {
    AllAssigned(g, layout, last, noNeighbor, partOf, order);
    var classes := Unwrap(partOf);
    ClassesDownClosed(g, layout, last, noNeighbor, partOf, order, classes);
    var partition := PartitionByClass(classes);
    s := Solution(order, partition);
    Finish(g, layout, last, noNeighbor, partOf, classes, s);
  }

  /** One pass of the loop of `solution_from_vertex_separation`: deactivate, then file the
      vertex at position `index` as active or inactive. */
  method Place(g: Graph, layout: seq<nat>, last: array<int>, noNeighbor: int, partOf: array<Option<nat>>, isActive: array<bool>,
               order: Deque, index: nat)
    requires Numbered(g) && g.Valid() && IsLayout(layout, g.Order()) && Marker(noNeighbor) && index < |layout|
    requires last.Length == g.Order() && partOf.Length == g.Order() && isActive.Length == g.Order()
    requires Progress(g, layout, last[..], noNeighbor, partOf[..], order.items, index)
    requires Ranked(layout, last[..], noNeighbor, order.items)
    requires Activity(layout, last[..], isActive[..], index, index)
    modifies partOf, isActive, order
    ensures Progress(g, layout, last[..], noNeighbor, partOf[..], order.items, index + 1)
    ensures Ranked(layout, last[..], noNeighbor, order.items)
    ensures Activity(layout, last[..], isActive[..], index + 1, index + 1)
  {
    var vertex := layout[index];
    ghost var activeBefore := isActive[..];
    Deactivate(g, vertex, index, last, isActive);
    DeactivationStep(g, layout, last[..], noNeighbor, activeBefore, isActive[..], index);
    if last[vertex] > index {
      PlaceActive(g, layout, last, noNeighbor, partOf, isActive, order, index);
    } else {
      PlaceInactive(g, layout, last, noNeighbor, partOf, isActive, order, index);
    }
  }

  /** An active vertex goes to the end of the order with the mex of the active classes. */
  method PlaceActive(g: Graph, layout: seq<nat>, last: array<int>, noNeighbor: int, partOf: array<Option<nat>>, isActive: array<bool>,
                     order: Deque, index: nat)
    requires IsLayout(layout, |layout|) && index < |layout|
    requires last.Length == |layout| && partOf.Length == |layout| && isActive.Length == |layout|
    requires Progress(g, layout, last[..], noNeighbor, partOf[..], order.items, index)
    requires Ranked(layout, last[..], noNeighbor, order.items)
    requires Activity(layout, last[..], isActive[..], index, index + 1) && index < last[layout[index]]
    modifies partOf, isActive, order
    ensures Progress(g, layout, last[..], noNeighbor, partOf[..], order.items, index + 1)
    ensures Ranked(layout, last[..], noNeighbor, order.items)
    ensures Activity(layout, last[..], isActive[..], index + 1, index + 1)
  {
    var vertex := layout[index];
    ghost var lastNeighbors, classOf, active, before := last[..], partOf[..], isActive[..], order.items;
    ActiveClassesAt(g, layout, lastNeighbors, noNeighbor, classOf, before, active, index);
    var m := Mex(ActiveClasses(isActive[..], partOf[..]));
    ActiveStep(g, layout, lastNeighbors, noNeighbor, classOf, before, active, index, m);
    RankedActive(g, layout, lastNeighbors, noNeighbor, before, index);
    order.Append(vertex);
    partOf[vertex] := Some(m);
    isActive[vertex] := true;
    assert partOf[..] == classOf[vertex := Some(m)];
    assert isActive[..] == active[vertex := true];
  }

  /** An inactive vertex goes to the head of the order with class 0 when its entry is the
      marker, and otherwise just in front of its last neighbour, in that neighbour's class. */
  method PlaceInactive(g: Graph, layout: seq<nat>, last: array<int>, noNeighbor: int, partOf: array<Option<nat>>, isActive: array<bool>,
                       order: Deque, index: nat)
    requires g.Valid() && IsLayout(layout, |layout|) && index < |layout|
    requires last.Length == |layout| && partOf.Length == |layout| && isActive.Length == |layout|
    requires Progress(g, layout, last[..], noNeighbor, partOf[..], order.items, index)
    requires Ranked(layout, last[..], noNeighbor, order.items)
    requires Activity(layout, last[..], isActive[..], index, index + 1) && last[layout[index]] <= index
    modifies partOf, order
    ensures Progress(g, layout, last[..], noNeighbor, partOf[..], order.items, index + 1)
    ensures Ranked(layout, last[..], noNeighbor, order.items)
    ensures Activity(layout, last[..], isActive[..], index + 1, index + 1)
  {
    var vertex := layout[index];
    ghost var lastNeighbors, classOf, active, before := last[..], partOf[..], isActive[..], order.items;
    var position := last[vertex];
    if position == noNeighbor {
      InactiveStep(g, layout, lastNeighbors, noNeighbor, classOf, before, active, index, 0);
      RankedHead(g, layout, lastNeighbors, noNeighbor, before, index);
      order.AppendLeft(vertex);
      partOf[vertex] := Some(0);
      assert partOf[..] == classOf[vertex := Some(0)];
    } else {
      LastNeighborEarlier(g, layout, lastNeighbors, noNeighbor, index);
      var lastNeighbor := layout[position];
      ProcessedInOrder(layout, before, index, position);
      var k := FirstIndex(before, lastNeighbor).value;
      InactiveStep(g, layout, lastNeighbors, noNeighbor, classOf, before, active, index, k);
      RankedBefore(g, layout, lastNeighbors, noNeighbor, before, index, k);
      var ok := InsertBefore(order, vertex, lastNeighbor);
      partOf[vertex] := partOf[lastNeighbor];
      assert partOf[..] == classOf[vertex := classOf[lastNeighbor]];
    }
  }

  /** The classes, once every vertex has one. */
  function Unwrap(classOf: seq<Option<nat>>): (r: seq<nat>)
    requires forall v | 0 <= v < |classOf| :: classOf[v].Some?
    ensures |r| == |classOf| && forall v | 0 <= v < |classOf| :: classOf[v] == Some(r[v])
  {
    seq(|classOf|, v requires 0 <= v < |classOf| => classOf[v].value)
  }

  /** An inactive vertex's last neighbour, when not at position 0, was met earlier: the
      graph has no loops, so it is not the vertex itself. */
  lemma LastNeighborEarlier(g: Graph, layout: seq<nat>, last: seq<int>, noNeighbor: int, t: nat)
    requires g.Valid() && IsLayout(layout, |layout|) && |last| == |layout| && LastNeighbors(g, layout, last, noNeighbor)
    requires t < |layout| && last[layout[t]] <= t && last[layout[t]] != noNeighbor
    ensures 0 <= last[layout[t]] < t
  {
    var v := layout[t];
    assert last[v] == LastNeighborBefore(g, layout, v, |layout|, noNeighbor);
    assert g.HasEdge(layout[last[v]], v);
  }

  lemma ProcessedInOrder(layout: seq<nat>, order: seq<nat>, t: nat, p: nat)
    requires p < t <= |layout| && multiset(order) == multiset(layout[..t])
    ensures layout[p] in order
  {
    assert layout[..t][p] == layout[p];
    assert layout[p] in multiset(layout[..t]);
  }

  lemma AllAssigned(g: Graph, layout: seq<nat>, last: seq<int>, noNeighbor: int, partOf: seq<Option<nat>>, order: seq<nat>)
    requires Progress(g, layout, last, noNeighbor, partOf, order, |layout|)
    ensures forall v | 0 <= v < |partOf| :: partOf[v].Some?
  {
    forall v | 0 <= v < |partOf|
      ensures partOf[v].Some?
    {
      var i := PositionOf(layout, v);
    }
  }

  lemma ClassesDownClosed(g: Graph, layout: seq<nat>, last: seq<int>, noNeighbor: int, partOf: seq<Option<nat>>, order: seq<nat>,
                          classes: seq<nat>)
    requires Progress(g, layout, last, noNeighbor, partOf, order, |layout|)
    requires |classes| == |partOf| && forall v | 0 <= v < |partOf| :: partOf[v] == Some(classes[v])
    ensures forall v | 0 <= v < |classes| :: forall c | 0 <= c < classes[v] :: c in classes
  {
    var n := |layout|;
    forall v, c | 0 <= v < n && 0 <= c < classes[v]
      ensures c in classes
    {
      var i := PositionOf(layout, v);
      assert classes[v] in ClassesOf(layout, partOf, n);
      assert c in ClassesOf(layout, partOf, n);
      var j :| 0 <= j < n && partOf[layout[j]] == Some(c);
      assert classes[layout[j]] == c;
    }
  }

  /** The finished loop and the partition built from its classes make up a solution of
      the promised kind. */
  lemma Finish(g: Graph, layout: seq<nat>, last: seq<int>, noNeighbor: int, partOf: seq<Option<nat>>, classes: seq<nat>, s: Solution)
    requires Progress(g, layout, last, noNeighbor, partOf, s.order, |layout|)
    requires |classes| == |partOf| && forall v | 0 <= v < |partOf| :: partOf[v] == Some(classes[v])
    requires forall v | 0 <= v < |classes| :: classes[v] < |s.partition|
    requires forall p | 0 <= p < |s.partition| :: s.partition[p] == set v | 0 <= v < |classes| && classes[v] == p
    requires forall p | 0 <= p < |s.partition| :: p in classes
    requires Ranked(layout, last, noNeighbor, s.order)
    ensures SeparationSolution(g, layout, noNeighbor, s)
  {
    var n := |layout|;
    PartsByClass(classes, s);
    assert layout[..n] == layout;
    SameClasses(layout, partOf, s);
    SameLast(g, layout, last, noNeighbor);
  }

  lemma SameClasses(layout: seq<nat>, partOf: seq<Option<nat>>, s: Solution)
    requires |partOf| == |layout| && forall v | 0 <= v < |layout| :: partOf[v] == s.PartOf(v)
    ensures ClassesIn(layout, s) == partOf
  {
  }

  lemma SameLast(g: Graph, layout: seq<nat>, last: seq<int>, noNeighbor: int)
    requires |last| == |layout| && LastNeighbors(g, layout, last, noNeighbor)
    ensures LastSeq(g, layout, noNeighbor) == last
  {
  }

  /** Parts that are the preimages of the classes: `part_of` gives back each vertex's class,
      and no part is empty. */
  lemma PartsByClass(classes: seq<nat>, s: Solution)
    requires forall v | 0 <= v < |classes| :: classes[v] < |s.partition|
    requires forall p | 0 <= p < |s.partition| :: s.partition[p] == set v | 0 <= v < |classes| && classes[v] == p
    requires forall p | 0 <= p < |s.partition| :: p in classes
    ensures forall v | 0 <= v < |classes| :: s.PartOf(v) == Some(classes[v])
    ensures forall p, v: nat | 0 <= p < |s.partition| :: v in s.partition[p] <==> v < |classes| && s.PartOf(v) == Some(p)
    ensures forall p | 0 <= p < |s.partition| :: s.partition[p] != {}
  {
    forall a, b | 0 <= a < b < |s.partition|
      ensures s.partition[a] !! s.partition[b]
    {
    }
    forall v | 0 <= v < |classes|
      ensures s.PartOf(v) == Some(classes[v])
    {
      PartOfDisjoint(s, v, classes[v]);
    }
    forall p | 0 <= p < |s.partition|
      ensures s.partition[p] != {}
    {
      assert p in classes;
      var v :| 0 <= v < |classes| && classes[v] == p;
      assert v in s.partition[p];
    }
  }

  // ---------------------------------------------------------------------------------------
  // Consistency

  /** The anchor of a vertex whose entry is not the marker: the vertex itself when it is
      active, else its last neighbour, which comes earlier, is active and shares its class.
      The rank is 2a + 1 or 2a for anchor a. */
  lemma Anchor(g: Graph, layout: seq<nat>, noNeighbor: int, s: Solution, p: nat) returns (a: nat)
    requires g.Valid() && IsLayout(layout, |layout|) && SeparationSolution(g, layout, noNeighbor, s) && p < |layout|
    requires LastSeq(g, layout, noNeighbor)[layout[p]] != noNeighbor
    ensures a <= p && a < LastSeq(g, layout, noNeighbor)[layout[a]]
    ensures a == p <==> p < LastSeq(g, layout, noNeighbor)[layout[p]]
    ensures s.PartOf(layout[a]) == s.PartOf(layout[p])
    ensures Rank(layout, LastSeq(g, layout, noNeighbor), noNeighbor, p) == if a == p then 2 * p + 1 else 2 * a
    ensures a < p ==> LastSeq(g, layout, noNeighbor)[layout[p]] == a && g.HasEdge(layout[a], layout[p])
  {
    var last := LastSeq(g, layout, noNeighbor);
    var v := layout[p];
    if p < last[v] {
      a := p;
    } else {
      LastNeighborEarlier(g, layout, last, noNeighbor, p);
      a := last[v];
      assert SolutionFollowsRule(g, layout, noNeighbor, s, p);
      assert last[v] == LastNeighborBefore(g, layout, v, |layout|, noNeighbor);
      assert g.HasEdge(layout[a], layout[p]);
      NeighborBound(g, layout, last, noNeighbor, a, p);
    }
  }

  /** Two active vertices in one class: the later one, at b, took the mex of the classes
      active when it arrived, so the earlier one was no longer active at b. */
  lemma SameClassAnchors(g: Graph, layout: seq<nat>, noNeighbor: int, s: Solution, a: nat, b: nat)
    requires IsLayout(layout, |layout|) && SeparationSolution(g, layout, noNeighbor, s)
    requires a < b < |layout| && b < LastSeq(g, layout, noNeighbor)[layout[b]]
    requires s.PartOf(layout[a]) == s.PartOf(layout[b])
    ensures LastSeq(g, layout, noNeighbor)[layout[a]] <= b
  {
    var last, partOf := LastSeq(g, layout, noNeighbor), ClassesIn(layout, s);
    assert SolutionFollowsRule(g, layout, noNeighbor, s, b);
    assert forall j | 0 <= j < b && b < last[layout[j]] && partOf[layout[j]].Some? ::
      partOf[layout[j]].value in ActiveAt(layout, last, partOf, b);
  }

  /** Given vertices x, y, z at layout positions px, py, pz, ranked in this order, with x and
      y in one class and x adjacent to z: the anchor ay of y is at pz or later. When x
      and y share an anchor, x is not active (else y would be x) and its last neighbour,
      at or after z, is that anchor. Otherwise the anchors are two active vertices in one
      class, so x's anchor stopped being active by ay, and x's neighbours lie no later. */
  lemma ReachBound(g: Graph, layout: seq<nat>, noNeighbor: int, s: Solution, px: nat, py: nat, pz: nat) returns (ay: nat)
    requires g.Valid() && IsLayout(layout, |layout|) && noNeighbor < 0 && SeparationSolution(g, layout, noNeighbor, s)
    requires px < |layout| && py < |layout| && pz < |layout| && px != py
    requires Rank(layout, LastSeq(g, layout, noNeighbor), noNeighbor, px) <= Rank(layout, LastSeq(g, layout, noNeighbor), noNeighbor, py)
    requires s.PartOf(layout[px]) == s.PartOf(layout[py]) && g.HasEdge(layout[px], layout[pz])
    ensures ay <= py && (ay == py <==> py < LastSeq(g, layout, noNeighbor)[layout[py]])
    ensures Rank(layout, LastSeq(g, layout, noNeighbor), noNeighbor, py) == if ay == py then 2 * py + 1 else 2 * ay
    ensures ay < py ==> g.HasEdge(layout[ay], layout[py])
    ensures pz <= ay
  {
    var last := LastSeq(g, layout, noNeighbor);
    NeighborBound(g, layout, last, noNeighbor, px, pz);
    var ax := Anchor(g, layout, noNeighbor, s, px);
    RankBounds(g, layout, last, noNeighbor, py);
    ay := Anchor(g, layout, noNeighbor, s, py);
    assert ax <= ay;
    if ax < ay {
      SameClassAnchors(g, layout, noNeighbor, s, ax, ay);
    }
  }

  /** The same at layout positions: z, ranked at or after y, sits at y's anchor, so y is z's
      neighbour or z itself. */
  lemma NoViolationAt(g: Graph, layout: seq<nat>, noNeighbor: int, s: Solution, px: nat, py: nat, pz: nat)
    requires g.Valid() && IsLayout(layout, |layout|) && noNeighbor < 0 && SeparationSolution(g, layout, noNeighbor, s)
    requires px < |layout| && py < |layout| && pz < |layout| && px != py && py != pz
    requires Rank(layout, LastSeq(g, layout, noNeighbor), noNeighbor, px) <= Rank(layout, LastSeq(g, layout, noNeighbor), noNeighbor, py)
    requires Rank(layout, LastSeq(g, layout, noNeighbor), noNeighbor, py) <= Rank(layout, LastSeq(g, layout, noNeighbor), noNeighbor, pz)
    requires s.PartOf(layout[px]) == s.PartOf(layout[py]) && g.HasEdge(layout[px], layout[pz])
    ensures g.HasEdge(layout[py], layout[pz])
  {
    var last := LastSeq(g, layout, noNeighbor);
    var ay := ReachBound(g, layout, noNeighbor, s, px, py, pz);
    NeighborBound(g, layout, last, noNeighbor, pz, px);
    var az := Anchor(g, layout, noNeighbor, s, pz);
    assert pz == ay;
  }

  /** No triple at order indices i < j < k breaks consistency. */
  lemma NoViolation(g: Graph, layout: seq<nat>, noNeighbor: int, s: Solution, i: nat, j: nat, k: nat)
    requires g.Valid() && IsLayout(layout, |layout|) && noNeighbor < 0 && SeparationSolution(g, layout, noNeighbor, s)
    requires Distinct(s.order) && i < j < k < |s.order|
    ensures !Violates(g, s, s.order[i], s.order[j], s.order[k])
  {
    var x, y, z := s.order[i], s.order[j], s.order[k];
    if SameClass(s, x, y) && g.HasEdge(x, z) {
      assert layout[..|layout|] == layout;
      InPrefix(layout, s.order, |layout|, i);
      InPrefix(layout, s.order, |layout|, j);
      InPrefix(layout, s.order, |layout|, k);
      NoViolationAt(g, layout, noNeighbor, s, Pos(layout, x), Pos(layout, y), Pos(layout, z));
    }
  }

  /** With a negative marker the construction is consistent: `verify_solution` accepts
      every solution it returns. */
  lemma SeparationSolutionConsistent(g: Graph, layout: seq<nat>, noNeighbor: int, s: Solution)
    requires g.Valid() && IsLayout(layout, g.Order()) && noNeighbor < 0
    requires SeparationSolution(g, layout, noNeighbor, s)
    ensures Consistent(g, s)
  {
    DistinctPermutation(layout, s.order);
    assert |s.order| == |multiset(s.order)| == |layout|;
    forall i, j, k | 0 <= i < j < k < |s.order|
      ensures !Violates(g, s, s.order[i], s.order[j], s.order[k])
    {
      NoViolation(g, layout, noNeighbor, s, i, j, k);
    }
  }

  /** In a ranked order a vertex of lower rank comes first. */
  lemma RankOrder(layout: seq<nat>, last: seq<int>, noNeighbor: int, order: seq<nat>, a: nat, b: nat)
    requires IsLayout(layout, |layout|) && |last| == |layout| && Ranked(layout, last, noNeighbor, order)
    requires a < |order| && b < |order| && order[a] < |layout| && order[b] < |layout|
    requires Rank(layout, last, noNeighbor, Pos(layout, order[a])) < Rank(layout, last, noNeighbor, Pos(layout, order[b]))
    ensures a < b
  {
  }

  /** The entries behind the counterexample below: the vertex at position r has its only
      neighbour at position 0 and the one at q has none, so both entries read 0. */
  lemma ZeroEntries(g: Graph, layout: seq<nat>, q: nat, r: nat)
    requires IsLayout(layout, |layout|) && q < r < |layout| && g.HasEdge(layout[0], layout[r])
    requires forall i | 0 < i < |layout| :: !g.HasEdge(layout[i], layout[r])
    requires forall i | 0 <= i < |layout| :: !g.HasEdge(layout[i], layout[q])
    ensures LastSeq(g, layout, 0)[layout[r]] == 0 && LastSeq(g, layout, 0)[layout[q]] == 0
    ensures r <= LastSeq(g, layout, 0)[layout[0]]
    ensures Rank(layout, LastSeq(g, layout, 0), 0, r) < Rank(layout, LastSeq(g, layout, 0), 0, q)
    ensures 0 < q ==> Rank(layout, LastSeq(g, layout, 0), 0, q) < Rank(layout, LastSeq(g, layout, 0), 0, 0)
  {
    var last := LastSeq(g, layout, 0);
    assert last[layout[r]] == LastNeighborBefore(g, layout, layout[r], |layout|, 0);
    assert last[layout[q]] == LastNeighborBefore(g, layout, layout[q], |layout|, 0);
    NeighborBound(g, layout, last, 0, 0, r);
  }

  /** Where a vertex of the layout sits in a solution's order. */
  lemma OrderIndex(layout: seq<nat>, s: Solution, v: nat) returns (a: nat)
    requires multiset(s.order) == multiset(layout) && v in layout
    ensures a < |s.order| && s.order[a] == v
  {
    assert v in multiset(s.order);
    a :| 0 <= a < |s.order| && s.order[a] == v;
  }

  /** In the counterexample below all three vertices are in class 0. */
  lemma ZeroClasses(g: Graph, layout: seq<nat>, s: Solution, q: nat, r: nat)
    requires IsLayout(layout, |layout|) && SeparationSolution(g, layout, 0, s)
    requires q < |layout| && 0 < r < |layout|
    requires LastSeq(g, layout, 0)[layout[r]] == 0 && LastSeq(g, layout, 0)[layout[q]] == 0
    requires r <= LastSeq(g, layout, 0)[layout[0]]
    ensures s.PartOf(layout[0]) == s.PartOf(layout[q]) == s.PartOf(layout[r]) == Some(0)
  {
    assert SolutionFollowsRule(g, layout, 0, s, 0);
    assert SolutionFollowsRule(g, layout, 0, s, q);
    assert SolutionFollowsRule(g, layout, 0, s, r);
    assert ActiveAt(layout, LastSeq(g, layout, 0), ClassesIn(layout, s), 0) == {};
    assert 0 !in ActiveAt(layout, LastSeq(g, layout, 0), ClassesIn(layout, s), 0);
  }

  /** The marker 0 of the source breaks consistency. Say the vertex at layout position 0 is
      the only neighbour of the vertex at position r, and the vertex at a position q with
      0 < q < r has no neighbour. Both entries read 0, the marker, so both go to the head
      in class 0, the later one first; the vertex at position 0 is active, takes class 0
      and ends up after them. The first of the three is adjacent to the last, the second
      is not. One edge 0–1 laid out as [0, 2, 1] is such a case. */
  lemma AsWrittenInconsistent(g: Graph, layout: seq<nat>, s: Solution, q: nat, r: nat)
    requires g.Valid() && IsLayout(layout, |layout|) && SeparationSolution(g, layout, 0, s)
    requires 0 < q < r < |layout| && g.HasEdge(layout[0], layout[r])
    requires forall i | 0 < i < |layout| :: !g.HasEdge(layout[i], layout[r])
    requires forall i | 0 <= i < |layout| :: !g.HasEdge(layout[i], layout[q])
    ensures !Consistent(g, s)
  {
    var last := LastSeq(g, layout, 0);
    var u, v, w := layout[0], layout[q], layout[r];
    ZeroEntries(g, layout, q, r);
    ZeroClasses(g, layout, s, q, r);
    PosOf(layout, 0);
    PosOf(layout, q);
    PosOf(layout, r);
    var au := OrderIndex(layout, s, u);
    var av := OrderIndex(layout, s, v);
    var aw := OrderIndex(layout, s, w);
    RankOrder(layout, last, 0, s.order, aw, av);
    RankOrder(layout, last, 0, s.order, av, au);
    assert g.HasEdge(w, u) && !g.HasEdge(v, u);
    assert Violates(g, s, s.order[aw], s.order[av], s.order[au]);
  }

  // ---------------------------------------------------------------------------------------
  // The thinness on the test graphs

  /** The thinness of a solution read off the construction is the number of classes used:
      with every class below m and class m - 1 in use, it is m. */
  lemma ThinnessFromClasses(g: Graph, layout: seq<nat>, noNeighbor: int, s: Solution, m: nat)
    requires IsLayout(layout, |layout|) && SeparationSolution(g, layout, noNeighbor, s)
    requires forall v | 0 <= v < |layout| :: s.PartOf(v).value < m
    requires 0 < m && exists v | 0 <= v < |layout| :: s.PartOf(v) == Some(m - 1)
    ensures s.Thinness() == m
  {
    if 0 < |s.partition| {
      var p := |s.partition| - 1;
      var v :| v in s.partition[p];
      assert s.PartOf(v) == Some(p);
    }
  }

  /** An active vertex's class is the one value c missing from the classes active when it
      arrived while every smaller value is there. */
  lemma MexClass(g: Graph, layout: seq<nat>, noNeighbor: int, s: Solution, i: nat, c: nat)
    requires IsLayout(layout, |layout|) && i < |layout| && SolutionFollowsRule(g, layout, noNeighbor, s, i)
    requires i < LastSeq(g, layout, noNeighbor)[layout[i]]
    requires c !in ActiveAt(layout, LastSeq(g, layout, noNeighbor), ClassesIn(layout, s), i)
    requires forall d | 0 <= d < c :: d in ActiveAt(layout, LastSeq(g, layout, noNeighbor), ClassesIn(layout, s), i)
    ensures s.PartOf(layout[i]) == Some(c)
  {
    var active := ActiveAt(layout, LastSeq(g, layout, noNeighbor), ClassesIn(layout, s), i);
    var v := s.PartOf(layout[i]).value;
    assert v < c ==> v in active;
    assert c < v ==> c in active;
  }

  /** A vertex that is not active takes class 0 on the marker and otherwise its last
      neighbour's class. */
  lemma InactiveClass(g: Graph, layout: seq<nat>, noNeighbor: int, s: Solution, i: nat)
    requires IsLayout(layout, |layout|) && i < |layout| && SolutionFollowsRule(g, layout, noNeighbor, s, i)
    requires LastSeq(g, layout, noNeighbor)[layout[i]] <= i
    ensures LastSeq(g, layout, noNeighbor)[layout[i]] == noNeighbor ==> s.PartOf(layout[i]) == Some(0)
    ensures LastSeq(g, layout, noNeighbor)[layout[i]] != noNeighbor ==>
      0 <= LastSeq(g, layout, noNeighbor)[layout[i]] < i &&
      s.PartOf(layout[i]) == s.PartOf(layout[LastSeq(g, layout, noNeighbor)[layout[i]]])
  {
  }

  /** A star centred at the first vertex of the layout: it is adjacent to every other
      vertex, and no two others are adjacent. */
  predicate StarFromFirst(g: Graph, layout: seq<nat>)
    requires 0 < |layout|
  {
    (forall i | 0 < i < |layout| :: g.HasEdge(layout[0], layout[i])) &&
    (forall i, j | 0 < i < |layout| && 0 < j < |layout| :: !g.HasEdge(layout[i], layout[j]))
  }

  /** In a star laid out from its centre, the centre's last neighbour is the last vertex
      (none when it is alone), and every other vertex's is the centre, at position 0. */
  lemma StarLast(g: Graph, layout: seq<nat>, noNeighbor: int)
    requires g.Valid() && IsLayout(layout, |layout|) && 0 < |layout| && StarFromFirst(g, layout)
    ensures LastSeq(g, layout, noNeighbor)[layout[0]] == if |layout| == 1 then noNeighbor else |layout| - 1
    ensures forall i | 0 < i < |layout| :: LastSeq(g, layout, noNeighbor)[layout[i]] == 0
  {
    var n, last := |layout|, LastSeq(g, layout, noNeighbor);
    assert last[layout[0]] == LastNeighborBefore(g, layout, layout[0], n, noNeighbor);
    assert !g.HasEdge(layout[0], layout[0]);
    forall i | 0 < i < n
      ensures last[layout[i]] == 0
    {
      assert last[layout[i]] == LastNeighborBefore(g, layout, layout[i], n, noNeighbor);
    }
  }

  /** A star laid out from its centre gets thinness 1, whatever the marker: the centre is
      active (or, alone, has no neighbour) and takes class 0, and every other vertex has its
      only neighbour at position 0, which puts it in class 0 whether the entry is read as
      the marker or as the centre. A single vertex, K2 and the star 0–1, 0–2 laid out
      from 0 are such stars. */
  lemma StarThinness(g: Graph, layout: seq<nat>, noNeighbor: int, s: Solution)
    requires g.Valid() && IsLayout(layout, |layout|) && 0 < |layout| && Marker(noNeighbor)
    requires StarFromFirst(g, layout) && SeparationSolution(g, layout, noNeighbor, s)
    ensures s.Thinness() == 1
  {
    var n, last, partOf := |layout|, LastSeq(g, layout, noNeighbor), ClassesIn(layout, s);
    StarLast(g, layout, noNeighbor);
    if n == 1 {
      InactiveClass(g, layout, noNeighbor, s, 0);
    } else {
      MexClass(g, layout, noNeighbor, s, 0, 0);
    }
    forall i | 0 < i < n
      ensures s.PartOf(layout[i]) == Some(0)
    {
      InactiveClass(g, layout, noNeighbor, s, i);
    }
    forall v | 0 <= v < n
      ensures s.PartOf(v) == Some(0)
    {
      var i := PositionOf(layout, v);
    }
    ThinnessFromClasses(g, layout, noNeighbor, s, 1);
  }

  /** Every two vertices of the layout are adjacent. */
  predicate CompleteLayout(g: Graph, layout: seq<nat>) {
    forall i, j | 0 <= i < |layout| && 0 <= j < |layout| && i != j :: g.HasEdge(layout[i], layout[j])
  }

  /** In a complete graph every vertex but the last sees the last one; the last sees the
      one before it. */
  lemma CompleteLast(g: Graph, layout: seq<nat>, noNeighbor: int)
    requires g.Valid() && IsLayout(layout, |layout|) && 2 <= |layout| && CompleteLayout(g, layout)
    ensures forall i | 0 <= i < |layout| - 1 :: LastSeq(g, layout, noNeighbor)[layout[i]] == |layout| - 1
    ensures LastSeq(g, layout, noNeighbor)[layout[|layout| - 1]] == |layout| - 2
  {
    var n, last := |layout|, LastSeq(g, layout, noNeighbor);
    forall i | 0 <= i < n - 1
      ensures last[layout[i]] == n - 1
    {
      assert last[layout[i]] == LastNeighborBefore(g, layout, layout[i], n, noNeighbor);
      assert g.HasEdge(layout[n - 1], layout[i]);
    }
    var w := layout[n - 1];
    assert last[w] == LastNeighborBefore(g, layout, w, n, noNeighbor);
    assert g.HasEdge(layout[n - 2], w);
    assert !g.HasEdge(w, w);
  }

  /** When the vertices before position i hold classes 0..i-1 and are all still active at
      i, the classes active at i are exactly 0..i-1. */
  lemma ActiveAtPrefix(layout: seq<nat>, last: seq<int>, partOf: seq<Option<nat>>, i: nat)
    requires Shape(layout, last, partOf) && i < |layout|
    requires forall j | 0 <= j < i :: partOf[layout[j]] == Some(j) && i < last[layout[j]]
    ensures forall c: nat :: c in ActiveAt(layout, last, partOf, i) <==> c < i
  {
    forall c: nat
      ensures c in ActiveAt(layout, last, partOf, i) <==> c < i
    {
      if c < i {
        assert partOf[layout[c]] == Some(c);
      }
    }
  }

  /** In a complete graph the vertices up to the second last are all active when they
      arrive and see every earlier one still active, so the one at position i takes class
      i. */
  lemma {:induction false} CompleteClasses(g: Graph, layout: seq<nat>, noNeighbor: int, s: Solution, i: nat)
    requires g.Valid() && IsLayout(layout, |layout|) && 2 <= |layout| && CompleteLayout(g, layout)
    requires SeparationSolution(g, layout, noNeighbor, s) && i < |layout| - 1
    ensures s.PartOf(layout[i]) == Some(i)
    decreases i
  {
    CompleteLast(g, layout, noNeighbor);
    forall j | 0 <= j < i
      ensures s.PartOf(layout[j]) == Some(j)
    {
      CompleteClasses(g, layout, noNeighbor, s, j);
    }
    ActiveAtPrefix(layout, LastSeq(g, layout, noNeighbor), ClassesIn(layout, s), i);
    MexClass(g, layout, noNeighbor, s, i, i);
  }

  /** A complete graph on n >= 2 vertices gets thinness n - 1, whatever the layout and the
      marker: the last vertex joins the class of the one before it. K2 gives 1, K3 gives 2. */
  lemma CompleteThinness(g: Graph, layout: seq<nat>, noNeighbor: int, s: Solution)
    requires g.Valid() && IsLayout(layout, |layout|) && 2 <= |layout| && Marker(noNeighbor)
    requires CompleteLayout(g, layout) && SeparationSolution(g, layout, noNeighbor, s)
    ensures s.Thinness() == |layout| - 1
  {
    var n := |layout|;
    CompleteLast(g, layout, noNeighbor);
    CompleteClasses(g, layout, noNeighbor, s, n - 2);
    InactiveClass(g, layout, noNeighbor, s, n - 1);
    assert s.PartOf(layout[n - 1]) == Some(n - 2);
    forall v | 0 <= v < n
      ensures s.PartOf(v).value < n - 1
    {
      var i := PositionOf(layout, v);
      if i < n - 1 {
        CompleteClasses(g, layout, noNeighbor, s, i);
      }
    }
    ThinnessFromClasses(g, layout, noNeighbor, s, n - 1);
  }
}
