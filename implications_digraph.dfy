/** The implication digraph of thinness/implications_digraph.py. Its vertices are the
    ordered pairs (u, v) of distinct vertices, read "u comes before v in the order"; an
    arc (a, b) says that a consistent order satisfying a must satisfy b as well. A
    strongly connected component holding both (u, v) and (v, u) ("self-coupled") rules
    out every consistent order for the given colouring. */
module ImplicationsDigraph {
  import opened Graphs
  import opened Wrappers
  import opened Itertools
  import opened ConsistentSolution
  import opened Compatibility
  import opened Verify

  /** A vertex of the implication digraph: the ordered pair (u, v). */
  type Pair = (nat, nat)

  /** A Sage `DiGraph` without loops or multiple arcs, as a value. */
  datatype Digraph = Digraph(vertices: set<Pair>, arcs: set<(Pair, Pair)>)

  /** The digraph object the `add_type_*` functions extend in place. */
  class MutableDigraph {
    var vertices: set<Pair>
    var arcs: set<(Pair, Pair)>

    function Value(): Digraph
      reads this
    {
      Digraph(vertices, arcs)
    }

    /** `DiGraph()`: no vertices and no arcs. */
    constructor ()
      ensures vertices == {} && arcs == {}
    {
      vertices := {};
      arcs := {};
    }

    /** `add_vertices(vs)`. */
    method AddVertices(vs: set<Pair>)
      modifies this
      ensures vertices == old(vertices) + vs && arcs == old(arcs)
    {
      vertices := vertices + vs;
    }

    /** `add_edge(a, b)`: the ends become vertices when missing. A loop would raise in a
        digraph built without loops, so callers pass distinct ends. */
    method AddArc(a: Pair, b: Pair)
      requires a != b
      modifies this
      ensures vertices == old(vertices) + {a, b} && arcs == old(arcs) + {(a, b)}
    {
      vertices := vertices + {a, b};
      arcs := arcs + {(a, b)};
    }
  }

  // ---------------------------------------------------------------------------------
  // partition_to_colors

  /** The dictionary `partition_to_colors` builds. */
  function ColorsOf(partition: seq<set<nat>>): map<nat, nat> {
    if |partition| == 0 then map[]
    else
      var n := |partition| - 1;
      ColorsOf(partition[..n]) + Painted(partition[n], n)
  }

  /** A vertex gets a colour exactly when some part holds it, and its colour is the index
      of the LAST part holding it: a later part overwrites an earlier one. */
  lemma {:induction false} ColorsOfMeaning(partition: seq<set<nat>>, v: nat)
    ensures v in ColorsOf(partition) <==> exists i | 0 <= i < |partition| :: v in partition[i]
    ensures v in ColorsOf(partition) ==>
              ColorsOf(partition)[v] < |partition| && v in partition[ColorsOf(partition)[v]] &&
              forall j | ColorsOf(partition)[v] < j < |partition| :: v !in partition[j]
    decreases |partition|
  {
    if |partition| > 0 {
      var n := |partition| - 1;
      var front := partition[..n];
      ColorsOfMeaning(front, v);
      assert forall i | 0 <= i < n :: front[i] == partition[i];
      if v !in partition[n] {
        assert (exists i | 0 <= i < |partition| :: v in partition[i]) ==> exists i | 0 <= i < n :: v in front[i];
      }
    }
  }

  /** `partition_to_colors(partition)`: part by part, each vertex of part i is set to i. */
  method PartitionToColors(partition: seq<set<nat>>) returns (colors: map<nat, nat>)
    ensures colors == ColorsOf(partition)
  {
    colors := map[];
    for i := 0 to |partition|
      invariant colors == ColorsOf(partition[..i])
    {
      var rest := partition[i];
      ghost var base: map<nat, nat>, done: set<nat> := colors, {};
      while rest != {}
        invariant rest + done == partition[i] && rest !! done
        invariant colors == base + Painted(done, i)
        decreases |rest|
      {
        var vertex :| vertex in rest;
        OverwriteStep(base, done, vertex, i);
        colors := colors[vertex := i];
        MoveOne(rest, done, vertex);
        rest := rest - {vertex};
        done := done + {vertex};
      }
      ColorsOfPrefix(partition, i);
    }
    assert partition[..|partition|] == partition;
  }

  /** The vertices of `vs` painted with colour i. */
  function Painted(vs: set<nat>, i: nat): map<nat, nat> {
    map v | v in vs :: i
  }

  lemma OverwriteStep(m: map<nat, nat>, done: set<nat>, x: nat, i: nat)
    ensures (m + Painted(done, i))[x := i] == m + Painted(done + {x}, i)
  {
  }

  lemma ColorsOfPrefix(partition: seq<set<nat>>, i: nat)
    requires i < |partition|
    ensures ColorsOf(partition[..i + 1]) == ColorsOf(partition[..i]) + Painted(partition[i], i)
  {
    assert partition[..i + 1][..i] == partition[..i];
  }

  /** For disjoint parts, as `SetPartitions` yields them, a vertex's colour is exactly the
      index of its part. */
  lemma DisjointColors(partition: seq<set<nat>>, v: nat, i: nat)
    requires forall a, b | 0 <= a < b < |partition| :: partition[a] !! partition[b]
    requires i < |partition| && v in partition[i]
    ensures v in ColorsOf(partition) && ColorsOf(partition)[v] == i
  {
    ColorsOfMeaning(partition, v);
  }

  // ---------------------------------------------------------------------------------
  // get_implications_digraph, add_type_one_implications, add_type_two_implications

  /** Moving one element from the sets still to visit to those visited keeps them a
      split of the same set. */
  lemma MoveOne<T>(rest: set<T>, done: set<T>, x: T)
    requires x in rest && rest !! done
    ensures (rest - {x}) + (done + {x}) == rest + done && (rest - {x}) !! (done + {x})
    ensures |rest - {x}| < |rest|
  {
  }

  /** `permutations(graph.vertices(), 2)` as a set: the ordered pairs of distinct vertices. */
  function DistinctPairs(g: Graph): (ps: set<Pair>)
    ensures forall u: nat, v: nat :: (u, v) in ps <==> u in g.vertices && v in g.vertices && u != v
  {
    set u, v | u in g.vertices && v in g.vertices && u != v :: (u, v)
  }

  /** A type-one implication (u, v) -> (w, v): u and v have the same colour, w is a
      neighbour of u, and w is neither v nor a neighbour of v. */
  predicate TypeOneArc(g: Graph, colors: map<nat, nat>, a: Pair, b: Pair) {
    a.0 in g.vertices && a.1 in g.vertices && a.0 != a.1 &&
    a.0 in colors && a.1 in colors && colors[a.0] == colors[a.1] &&
    b.1 == a.1 && b.0 in g.vertices && g.HasEdge(a.0, b.0) &&
    !g.HasEdge(a.1, b.0) && a.1 != b.0
  }

  /** A type-two implication (u, v) -> (u, w): u and v are not adjacent, w is a neighbour
      of v, and u and w have the same colour. */
  predicate TypeTwoArc(g: Graph, colors: map<nat, nat>, a: Pair, b: Pair) {
    a.0 in g.vertices && a.1 in g.vertices && a.0 != a.1 && !g.HasEdge(a.0, a.1) &&
    b.0 == a.0 && b.1 in g.vertices && g.HasEdge(a.1, b.1) &&
    a.0 in colors && b.1 in colors && colors[a.0] == colors[b.1]
  }

  /** The lookups `colors[u]` and `colors[v]` of the type-one loop succeed for `ps`. */
  predicate TypeOneKeys(colors: map<nat, nat>, ps: set<Pair>) {
    forall a | a in ps :: a.0 in colors && a.1 in colors
  }

  /** The lookups `colors[u]` and `colors[w]` of the type-two loop succeed for `ps`: they
      are made for each non-adjacent pair (u, v) and each neighbour w of v. */
  predicate TypeTwoKeys(g: Graph, colors: map<nat, nat>, ps: set<Pair>) {
    forall a, w | a in ps && !g.HasEdge(a.0, a.1) && w in g.vertices && g.HasEdge(a.1, w) ::
      a.0 in colors && w in colors
  }

  /** `d` is the digraph `get_implications_digraph(graph, colors)` returns: the ordered
      pairs of distinct vertices, joined by the type-one and the type-two implications. */
  ghost predicate IsImplicationDigraph(g: Graph, colors: map<nat, nat>, d: Digraph) {
    d.vertices == DistinctPairs(g) &&
    forall a, b :: (a, b) in d.arcs <==> TypeOneArc(g, colors, a, b) || TypeTwoArc(g, colors, a, b)
  }

  /** From (`oldVertices`, `oldArcs`) to (`vertices`, `arcs`) the digraph only gained
      vertices, all of them ordered pairs of distinct vertices, and every arc it gained
      joins two of its vertices. */
  ghost predicate GrewWithin(g: Graph, oldVertices: set<Pair>, oldArcs: set<(Pair, Pair)>,
                             vertices: set<Pair>, arcs: set<(Pair, Pair)>) {
    oldVertices <= vertices <= oldVertices + DistinctPairs(g) &&
    forall a, b | (a, b) in arcs && (a, b) !in oldArcs :: a in vertices && b in vertices
  }

  lemma GrewStep(g: Graph, oldVertices: set<Pair>, oldArcs: set<(Pair, Pair)>,
                 vertices: set<Pair>, arcs: set<(Pair, Pair)>, a: Pair, b: Pair)
    requires GrewWithin(g, oldVertices, oldArcs, vertices, arcs)
    requires a in DistinctPairs(g) && b in DistinctPairs(g)
    ensures GrewWithin(g, oldVertices, oldArcs, vertices + {a, b}, arcs + {(a, b)})
  {
  }

  lemma GrewTransitive(g: Graph, v0: set<Pair>, a0: set<(Pair, Pair)>, v1: set<Pair>, a1: set<(Pair, Pair)>,
                       v2: set<Pair>, a2: set<(Pair, Pair)>)
    requires GrewWithin(g, v0, a0, v1, a1) && GrewWithin(g, v1, a1, v2, a2)
    ensures GrewWithin(g, v0, a0, v2, a2)
  {
  }

  /** `arcs` is `base` plus the type-one arcs from (u, v) to the pairs (w, v), w in `ws`. */
  ghost predicate OneArcsFrom(g: Graph, colors: map<nat, nat>, base: set<(Pair, Pair)>, arcs: set<(Pair, Pair)>,
                              u: nat, v: nat, ws: set<nat>) {
    forall a, b :: (a, b) in arcs <==> (a, b) in base || (a == (u, v) && b.0 in ws && TypeOneArc(g, colors, a, b))
  }

  lemma OneArcsStep(g: Graph, colors: map<nat, nat>, base: set<(Pair, Pair)>, arcs: set<(Pair, Pair)>,
                    u: nat, v: nat, ws: set<nat>, w: nat)
    requires OneArcsFrom(g, colors, base, arcs, u, v, ws)
    requires (u, v) in DistinctPairs(g) && u in colors && v in colors && colors[u] == colors[v]
    requires w in g.Neighbors(u)
    ensures OneArcsFrom(g, colors, base, arcs + (if !g.HasEdge(v, w) && v != w then {((u, v), (w, v))} else {}),
                        u, v, ws + {w})
  {
  }

  lemma OneArcsAll(g: Graph, colors: map<nat, nat>, base: set<(Pair, Pair)>, arcs: set<(Pair, Pair)>, u: nat, v: nat)
    requires OneArcsFrom(g, colors, base, arcs, u, v, g.Neighbors(u))
    ensures OneArcsFrom(g, colors, base, arcs, u, v, g.vertices)
  {
  }

  /** `arcs` is `base` plus the type-one arcs leaving the pairs of `ps`. */
  ghost predicate OneArcsOfPairs(g: Graph, colors: map<nat, nat>, base: set<(Pair, Pair)>, arcs: set<(Pair, Pair)>,
                                 ps: set<Pair>) {
    forall a, b :: (a, b) in arcs <==> (a, b) in base || (a in ps && TypeOneArc(g, colors, a, b))
  }

  lemma OnePairsStep(g: Graph, colors: map<nat, nat>, base: set<(Pair, Pair)>, middle: set<(Pair, Pair)>,
                     arcs: set<(Pair, Pair)>, ps: set<Pair>, u: nat, v: nat)
    requires OneArcsOfPairs(g, colors, base, middle, ps)
    requires OneArcsFrom(g, colors, middle, arcs, u, v, g.vertices)
    ensures OneArcsOfPairs(g, colors, base, arcs, ps + {(u, v)})
  {
  }

  /** `arcs` is `base` plus the type-two arcs from (u, v) to the pairs (u, w), w in `ws`. */
  ghost predicate TwoArcsFrom(g: Graph, colors: map<nat, nat>, base: set<(Pair, Pair)>, arcs: set<(Pair, Pair)>,
                              u: nat, v: nat, ws: set<nat>) {
    forall a, b :: (a, b) in arcs <==> (a, b) in base || (a == (u, v) && b.1 in ws && TypeTwoArc(g, colors, a, b))
  }

  lemma TwoArcsStep(g: Graph, colors: map<nat, nat>, base: set<(Pair, Pair)>, arcs: set<(Pair, Pair)>,
                    u: nat, v: nat, ws: set<nat>, w: nat)
    requires TwoArcsFrom(g, colors, base, arcs, u, v, ws)
    requires (u, v) in DistinctPairs(g) && !g.HasEdge(u, v) && u in colors && w in colors
    requires w in g.Neighbors(v)
    ensures TwoArcsFrom(g, colors, base, arcs + (if colors[u] == colors[w] then {((u, v), (u, w))} else {}),
                        u, v, ws + {w})
  {
  }

  lemma TwoArcsAll(g: Graph, colors: map<nat, nat>, base: set<(Pair, Pair)>, arcs: set<(Pair, Pair)>, u: nat, v: nat)
    requires TwoArcsFrom(g, colors, base, arcs, u, v, g.Neighbors(v))
    ensures TwoArcsFrom(g, colors, base, arcs, u, v, g.vertices)
  {
  }

  /** `arcs` is `base` plus the type-two arcs leaving the pairs of `ps`. */
  ghost predicate TwoArcsOfPairs(g: Graph, colors: map<nat, nat>, base: set<(Pair, Pair)>, arcs: set<(Pair, Pair)>,
                                 ps: set<Pair>) {
    forall a, b :: (a, b) in arcs <==> (a, b) in base || (a in ps && TypeTwoArc(g, colors, a, b))
  }

  lemma TwoPairsStep(g: Graph, colors: map<nat, nat>, base: set<(Pair, Pair)>, middle: set<(Pair, Pair)>,
                     arcs: set<(Pair, Pair)>, ps: set<Pair>, u: nat, v: nat)
    requires TwoArcsOfPairs(g, colors, base, middle, ps)
    requires TwoArcsFrom(g, colors, middle, arcs, u, v, g.vertices)
    ensures TwoArcsOfPairs(g, colors, base, arcs, ps + {(u, v)})
  {
  }

  /** The type-one arcs `add_type_one_implications` adds for the single pair (u, v): to
      (w, v) for each neighbour w of u that is neither v nor a neighbour of v, when u and
      v share a colour. */
  method AddTypeOneFor(g: Graph, d: MutableDigraph, colors: map<nat, nat>, u: nat, v: nat)
    requires g.Valid() && (u, v) in DistinctPairs(g) && u in colors && v in colors
    modifies d
    ensures OneArcsFrom(g, colors, old(d.arcs), d.arcs, u, v, g.vertices)
    ensures GrewWithin(g, old(d.vertices), old(d.arcs), d.vertices, d.arcs)
  {
    if colors[u] == colors[v] {
      var neighbors := g.Neighbors(u);
      var rest := neighbors;
      ghost var done: set<nat> := {};
      while rest != {}
        invariant rest + done == neighbors && rest !! done
        invariant OneArcsFrom(g, colors, old(d.arcs), d.arcs, u, v, done)
        invariant GrewWithin(g, old(d.vertices), old(d.arcs), d.vertices, d.arcs)
        decreases |rest|
      {
        var w :| w in rest;
        OneArcsStep(g, colors, old(d.arcs), d.arcs, u, v, done, w);
        if !g.HasEdge(v, w) && v != w {
          GrewStep(g, old(d.vertices), old(d.arcs), d.vertices, d.arcs, (u, v), (w, v));
          d.AddArc((u, v), (w, v));
        }
        MoveOne(rest, done, w);
        rest := rest - {w};
        done := done + {w};
      }
      OneArcsAll(g, colors, old(d.arcs), d.arcs, u, v);
    }
  }

  /** One pass of the inner loop of `add_type_two_implications`: the lookups for u and
      its candidate w, then the arc (u, v) -> (u, w) when their colours agree. */
  method TwoArcStep(g: Graph, d: MutableDigraph, colors: map<nat, nat>, u: nat, v: nat, w: nat,
                    ghost base: set<(Pair, Pair)>, ghost ws: set<nat>)
      returns (ok: bool)
    requires g.Valid() && (u, v) in DistinctPairs(g) && !g.HasEdge(u, v) && w in g.Neighbors(v)
    requires TwoArcsFrom(g, colors, base, d.arcs, u, v, ws)
    modifies d
    ensures ok <==> u in colors && w in colors
    ensures ok ==> TwoArcsFrom(g, colors, base, d.arcs, u, v, ws + {w})
    ensures !ok ==> d.arcs == old(d.arcs) && d.vertices == old(d.vertices)
    ensures GrewWithin(g, old(d.vertices), old(d.arcs), d.vertices, d.arcs)
  {
    if !(u in colors && w in colors) {
      return false;
    }
    TwoArcsStep(g, colors, base, d.arcs, u, v, ws, w);
    if colors[u] == colors[w] {
      d.AddArc((u, v), (u, w));
    }
    return true;
  }

  /** The inner loop of `add_type_two_implications` for a non-adjacent pair (u, v): over
      the neighbours w of v until a lookup raises; `covered` is the neighbours handled. */
  method TwoArcsLoop(g: Graph, d: MutableDigraph, colors: map<nat, nat>, u: nat, v: nat)
      returns (ok: bool, ghost covered: set<nat>)
    requires g.Valid() && (u, v) in DistinctPairs(g) && !g.HasEdge(u, v)
    modifies d
    ensures ok <==> forall w | w in g.Neighbors(v) :: u in colors && w in colors
    ensures covered <= g.Neighbors(v) && (ok ==> covered == g.Neighbors(v))
    ensures TwoArcsFrom(g, colors, old(d.arcs), d.arcs, u, v, covered)
    ensures GrewWithin(g, old(d.vertices), old(d.arcs), d.vertices, d.arcs)
  {
    var neighbors := g.Neighbors(v);
    var rest := neighbors;
    covered := {};
    while rest != {}
      invariant rest + covered == neighbors && rest !! covered
      invariant forall w | w in covered :: u in colors && w in colors
      invariant TwoArcsFrom(g, colors, old(d.arcs), d.arcs, u, v, covered)
      invariant GrewWithin(g, old(d.vertices), old(d.arcs), d.vertices, d.arcs)
      decreases |rest|
    {
      var w :| w in rest;
      ghost var (before, beforeVertices) := (d.arcs, d.vertices);
      var found := TwoArcStep(g, d, colors, u, v, w, old(d.arcs), covered);
      if !found {
        return false, covered;
      }
      GrewTransitive(g, old(d.vertices), old(d.arcs), beforeVertices, before, d.vertices, d.arcs);
      MoveOne(rest, covered, w);
      rest := rest - {w};
      covered := covered + {w};
    }
    return true, covered;
  }

  lemma TwoArcsSound(g: Graph, colors: map<nat, nat>, base: set<(Pair, Pair)>, arcs: set<(Pair, Pair)>,
                     u: nat, v: nat, ws: set<nat>)
    requires TwoArcsFrom(g, colors, base, arcs, u, v, ws)
    ensures forall a, b | (a, b) in arcs :: (a, b) in base || TypeTwoArc(g, colors, a, b)
  {
  }

  /** The lookups of one pair succeed exactly when u and all neighbours of v have colours
      or u and v are adjacent. */
  lemma TwoKeysOfPair(g: Graph, colors: map<nat, nat>, u: nat, v: nat)
    ensures TypeTwoKeys(g, colors, {(u, v)}) <==>
            g.HasEdge(u, v) || forall w | w in g.Neighbors(v) :: u in colors && w in colors
  {
    if !g.HasEdge(u, v) && forall w | w in g.Neighbors(v) :: u in colors && w in colors {
      forall a, w | a in {(u, v)} && !g.HasEdge(a.0, a.1) && w in g.vertices && g.HasEdge(a.1, w)
        ensures a.0 in colors && w in colors
      {
        assert w in g.Neighbors(v);
      }
    }
  }

  lemma TwoArcsNone(g: Graph, colors: map<nat, nat>, arcs: set<(Pair, Pair)>, u: nat, v: nat)
    requires g.HasEdge(u, v)
    ensures TwoArcsFrom(g, colors, arcs, arcs, u, v, g.vertices)
  {
  }

  /** The type-two arcs `add_type_two_implications` adds for the single pair (u, v): to
      (u, w) for each neighbour w of v with the colour of u, when u and v are not
      adjacent. False when a lookup raises `KeyError`; the arcs added before it stay. */
  method AddTypeTwoFor(g: Graph, d: MutableDigraph, colors: map<nat, nat>, u: nat, v: nat) returns (ok: bool)
    requires g.Valid() && (u, v) in DistinctPairs(g)
    modifies d
    ensures ok <==> TypeTwoKeys(g, colors, {(u, v)})
    ensures ok ==> TwoArcsFrom(g, colors, old(d.arcs), d.arcs, u, v, g.vertices)
    ensures forall a, b | (a, b) in d.arcs :: (a, b) in old(d.arcs) || TypeTwoArc(g, colors, a, b)
    ensures GrewWithin(g, old(d.vertices), old(d.arcs), d.vertices, d.arcs)
  {
    TwoKeysOfPair(g, colors, u, v);
    if g.HasEdge(u, v) {
      TwoArcsNone(g, colors, d.arcs, u, v);
      return true;
    }
    ghost var covered;
    ok, covered := TwoArcsLoop(g, d, colors, u, v);
    TwoArcsSound(g, colors, old(d.arcs), d.arcs, u, v, covered);
    if ok {
      TwoArcsAll(g, colors, old(d.arcs), d.arcs, u, v);
    }
  }

  lemma OneKeysMono(colors: map<nat, nat>, ps: set<Pair>, qs: set<Pair>)
    requires ps <= qs && TypeOneKeys(colors, qs)
    ensures TypeOneKeys(colors, ps)
  {
  }

  lemma OnePairsAll(g: Graph, colors: map<nat, nat>, base: set<(Pair, Pair)>, arcs: set<(Pair, Pair)>)
    requires OneArcsOfPairs(g, colors, base, arcs, DistinctPairs(g))
    ensures forall a, b :: (a, b) in arcs <==> (a, b) in base || TypeOneArc(g, colors, a, b)
  {
  }

  lemma OnePairsSound(g: Graph, colors: map<nat, nat>, base: set<(Pair, Pair)>, arcs: set<(Pair, Pair)>, ps: set<Pair>)
    requires OneArcsOfPairs(g, colors, base, arcs, ps)
    ensures forall a, b | (a, b) in arcs :: (a, b) in base || TypeOneArc(g, colors, a, b)
  {
  }

  /** One pass of the outer loop of `add_type_one_implications`, for the pair (u, v). */
  method OnePairStep(g: Graph, d: MutableDigraph, colors: map<nat, nat>, u: nat, v: nat,
                     ghost base: set<(Pair, Pair)>, ghost done: set<Pair>)
      returns (ok: bool)
    requires g.Valid() && (u, v) in DistinctPairs(g)
    requires OneArcsOfPairs(g, colors, base, d.arcs, done) && TypeOneKeys(colors, done)
    modifies d
    ensures ok <==> u in colors && v in colors
    ensures ok ==> OneArcsOfPairs(g, colors, base, d.arcs, done + {(u, v)}) && TypeOneKeys(colors, done + {(u, v)})
    ensures !ok ==> d.arcs == old(d.arcs) && d.vertices == old(d.vertices)
    ensures GrewWithin(g, old(d.vertices), old(d.arcs), d.vertices, d.arcs)
  {
    if !(u in colors && v in colors) {
      return false;
    }
    AddTypeOneFor(g, d, colors, u, v);
    OnePairsStep(g, colors, base, old(d.arcs), d.arcs, done, u, v);
    return true;
  }

  /** `add_type_one_implications(graph, digraph, colors)`: every type-one arc is added,
      unless a vertex has no colour, when the lookup raises `KeyError` part-way. */
  method AddTypeOneImplications(g: Graph, d: MutableDigraph, colors: map<nat, nat>) returns (ok: bool)
    requires g.Valid()
    modifies d
    ensures ok <==> TypeOneKeys(colors, DistinctPairs(g))
    ensures ok ==> forall a, b :: (a, b) in d.arcs <==> (a, b) in old(d.arcs) || TypeOneArc(g, colors, a, b)
    ensures forall a, b | (a, b) in d.arcs :: (a, b) in old(d.arcs) || TypeOneArc(g, colors, a, b)
    ensures GrewWithin(g, old(d.vertices), old(d.arcs), d.vertices, d.arcs)
  {
    var rest := DistinctPairs(g);
    ghost var done: set<Pair> := {};
    while rest != {}
      invariant rest + done == DistinctPairs(g) && rest !! done
      invariant TypeOneKeys(colors, done)
      invariant OneArcsOfPairs(g, colors, old(d.arcs), d.arcs, done)
      invariant GrewWithin(g, old(d.vertices), old(d.arcs), d.vertices, d.arcs)
      decreases |rest|
    {
      var a :| a in rest;
      var (u, v) := a;
      ghost var (middle, middleVertices) := (d.arcs, d.vertices);
      var pairOk := OnePairStep(g, d, colors, u, v, old(d.arcs), done);
      if !pairOk {
        OnePairsSound(g, colors, old(d.arcs), d.arcs, done);
        if TypeOneKeys(colors, DistinctPairs(g)) {
          OneKeysMono(colors, {a}, DistinctPairs(g));
        }
        return false;
      }
      GrewTransitive(g, old(d.vertices), old(d.arcs), middleVertices, middle, d.vertices, d.arcs);
      MoveOne(rest, done, a);
      rest := rest - {a};
      done := done + {a};
    }
    OnePairsAll(g, colors, old(d.arcs), d.arcs);
    return true;
  }

  lemma TwoKeysMono(g: Graph, colors: map<nat, nat>, ps: set<Pair>, qs: set<Pair>)
    requires ps <= qs && TypeTwoKeys(g, colors, qs)
    ensures TypeTwoKeys(g, colors, ps)
  {
  }

  lemma TwoKeysUnion(g: Graph, colors: map<nat, nat>, ps: set<Pair>, qs: set<Pair>)
    requires TypeTwoKeys(g, colors, ps) && TypeTwoKeys(g, colors, qs)
    ensures TypeTwoKeys(g, colors, ps + qs)
  {
  }

  lemma TwoPairsAll(g: Graph, colors: map<nat, nat>, base: set<(Pair, Pair)>, arcs: set<(Pair, Pair)>)
    requires TwoArcsOfPairs(g, colors, base, arcs, DistinctPairs(g))
    ensures forall a, b :: (a, b) in arcs <==> (a, b) in base || TypeTwoArc(g, colors, a, b)
  {
  }

  lemma TwoPairsSound(g: Graph, colors: map<nat, nat>, base: set<(Pair, Pair)>, middle: set<(Pair, Pair)>,
                      arcs: set<(Pair, Pair)>, ps: set<Pair>)
    requires TwoArcsOfPairs(g, colors, base, middle, ps)
    requires forall a, b | (a, b) in arcs :: (a, b) in middle || TypeTwoArc(g, colors, a, b)
    ensures forall a, b | (a, b) in arcs :: (a, b) in base || TypeTwoArc(g, colors, a, b)
  {
  }

  /** One pass of the outer loop of `add_type_two_implications`, for the pair (u, v). */
  method TwoPairStep(g: Graph, d: MutableDigraph, colors: map<nat, nat>, u: nat, v: nat,
                     ghost base: set<(Pair, Pair)>, ghost done: set<Pair>)
      returns (ok: bool)
    requires g.Valid() && (u, v) in DistinctPairs(g)
    requires TwoArcsOfPairs(g, colors, base, d.arcs, done) && TypeTwoKeys(g, colors, done)
    modifies d
    ensures ok <==> TypeTwoKeys(g, colors, {(u, v)})
    ensures ok ==> TwoArcsOfPairs(g, colors, base, d.arcs, done + {(u, v)})
    ensures ok ==> TypeTwoKeys(g, colors, done + {(u, v)})
    ensures forall a, b | (a, b) in d.arcs :: (a, b) in base || TypeTwoArc(g, colors, a, b)
    ensures GrewWithin(g, old(d.vertices), old(d.arcs), d.vertices, d.arcs)
  {
    ok := AddTypeTwoFor(g, d, colors, u, v);
    TwoPairsSound(g, colors, base, old(d.arcs), d.arcs, done);
    if ok {
      TwoPairsStep(g, colors, base, old(d.arcs), d.arcs, done, u, v);
      TwoKeysUnion(g, colors, done, {(u, v)});
    }
  }

  /** `add_type_two_implications(graph, digraph, colors)`: every type-two arc is added,
      unless a lookup raises `KeyError` part-way. */
  method AddTypeTwoImplications(g: Graph, d: MutableDigraph, colors: map<nat, nat>) returns (ok: bool)
    requires g.Valid()
    modifies d
    ensures ok <==> TypeTwoKeys(g, colors, DistinctPairs(g))
    ensures ok ==> forall a, b :: (a, b) in d.arcs <==> (a, b) in old(d.arcs) || TypeTwoArc(g, colors, a, b)
    ensures forall a, b | (a, b) in d.arcs :: (a, b) in old(d.arcs) || TypeTwoArc(g, colors, a, b)
    ensures GrewWithin(g, old(d.vertices), old(d.arcs), d.vertices, d.arcs)
  {
    var rest := DistinctPairs(g);
    ghost var done: set<Pair> := {};
    while rest != {}
      invariant rest + done == DistinctPairs(g) && rest !! done
      invariant TypeTwoKeys(g, colors, done)
      invariant TwoArcsOfPairs(g, colors, old(d.arcs), d.arcs, done)
      invariant GrewWithin(g, old(d.vertices), old(d.arcs), d.vertices, d.arcs)
      decreases |rest|
    {
      var a :| a in rest;
      var (u, v) := a;
      ghost var (middle, middleVertices) := (d.arcs, d.vertices);
      var pairOk := TwoPairStep(g, d, colors, u, v, old(d.arcs), done);
      GrewTransitive(g, old(d.vertices), old(d.arcs), middleVertices, middle, d.vertices, d.arcs);
      if !pairOk {
        if TypeTwoKeys(g, colors, DistinctPairs(g)) {
          TwoKeysMono(g, colors, {a}, DistinctPairs(g));
        }
        return false;
      }
      MoveOne(rest, done, a);
      rest := rest - {a};
      done := done + {a};
    }
    TwoPairsAll(g, colors, old(d.arcs), d.arcs);
    return true;
  }

  /** `get_implications_digraph(graph, colors)`: the ordered pairs as vertices, then the
      type-one and the type-two arcs; `KeyError` when a needed colour is missing. */
  method GetImplicationsDigraph(g: Graph, colors: map<nat, nat>) returns (r: Result<Digraph>)
    requires g.Valid()
    ensures r.Success? <==> TypeOneKeys(colors, DistinctPairs(g)) && TypeTwoKeys(g, colors, DistinctPairs(g))
    ensures r.Success? ==> IsImplicationDigraph(g, colors, r.value)
    ensures r.Failure? ==> r.error == "KeyError"
  {
    var d := new MutableDigraph();
    d.AddVertices(DistinctPairs(g));
    var ok := AddTypeOneImplications(g, d, colors);
    if !ok {
      return Failure("KeyError");
    }
    ok := AddTypeTwoImplications(g, d, colors);
    if !ok {
      return Failure("KeyError");
    }
    return Success(d.Value());
  }

  /** With a colouring from a partition covering every vertex, no lookup raises. */
  lemma PartitionColorsAllVertices(g: Graph, partition: seq<set<nat>>)
    requires forall v | v in g.vertices :: exists i | 0 <= i < |partition| :: v in partition[i]
    ensures TypeOneKeys(ColorsOf(partition), DistinctPairs(g))
    ensures TypeTwoKeys(g, ColorsOf(partition), DistinctPairs(g))
  {
    forall v | v in g.vertices
      ensures v in ColorsOf(partition)
    {
      ColorsOfMeaning(partition, v);
    }
  }

  // ---------------------------------------------------------------------------------
  // Reachability, has_self_coupled_components

  /** A directed walk along arcs of `d`. */
  ghost predicate IsPath(d: Digraph, path: seq<Pair>) {
    |path| >= 1 && forall i | 0 <= i < |path| - 1 :: (path[i], path[i + 1]) in d.arcs
  }

  ghost predicate Reaches(d: Digraph, x: Pair, y: Pair) {
    exists path | IsPath(d, path) :: path[0] == x && path[|path| - 1] == y
  }

  /** What Sage's `strongly_connected_components()` returns: lists of vertices that reach
      one another, covering the digraph, each closed under mutual reachability. */
  ghost predicate IsStronglyConnectedComponents(d: Digraph, comps: seq<set<Pair>>) {
    (forall i, x | 0 <= i < |comps| && x in comps[i] :: x in d.vertices) &&
    (forall i, x, y | 0 <= i < |comps| && x in comps[i] && y in comps[i] :: Reaches(d, x, y)) &&
    (forall x | x in d.vertices :: exists i | 0 <= i < |comps| :: x in comps[i]) &&
    (forall i, x, y | 0 <= i < |comps| && x in comps[i] && y in d.vertices && Reaches(d, x, y) && Reaches(d, y, x) ::
       y in comps[i])
  }

  /** `has_self_coupled_components`: some component holds a pair and its reverse. */
  predicate HasSelfCoupledComponents(comps: seq<set<Pair>>) {
    exists i, p | 0 <= i < |comps| && p in comps[i] :: (p.1, p.0) in comps[i]
  }

  /** With the components Sage computes, a self-coupled component exists exactly when some
      pair and its reverse reach each other in the digraph. */
  lemma SelfCoupledIffMutualReach(d: Digraph, comps: seq<set<Pair>>)
    requires IsStronglyConnectedComponents(d, comps)
    ensures HasSelfCoupledComponents(comps) <==>
            exists p | p in d.vertices :: (p.1, p.0) in d.vertices && Reaches(d, p, (p.1, p.0)) && Reaches(d, (p.1, p.0), p)
  {
    if exists p | p in d.vertices :: (p.1, p.0) in d.vertices && Reaches(d, p, (p.1, p.0)) && Reaches(d, (p.1, p.0), p) {
      var p :| p in d.vertices && (p.1, p.0) in d.vertices && Reaches(d, p, (p.1, p.0)) && Reaches(d, (p.1, p.0), p);
      var i :| 0 <= i < |comps| && p in comps[i];
      assert (p.1, p.0) in comps[i];
    }
  }

  // ---------------------------------------------------------------------------------
  // has_consistent_ordering, and why self-coupling rules it out

  /** `has_consistent_ordering(graph, partition)`: some ordering of `graph.vertices()`
      passes `verify_solution` with the partition. */
  predicate HasConsistentOrdering(g: Graph, partition: seq<set<nat>>) {
    exists o | o in Permutations(SortedList(g.vertices)) :: VerifySolution(g, Solution(o, partition))
  }

  /** `has_consistent_ordering` holds exactly when some rearrangement of the vertices is
      a consistent order for the partition. */
  lemma HasConsistentOrderingIff(g: Graph, partition: seq<set<nat>>)
    ensures HasConsistentOrdering(g, partition) <==>
            exists o: seq<nat> | multiset(o) == multiset(SortedList(g.vertices)) :: Consistent(g, Solution(o, partition))
  {
    var vs := SortedList(g.vertices);
    if HasConsistentOrdering(g, partition) {
      var o :| o in Permutations(vs) && VerifySolution(g, Solution(o, partition));
      PermutationsSound(vs, o);
      VerifySolutionByPositions(g, Solution(o, partition));
    }
    if exists o: seq<nat> | multiset(o) == multiset(vs) :: Consistent(g, Solution(o, partition)) {
      var o: seq<nat> :| multiset(o) == multiset(vs) && Consistent(g, Solution(o, partition));
      PermutationsComplete(vs, o);
      VerifySolutionByPositions(g, Solution(o, partition));
    }
  }

  /** The order `o` satisfies the pair a = (u, v): u comes before v. */
  predicate Holds(o: seq<nat>, a: Pair) {
    a.0 in o && a.1 in o && IndexOf(o, a.0) < IndexOf(o, a.1)
  }

  /** The setting of the soundness argument: `o` lists every vertex and is consistent for
      the disjoint `partition`. */
  predicate Setting(g: Graph, partition: seq<set<nat>>, o: seq<nat>) {
    (forall a, b | 0 <= a < b < |partition| :: partition[a] !! partition[b]) &&
    (forall x | x in g.vertices :: x in o) &&
    Consistent(g, Solution(o, partition))
  }

  /** Vertices with the same colour are in the same class in the sense `part_of` gives. */
  lemma SameColorSameClass(partition: seq<set<nat>>, o: seq<nat>, x: nat, y: nat)
    requires forall a, b | 0 <= a < b < |partition| :: partition[a] !! partition[b]
    requires x in ColorsOf(partition) && y in ColorsOf(partition)
    requires ColorsOf(partition)[x] == ColorsOf(partition)[y]
    ensures SameClass(Solution(o, partition), x, y)
  {
    ColorsOfMeaning(partition, x);
    ColorsOfMeaning(partition, y);
    var c := ColorsOf(partition)[x];
    PartOfDisjoint(Solution(o, partition), x, c);
    PartOfDisjoint(Solution(o, partition), y, c);
  }

  /** A consistent order has no incompatible triple in one class at positions i < j < k. */
  lemma NoViolationAt(g: Graph, s: Solution, i: nat, j: nat, k: nat)
    requires ConsistentOrder(g, s) && i < |s.order| && j < |s.order| && k < |s.order|
    ensures i < j < k ==> !Violates(g, s, s.order[i], s.order[j], s.order[k])
  {
  }

  /** A type-one arc is an implication: u before v forces w before v, since w after v
      would make (u, v, w) an incompatible triple in one class. */
  lemma TypeOnePreserves(g: Graph, partition: seq<set<nat>>, o: seq<nat>, a: Pair, b: Pair)
    requires Setting(g, partition, o)
    requires TypeOneArc(g, ColorsOf(partition), a, b) && Holds(o, a)
    ensures Holds(o, b)
  {
    var (u, v, w) := (a.0, a.1, b.0);
    assert w in o;
    var (i, j, k) := (IndexOf(o, u), IndexOf(o, v), IndexOf(o, w));
    var s := Solution(o, partition);
    SameColorSameClass(partition, o, u, v);
    assert Violates(g, s, u, v, w);
    NoViolationAt(g, s, i, j, k);
    assert k != j;
  }

  /** A type-two arc is an implication: u before v forces u before w, since w before u
      would make (w, u, v) an incompatible triple in one class. */
  lemma TypeTwoPreserves(g: Graph, partition: seq<set<nat>>, o: seq<nat>, a: Pair, b: Pair)
    requires Setting(g, partition, o)
    requires TypeTwoArc(g, ColorsOf(partition), a, b) && Holds(o, a)
    ensures Holds(o, b)
  {
    var (u, v, w) := (a.0, a.1, b.1);
    assert w in o;
    var (i, j, k) := (IndexOf(o, u), IndexOf(o, v), IndexOf(o, w));
    var s := Solution(o, partition);
    SameColorSameClass(partition, o, w, u);
    assert Violates(g, s, w, u, v);
    NoViolationAt(g, s, k, i, j);
    assert k != i;
  }

  /** Every walk in the implication digraph carries a satisfied pair to a satisfied pair. */
  lemma {:induction false} PathPreserves(g: Graph, partition: seq<set<nat>>, o: seq<nat>, d: Digraph, path: seq<Pair>)
    requires Setting(g, partition, o) && IsImplicationDigraph(g, ColorsOf(partition), d)
    requires IsPath(d, path) && Holds(o, path[0])
    ensures Holds(o, path[|path| - 1])
    decreases |path|
  {
    if |path| > 1 {
      assert (path[0], path[1]) in d.arcs;
      if TypeOneArc(g, ColorsOf(partition), path[0], path[1]) {
        TypeOnePreserves(g, partition, o, path[0], path[1]);
      } else {
        TypeTwoPreserves(g, partition, o, path[0], path[1]);
      }
      var rest := path[1..];
      assert IsPath(d, rest) by {
        forall i | 0 <= i < |rest| - 1
          ensures (rest[i], rest[i + 1]) in d.arcs
        {
          assert rest[i] == path[i + 1] && rest[i + 1] == path[i + 2];
        }
      }
      PathPreserves(g, partition, o, d, rest);
    }
  }

  lemma ReachPreserves(g: Graph, partition: seq<set<nat>>, o: seq<nat>, d: Digraph, x: Pair, y: Pair)
    requires Setting(g, partition, o) && IsImplicationDigraph(g, ColorsOf(partition), d)
    ensures Reaches(d, x, y) && Holds(o, x) ==> Holds(o, y)
  {
    if Reaches(d, x, y) && Holds(o, x) {
      var path :| IsPath(d, path) && path[0] == x && path[|path| - 1] == y;
      PathPreserves(g, partition, o, d, path);
    }
  }

  /** Every ordering `has_consistent_ordering` tries lists every vertex. */
  lemma PermutationListsVertices(g: Graph, o: seq<nat>)
    requires o in Permutations(SortedList(g.vertices))
    ensures forall x | x in g.vertices :: x in o
  {
    var vs := SortedList(g.vertices);
    PermutationsSound(vs, o);
    forall x | x in g.vertices
      ensures x in o
    {
      assert x in multiset(vs);
    }
  }

  /** The test `is_consistent_1` rests on is necessary: when the partition (disjoint, as
      `SetPartitions` yields it) has a consistent ordering, no strongly connected component
      of its implication digraph is self-coupled. */
  lemma ConsistentOrderingHasNoSelfCoupling(g: Graph, partition: seq<set<nat>>, d: Digraph, comps: seq<set<Pair>>)
    requires forall a, b | 0 <= a < b < |partition| :: partition[a] !! partition[b]
    requires IsImplicationDigraph(g, ColorsOf(partition), d)
    requires IsStronglyConnectedComponents(d, comps)
    requires HasConsistentOrdering(g, partition)
    ensures !HasSelfCoupledComponents(comps)
  {
    var o :| o in Permutations(SortedList(g.vertices)) && VerifySolution(g, Solution(o, partition));
    VerifySolutionByPositions(g, Solution(o, partition));
    PermutationListsVertices(g, o);
    assert Setting(g, partition, o);
    forall i, p | 0 <= i < |comps| && p in comps[i]
      ensures (p.1, p.0) !in comps[i]
    {
      NoMutualReach(g, partition, o, d, p);
    }
  }

  /** A vertex pair and its reverse never reach each other both ways: one of them is
      satisfied by the order, and the other would then be too. */
  lemma NoMutualReach(g: Graph, partition: seq<set<nat>>, o: seq<nat>, d: Digraph, p: Pair)
    requires Setting(g, partition, o) && IsImplicationDigraph(g, ColorsOf(partition), d)
    ensures p in d.vertices ==> !(Reaches(d, p, (p.1, p.0)) && Reaches(d, (p.1, p.0), p))
  {
    var q := (p.1, p.0);
    ReachPreserves(g, partition, o, d, p, q);
    ReachPreserves(g, partition, o, d, q, p);
    if p in d.vertices {
      assert p.0 in o && p.1 in o;
      assert IndexOf(o, p.0) != IndexOf(o, p.1);
    }
  }
}
