/** The flow machinery of thinness/order.py: a labelled directed network, flows on it,
    the search for a walk that can still carry one more unit where a lower bound is not
    met, the augmenting loop that turns the zero flow into one meeting the lower bounds,
    and the residual network handed to Sage's maximum flow. Sage lists nodes and arcs in
    an order of its own; here every such loop takes them in any order. */
module Flow {
  import opened Wrappers

  /** A node of the network: a terminal keeps its integer name, every other vertex `v` of
      the orientation is split into the strings `f'{v}_in'` and `f'{v}_out'`. */
  datatype Node = Terminal(t: nat) | In(v: nat) | Out(v: nat)

  type Arc = (Node, Node)

  /** A Sage `DiGraph` with integer edge labels: its nodes and the label of each arc. */
  datatype Network = Network(nodes: set<Node>, labels: map<Arc, int>)
  {
    /** Every arc joins two nodes. */
    ghost predicate Valid() {
      forall a | a in labels :: a.0 in nodes && a.1 in nodes
    }
  }

  /** Sage's `add_edge(u, v, label)`: adds the ends, and adds the arc or overwrites its
      label. */
  function AddArc(n: Network, a: Arc, l: int): (r: Network)
    ensures r.nodes == n.nodes + {a.0, a.1} && r.labels == n.labels[a := l]
    ensures n.Valid() ==> r.Valid()
  {
    Network(n.nodes + {a.0, a.1}, n.labels[a := l])
  }

  /** The lower bound the network asks of an arc: one unit on the arc from a vertex's
      in-node to its own out-node, nothing elsewhere. */
  function LowerBound(a: Arc): int {
    if a.0.In? && a.1 == Out(a.0.v) then 1 else 0
  }

  /** `flow` is a copy of `net` whose labels are the units carried. */
  ghost predicate FlowOf(net: Network, flow: Network) {
    net.Valid() && flow.nodes == net.nodes && flow.labels.Keys == net.labels.Keys
  }

  // ---------------------------------------------------------------------------------------
  // Sums over arcs
  // ---------------------------------------------------------------------------------------

  ghost function Pick(s: set<Arc>): (a: Arc)
    requires s != {}
    ensures a in s
  {
    var a :| a in s; a
  }

  /** The sum of `w` over the arcs `s`. */
  ghost function Total(s: set<Arc>, w: map<Arc, int>): int
    requires s <= w.Keys
    decreases s
  {
    if s == {} then 0 else w[Pick(s)] + Total(s - {Pick(s)}, w)
  }

  /** Any arc can be taken out of a sum first. */
  lemma {:induction false} TotalRemove(s: set<Arc>, w: map<Arc, int>, a: Arc)
    requires a in s && s <= w.Keys
    ensures Total(s, w) == w[a] + Total(s - {a}, w)
    decreases s
  {
    var b := Pick(s);
    if b != a {
      TotalRemove(s - {b}, w, a);
      TotalRemove(s - {a}, w, b);
      assert s - {b} - {a} == s - {a} - {b};
    }
  }

  /** Sums add up pointwise. */
  lemma {:induction false} TotalAdd(s: set<Arc>, f: map<Arc, int>, g: map<Arc, int>, h: map<Arc, int>)
    requires s <= f.Keys && s <= g.Keys && s <= h.Keys
    requires forall a | a in s :: g[a] == f[a] + h[a]
    ensures Total(s, g) == Total(s, f) + Total(s, h)
    decreases s
  {
    if s != {} {
      TotalAdd(s - {Pick(s)}, f, g, h);
    }
  }

  /** A sum of nothing but zeros. */
  lemma {:induction false} TotalZero(s: set<Arc>, w: map<Arc, int>)
    requires s <= w.Keys && forall a | a in s :: w[a] == 0
    ensures Total(s, w) == 0
    decreases s
  {
    if s != {} {
      TotalZero(s - {Pick(s)}, w);
    }
  }

  /** A sum grows with its terms. */
  lemma {:induction false} TotalMono(s: set<Arc>, f: map<Arc, int>, g: map<Arc, int>)
    requires s <= f.Keys && s <= g.Keys && forall a | a in s :: f[a] <= g[a]
    ensures Total(s, f) <= Total(s, g)
    decreases s
  {
    if s != {} {
      TotalMono(s - {Pick(s)}, f, g);
    }
  }

  /** A sum of zeros and a single one counts whether that arc is in the set. */
  lemma TotalIndicator(s: set<Arc>, w: map<Arc, int>, e: Arc)
    requires s <= w.Keys && forall a | a in s :: w[a] == (if a == e then 1 else 0)
    ensures Total(s, w) == if e in s then 1 else 0
  {
    if e in s {
      TotalRemove(s, w, e);
      TotalZero(s - {e}, w);
    } else {
      TotalZero(s, w);
    }
  }

  // ---------------------------------------------------------------------------------------
  // Conservation
  // ---------------------------------------------------------------------------------------

  predicate Through(a: Arc, x: Node, entering: bool) {
    if entering then a.1 == x else a.0 == x
  }

  /** The arcs of `s` entering `x` (or leaving it). */
  function Incident(s: set<Arc>, x: Node, entering: bool): (r: set<Arc>)
    ensures r <= s
  {
    set a | a in s && Through(a, x, entering)
  }

  /** What enters `x` (or leaves it) under the labels of `flow`. */
  ghost function Carried(flow: Network, x: Node, entering: bool): int {
    Total(Incident(flow.labels.Keys, x, entering), flow.labels)
  }

  /** What `_keeps_flow` checks: at every node other than the two terminals, what enters
      leaves. */
  ghost predicate KeepsFlow(net: Network, source: nat, sink: nat, flow: Network) {
    forall x | x in net.nodes && x != Terminal(source) && x != Terminal(sink) ::
      Carried(flow, x, true) == Carried(flow, x, false)
  }

  /** What `_is_valid_flow` checks: every arc carries at least its label in `net`, and the
      flow is kept. */
  ghost predicate IsValidFlow(net: Network, source: nat, sink: nat, flow: Network) {
    (forall a | a in net.labels :: a in flow.labels && flow.labels[a] >= net.labels[a])
    && KeepsFlow(net, source, sink, flow)
  }

  /** The `sum(...)` of `_keeps_flow` and `min_flow`: the labels of the arcs entering `x`
      (or leaving it), added up one arc at a time. */
  method SumIncident(flow: Network, x: Node, entering: bool) returns (total: int)
    ensures total == Carried(flow, x, entering)
  {
    var all := Incident(flow.labels.Keys, x, entering);
    var remaining := all;
    total := 0;
    while remaining != {}
      invariant remaining <= all
      invariant total + Total(remaining, flow.labels) == Total(all, flow.labels)
      decreases remaining
    {
      var a :| a in remaining;
      TotalRemove(remaining, flow.labels, a);
      total := total + flow.labels[a];
      remaining := remaining - {a};
    }
  }

  /** `_keeps_flow`: the first node other than the terminals where what enters differs
      from what leaves makes it false. */
  method CheckKeepsFlow(net: Network, source: nat, sink: nat, flow: Network) returns (b: bool)
    ensures b == KeepsFlow(net, source, sink, flow)
  {
    var remaining := net.nodes;
    while remaining != {}
      invariant remaining <= net.nodes
      invariant forall x | x in net.nodes && x !in remaining && x != Terminal(source) && x != Terminal(sink) ::
        Carried(flow, x, true) == Carried(flow, x, false)
      decreases remaining
    {
      var x :| x in remaining;
      if x != Terminal(source) && x != Terminal(sink) {
        var into := SumIncident(flow, x, true);
        var out := SumIncident(flow, x, false);
        if into != out {
          return false;
        }
      }
      remaining := remaining - {x};
    }
    return true;
  }

  /** `_is_valid_flow`: false at the first arc carrying less than its label in `net`,
      otherwise whether the flow is kept. Sage's `edge_label` on an arc the flow lacks
      raises; the flows checked here are copies of `net`. */
  method CheckValidFlow(net: Network, source: nat, sink: nat, flow: Network) returns (b: bool)
    requires net.labels.Keys <= flow.labels.Keys
    ensures b == IsValidFlow(net, source, sink, flow)
  {
    var remaining := net.labels.Keys;
    while remaining != {}
      invariant remaining <= net.labels.Keys
      invariant forall a | a in net.labels && a !in remaining :: flow.labels[a] >= net.labels[a]
      decreases remaining
    {
      var a :| a in remaining;
      if flow.labels[a] < net.labels[a] {
        return false;
      }
      remaining := remaining - {a};
    }
    b := CheckKeepsFlow(net, source, sink, flow);
  }

  /** With nothing on any arc, the flow is kept. */
  lemma ZeroKeepsFlow(net: Network, source: nat, sink: nat, flow: Network)
    requires forall a | a in flow.labels :: flow.labels[a] == 0
    ensures KeepsFlow(net, source, sink, flow)
  {
    forall x | x in net.nodes && x != Terminal(source) && x != Terminal(sink)
      ensures Carried(flow, x, true) == Carried(flow, x, false)
    {
      TotalZero(Incident(flow.labels.Keys, x, true), flow.labels);
      TotalZero(Incident(flow.labels.Keys, x, false), flow.labels);
    }
  }

  // ---------------------------------------------------------------------------------------
  // Augmenting along a walk
  // ---------------------------------------------------------------------------------------

  /** How many times the walk `path` steps along the arc `a`. */
  function Crossings(path: seq<Node>, a: Arc): nat {
    if |path| < 2 then 0
    else Crossings(path[..|path| - 1], a) + (if (path[|path| - 2], path[|path| - 1]) == a then 1 else 0)
  }

  /** Every step of `path` is an arc of `s`. */
  predicate Steps(s: set<Arc>, path: seq<Node>) {
    forall i | 0 <= i < |path| - 1 :: (path[i], path[i + 1]) in s
  }

  /** The `for u, v in itertools.pairwise(path)` loop of `_build_feasible_flow`: one more
      unit on each step of the walk. */
  method Augment(flow: Network, path: seq<Node>) returns (r: Network)
    requires Steps(flow.labels.Keys, path)
    ensures r.nodes == flow.nodes && r.labels.Keys == flow.labels.Keys
    ensures forall a | a in flow.labels :: r.labels[a] == flow.labels[a] + Crossings(path, a)
  {
    r := flow;
    if |path| == 0 {
      return;
    }
    for i := 1 to |path|
      invariant r.nodes == flow.nodes && r.labels.Keys == flow.labels.Keys
      invariant forall a | a in flow.labels :: r.labels[a] == flow.labels[a] + Crossings(path[..i], a)
    {
      var step := (path[i - 1], path[i]);
      CrossingsPrefix(path, i);
      r := r.(labels := r.labels[step := r.labels[step] + 1]);
    }
    assert path[..|path|] == path;
  }

  lemma CrossingsPrefix(path: seq<Node>, i: nat)
    requires 1 <= i < |path|
    ensures forall a :: Crossings(path[..i + 1], a) == Crossings(path[..i], a) + (if (path[i - 1], path[i]) == a then 1 else 0)
  {
    assert path[..i + 1][..i] == path[..i];
  }

  /** The crossings of a walk, arc by arc. */
  function CrossMap(s: set<Arc>, path: seq<Node>): (m: map<Arc, int>)
    ensures m.Keys == s
  {
    map a | a in s :: Crossings(path, a)
  }

  /** Over arcs holding every step, a walk adds to what enters `x` the times it arrives
      at `x`, and to what leaves `x` the times it departs from it. */
  lemma {:induction false} CrossTotals(s: set<Arc>, path: seq<Node>, x: Node)
    requires |path| >= 1 && Steps(s, path)
    ensures Total(Incident(s, x, true), CrossMap(s, path)) == multiset(path[1..])[x]
    ensures Total(Incident(s, x, false), CrossMap(s, path)) == multiset(path[..|path| - 1])[x]
    decreases |path|
  {
    if |path| == 1 {
      TotalZero(Incident(s, x, true), CrossMap(s, path));
      TotalZero(Incident(s, x, false), CrossMap(s, path));
    } else {
      var q := path[..|path| - 1];
      assert Steps(s, q) by {
        forall i | 0 <= i < |q| - 1
          ensures (q[i], q[i + 1]) in s
        {
          assert (q[i], q[i + 1]) == (path[i], path[i + 1]);
        }
      }
      CrossTotals(s, q, x);
      CrossStep(s, path, x, true);
      CrossStep(s, path, x, false);
      assert path[1..] == q[1..] + [path[|path| - 1]];
      assert q == q[..|q| - 1] + [q[|q| - 1]];
    }
  }

  /** The last step of a walk adds one to the arcs it crosses at its two ends. */
  lemma CrossStep(s: set<Arc>, path: seq<Node>, x: Node, entering: bool)
    requires |path| >= 2 && Steps(s, path)
    ensures var e := (path[|path| - 2], path[|path| - 1]);
      Total(Incident(s, x, entering), CrossMap(s, path))
      == Total(Incident(s, x, entering), CrossMap(s, path[..|path| - 1])) + (if Through(e, x, entering) then 1 else 0)
  {
    var q := path[..|path| - 1];
    var e := (path[|path| - 2], path[|path| - 1]);
    assert e in s;
    var one := map a | a in s :: if a == e then 1 else 0;
    var inc := Incident(s, x, entering);
    TotalAdd(inc, CrossMap(s, q), CrossMap(s, path), one);
    TotalIndicator(inc, one, e);
  }

  /** A walk from the source terminal to the sink terminal arrives at every other node as
      often as it departs, so augmenting along it keeps the flow. */
  lemma AugmentKeepsFlow(net: Network, source: nat, sink: nat, f: Network, g: Network, path: seq<Node>)
    requires f.labels.Keys == g.labels.Keys
    requires |path| >= 1 && path[0] == Terminal(source) && path[|path| - 1] == Terminal(sink)
    requires Steps(f.labels.Keys, path)
    requires forall a | a in f.labels :: g.labels[a] == f.labels[a] + Crossings(path, a)
    requires KeepsFlow(net, source, sink, f)
    ensures KeepsFlow(net, source, sink, g)
  {
    var s := f.labels.Keys;
    forall x | x in net.nodes && x != Terminal(source) && x != Terminal(sink)
      ensures Carried(g, x, true) == Carried(g, x, false)
    {
      TotalAdd(Incident(s, x, true), f.labels, g.labels, CrossMap(s, path));
      TotalAdd(Incident(s, x, false), f.labels, g.labels, CrossMap(s, path));
      CrossTotals(s, path, x);
      assert path == [path[0]] + path[1..];
      assert path == path[..|path| - 1] + [path[|path| - 1]];
      assert multiset(path[1..])[x] == multiset(path)[x];
      assert multiset(path[..|path| - 1])[x] == multiset(path)[x];
    }
  }

  // ---------------------------------------------------------------------------------------
  // What is still missing
  // ---------------------------------------------------------------------------------------

  /** An arc that carries less than the network asks of it. */
  predicate Deficient(net: Network, flow: Network, a: Arc) {
    a in net.labels && a in flow.labels && net.labels[a] > flow.labels[a]
  }

  /** The units each arc still misses. */
  function Shortfalls(net: Network, flow: Network): (m: map<Arc, int>)
    requires flow.labels.Keys == net.labels.Keys
    ensures m.Keys == net.labels.Keys
    ensures forall a | a in m :: m[a] >= 0 && (m[a] > 0 <==> Deficient(net, flow, a))
  {
    map a | a in net.labels :: if net.labels[a] > flow.labels[a] then net.labels[a] - flow.labels[a] else 0
  }

  /** The units still missing over all arcs. */
  ghost function Deficit(net: Network, flow: Network): nat
    requires flow.labels.Keys == net.labels.Keys
  {
    var zero := map a | a in net.labels :: 0;
    TotalMono(net.labels.Keys, zero, Shortfalls(net, flow));
    TotalZero(net.labels.Keys, zero);
    Total(net.labels.Keys, Shortfalls(net, flow))
  }

  /** Raising every arc and strictly raising one that was short lowers what is missing. */
  lemma DeficitDrops(net: Network, f: Network, g: Network, e: Arc)
    requires f.labels.Keys == net.labels.Keys && g.labels.Keys == net.labels.Keys
    requires forall a | a in net.labels :: g.labels[a] >= f.labels[a]
    requires Deficient(net, f, e) && g.labels[e] > f.labels[e]
    ensures Deficit(net, g) < Deficit(net, f)
  {
    var s := net.labels.Keys;
    TotalRemove(s, Shortfalls(net, g), e);
    TotalRemove(s, Shortfalls(net, f), e);
    TotalMono(s - {e}, Shortfalls(net, g), Shortfalls(net, f));
  }

  /** A walk steps along the arc at each of its positions. */
  lemma {:induction false} CrossingsOfStep(path: seq<Node>, i: nat)
    requires i + 1 < |path|
    ensures Crossings(path, (path[i], path[i + 1])) >= 1
    decreases |path|
  {
    if i + 2 < |path| {
      var q := path[..|path| - 1];
      CrossingsOfStep(q, i);
      assert (q[i], q[i + 1]) == (path[i], path[i + 1]);
    }
  }

  // ---------------------------------------------------------------------------------------
  // Searching for a walk
  // ---------------------------------------------------------------------------------------

  /** `neighbors_out(x)`. */
  function Successors(flow: Network, x: Node): (r: set<Node>)
    ensures forall y :: y in r <==> (x, y) in flow.labels
  {
    set a | a in flow.labels && a.0 == x :: a.1
  }

  /** Every arc leaving `s` is not short and ends in `v`. */
  ghost predicate Closed(net: Network, flow: Network, s: set<Node>, v: set<Node>) {
    forall a | a in flow.labels && a.0 in s :: !Deficient(net, flow, a) && a.1 in v
  }

  /** What `_search_zero_edge_path_rec` returns: a walk written backwards, ending at `x`,
      whose first step (taken last) is short. */
  ghost predicate BackwardWalk(net: Network, flow: Network, p: seq<Node>, x: Node) {
    |p| >= 2 && p[|p| - 1] == x && Deficient(net, flow, (p[1], p[0]))
    && forall i | 0 <= i < |p| - 1 :: (p[i + 1], p[i]) in flow.labels
  }

  /** `_search_zero_edge_path_rec`: a depth-first search from `x` for an arc that is still
      short. The shared `visited` set of the source is threaded through as a value. Either
      a walk is found, or every node this call visited is closed: none of its arcs is
      short and all of them lead to visited nodes. */
  method SearchZeroEdgePathRec(net: Network, flow: Network, x: Node, sink: nat, visited: set<Node>)
    returns (path: Option<seq<Node>>, visitedAfter: set<Node>)
    requires FlowOf(net, flow) && x in net.nodes && x !in visited && visited <= net.nodes
    ensures visited + {x} <= visitedAfter <= net.nodes
    ensures path.Some? ==> BackwardWalk(net, flow, path.value, x)
    ensures path.None? ==> Closed(net, flow, visitedAfter - visited, visitedAfter)
    decreases net.nodes - visited
  {
    visitedAfter := visited + {x};
    var next := Successors(flow, x);
    var pending := next;
    while pending != {}
      invariant pending <= next
      invariant visited + {x} <= visitedAfter <= net.nodes
      invariant forall y | y in next && y !in pending :: !Deficient(net, flow, (x, y)) && y in visitedAfter
      invariant Closed(net, flow, visitedAfter - visited - {x}, visitedAfter)
      decreases pending
    {
      var y :| y in pending;
      if net.labels[(x, y)] > flow.labels[(x, y)] {
        return Some([y, x]), visitedAfter;
      }
      if y !in visitedAfter {
        var p, grown := SearchZeroEdgePathRec(net, flow, y, sink, visitedAfter);
        visitedAfter := grown;
        if p.Some? {
          return Some(p.value + [x]), visitedAfter;
        }
      }
      pending := pending - {y};
    }
    path := None;
  }

  /** A walk from `start` along arcs of `flow`. */
  predicate WalkFrom(flow: Network, p: seq<Node>, start: Node) {
    |p| >= 1 && p[0] == start && Steps(flow.labels.Keys, p)
  }

  ghost predicate ShortStep(net: Network, flow: Network, p: seq<Node>) {
    exists i | 0 <= i < |p| - 1 :: Deficient(net, flow, (p[i], p[i + 1]))
  }

  /** Some set holding the source terminal is closed: nothing reachable from the source
      is short. */
  ghost predicate Stuck(net: Network, flow: Network, source: nat) {
    exists v :: Terminal(source) in v && Closed(net, flow, v, v)
  }

  /** `_search_zero_edge_path`: the search from the source terminal, put forwards. When
      nothing is found, the nodes reached from the source form a closed set. */
  method SearchZeroEdgePath(net: Network, flow: Network, source: nat, sink: nat) returns (path: Option<seq<Node>>)
    requires FlowOf(net, flow) && Terminal(source) in net.nodes
    ensures path.Some? ==> WalkFrom(flow, path.value, Terminal(source)) && ShortStep(net, flow, path.value)
    ensures path.None? ==> Stuck(net, flow, source)
  {
    var p, visited := SearchZeroEdgePathRec(net, flow, Terminal(source), sink, {});
    if p.None? {
      assert visited - {} == visited;
      return None;
    }
    var q := Reverse(p.value);
    assert Deficient(net, flow, (q[|q| - 2], q[|q| - 1]));
    return Some(q);
  }

  /** Python's `list.reverse()`. */
  function Reverse(s: seq<Node>): (r: seq<Node>)
    ensures |r| == |s| && forall i | 0 <= i < |s| :: r[i] == s[|s| - 1 - i]
  {
    if |s| == 0 then [] else Reverse(s[1..]) + [s[0]]
  }

  /** What `_search_magnifying_path` returns when it finds something: a walk from the
      source terminal to the sink terminal with a short step. */
  ghost predicate Magnifying(net: Network, flow: Network, source: nat, sink: nat, p: seq<Node>) {
    WalkFrom(flow, p, Terminal(source)) && ShortStep(net, flow, p) && p[|p| - 1] == Terminal(sink)
  }

  /** `_search_magnifying_path`: the walk found is carried on to the sink terminal, each
      time by an arc out of its last node. `next()` on a node with no arc out raises
      `StopIteration`. The walk ends because `rank` falls along every arc: the networks
      built here have no cycle. */
  method SearchMagnifyingPath(net: Network, flow: Network, source: nat, sink: nat, ghost rank: Node -> nat)
    returns (r: Result<Option<seq<Node>>>)
    requires FlowOf(net, flow) && Terminal(source) in net.nodes
    requires forall a | a in net.labels :: rank(a.0) > rank(a.1)
    ensures r.Success? && r.value.Some? ==> Magnifying(net, flow, source, sink, r.value.value)
    ensures r.Success? && r.value.None? ==> Stuck(net, flow, source)
    ensures r.Failure? ==> r.error == "StopIteration"
  {
    var found := SearchZeroEdgePath(net, flow, source, sink);
    if found.None? {
      return Success(None);
    }
    var path := found.value;
    var last := path[|path| - 1];
    while last != Terminal(sink)
      invariant WalkFrom(flow, path, Terminal(source)) && ShortStep(net, flow, path)
      invariant last == path[|path| - 1]
      decreases rank(last)
    {
      var next := Successors(flow, last);
      if next == {} {
        return Failure("StopIteration");
      }
      var y :| y in next;
      path := ExtendWalk(net, flow, path, y);
      last := y;
    }
    return Success(Some(path));
  }

  /** One more step keeps a walk a walk with a short step. */
  function ExtendWalk(net: Network, flow: Network, path: seq<Node>, y: Node): (r: seq<Node>)
    requires |path| >= 1 && (path[|path| - 1], y) in flow.labels
    ensures r == path + [y]
    ensures forall start :: WalkFrom(flow, path, start) ==> WalkFrom(flow, r, start)
    ensures ShortStep(net, flow, path) ==> ShortStep(net, flow, r)
  {
    var r := path + [y];
    assert forall i | 0 <= i < |path| :: r[i] == path[i];
    r
  }

  // ---------------------------------------------------------------------------------------
  // The feasible flow
  // ---------------------------------------------------------------------------------------

  /** `flow = network.copy()` followed by a zero label on every arc. */
  method ZeroFlow(net: Network) returns (flow: Network)
    requires net.Valid()
    ensures FlowOf(net, flow)
    ensures forall a | a in flow.labels :: flow.labels[a] == 0
  {
    flow := net;
    var remaining := net.labels.Keys;
    while remaining != {}
      invariant remaining <= net.labels.Keys
      invariant flow.nodes == net.nodes && flow.labels.Keys == net.labels.Keys
      invariant forall a | a in flow.labels && a !in remaining :: flow.labels[a] == 0
      decreases remaining
    {
      var a :| a in remaining;
      flow := flow.(labels := flow.labels[a := 0]);
      remaining := remaining - {a};
    }
  }

  /** A kept flow of `net` that carries nothing negative. */
  ghost predicate Kept(net: Network, source: nat, sink: nat, flow: Network) {
    FlowOf(net, flow) && KeepsFlow(net, source, sink, flow) && forall a | a in flow.labels :: flow.labels[a] >= 0
  }

  /** `_build_feasible_flow`: from the zero flow, one unit along each walk the search
      finds, until it finds none. The flow is kept at every step, no arc ever carries a
      negative amount, and when the loop stops the nodes reached from the source form a
      closed set: none of their arcs is still short. The loop ends because each walk
      passes a short arc, so the units missing fall at every round. */
  method BuildFeasibleFlow(net: Network, source: nat, sink: nat, ghost rank: Node -> nat) returns (r: Result<Network>)
    requires net.Valid() && Terminal(source) in net.nodes
    requires forall a | a in net.labels :: rank(a.0) > rank(a.1)
    ensures r.Success? ==> Kept(net, source, sink, r.value) && Stuck(net, r.value, source)
    ensures r.Failure? ==> r.error == "StopIteration"
  {
    var flow := ZeroFlow(net);
    ZeroKeepsFlow(net, source, sink, flow);
    var found := SearchMagnifyingPath(net, flow, source, sink, rank);
    if found.Failure? {
      return Failure(found.error);
    }
    var path := found.value;
    while path.Some?
      invariant Kept(net, source, sink, flow)
      invariant path.Some? ==> Magnifying(net, flow, source, sink, path.value)
      invariant path.None? ==> Stuck(net, flow, source)
      decreases Deficit(net, flow)
    {
      flow := AugmentRound(net, source, sink, flow, path.value);
      found := SearchMagnifyingPath(net, flow, source, sink, rank);
      if found.Failure? {
        return Failure(found.error);
      }
      path := found.value;
    }
    return Success(flow);
  }

  /** One round of `_build_feasible_flow`'s loop: the flow stays kept and non-negative,
      and fewer units are missing. */
  method AugmentRound(net: Network, source: nat, sink: nat, flow: Network, path: seq<Node>) returns (next: Network)
    requires Kept(net, source, sink, flow) && Magnifying(net, flow, source, sink, path)
    ensures Kept(net, source, sink, next)
    ensures Deficit(net, next) < Deficit(net, flow)
  {
    next := Augment(flow, path);
    AugmentKeepsFlow(net, source, sink, flow, next, path);
    var i :| 0 <= i < |path| - 1 && Deficient(net, flow, (path[i], path[i + 1]));
    CrossingsOfStep(path, i);
    DeficitDrops(net, flow, next, (path[i], path[i + 1]));
  }

  // ---------------------------------------------------------------------------------------
  // The residual network
  // ---------------------------------------------------------------------------------------

  /** No arc runs both ways. */
  ghost predicate NoAntiparallel(net: Network) {
    forall u: Node, v: Node | (u, v) in net.labels :: (v, u) !in net.labels
  }

  /** A network whose nodes can be ranked so that every arc falls has no arc both ways. */
  lemma RankedNoAntiparallel(net: Network, rank: Node -> nat)
    requires forall a | a in net.labels :: rank(a.0) > rank(a.1)
    ensures NoAntiparallel(net)
  {
    forall u: Node, v: Node | (u, v) in net.labels
      ensures (v, u) !in net.labels
    {
      assert rank(u) > rank(v);
    }
  }

  /** The arcs of a residual network built from the arcs `done`: each one both ways. */
  ghost predicate ResidualArcs(done: set<Arc>, residual: Network) {
    forall u: Node, v: Node :: (u, v) in residual.labels <==> (u, v) in done || (v, u) in done
  }

  /** The labels of a residual network on the arcs `done`: the room left under `capacity`
      forwards, the units above the lower bound backwards. */
  ghost predicate ResidualLabels(net: Network, flow: Network, capacity: int, done: set<Arc>, residual: Network)
    requires done <= net.labels.Keys && done <= flow.labels.Keys
  {
    forall u: Node, v: Node | (u, v) in done ::
      (u, v) in residual.labels && (v, u) in residual.labels
      && residual.labels[(u, v)] == capacity - flow.labels[(u, v)] && residual.labels[(v, u)] == flow.labels[(u, v)] - net.labels[(u, v)]
  }

  /** `_make_residual_network`: for each arc of the flow, the room left under `capacity`
      forwards and the units above the lower bound backwards. Sage's `add_edge`
      overwrites the label of an arc already there, so the labels are the ones stated
      only when no arc runs both ways, as in the networks built here. */
  method MakeResidualNetwork(net: Network, flow: Network, capacity: int) returns (residual: Network)
    requires FlowOf(net, flow)
    ensures residual.Valid()
    ensures ResidualArcs(net.labels.Keys, residual)
    ensures NoAntiparallel(net) ==> ResidualLabels(net, flow, capacity, net.labels.Keys, residual)
  {
    residual := Network({}, map[]);
    var remaining := flow.labels.Keys;
    ghost var done: set<Arc> := {};
    while remaining != {}
      invariant remaining <= net.labels.Keys && done <= net.labels.Keys
      invariant forall x | x in net.labels :: x in done <==> x !in remaining
      invariant residual.Valid()
      invariant ResidualArcs(done, residual)
      invariant NoAntiparallel(net) ==> ResidualLabels(net, flow, capacity, done, residual)
      decreases remaining
    {
      var a :| a in remaining;
      var forward := AddArc(residual, a, capacity - flow.labels[a]);
      var both := AddArc(forward, (a.1, a.0), flow.labels[a] - net.labels[a]);
      ResidualArcsStep(done, a, residual, both);
      if NoAntiparallel(net) {
        ResidualLabelsStep(net, flow, capacity, done, a, residual, both);
      }
      residual := both;
      done := done + {a};
      remaining := remaining - {a};
    }
    assert done == net.labels.Keys;
  }

  lemma ResidualArcsStep(done: set<Arc>, a: Arc, residual: Network, both: Network)
    requires ResidualArcs(done, residual)
    requires both.labels.Keys == residual.labels.Keys + {a, (a.1, a.0)}
    ensures ResidualArcs(done + {a}, both)
  {
  }

  /** With no arc both ways, the new arc and its reverse clash with no earlier one. */
  lemma ResidualLabelsStep(net: Network, flow: Network, capacity: int, done: set<Arc>, a: Arc, residual: Network, both: Network)
    requires NoAntiparallel(net) && a in net.labels && a in flow.labels && a !in done
    requires done <= net.labels.Keys && done <= flow.labels.Keys
    requires ResidualLabels(net, flow, capacity, done, residual)
    requires both.labels == residual.labels[a := capacity - flow.labels[a]][(a.1, a.0) := flow.labels[a] - net.labels[a]]
    ensures ResidualLabels(net, flow, capacity, done + {a}, both)
  {
    assert (a.1, a.0) !in net.labels;
    forall b | b in done
      ensures b != (a.1, a.0) && (b.1, b.0) != a
    {
      assert (b.1, b.0) !in net.labels;
    }
  }
}
