/** The graph search of thinness/z3_backtracking.py without its solver: the push/pop
    graph stack (`ExtendableGraph`), the buckets of solved graphs (`SolvedGraphs`), and
    the push, recurse, pop skeleton of `backtrack_graphs`. Canonical labelling,
    connectivity and the Z3 thinness solver are oracles passed in as functions. */
module Z3Backtracking {
  import opened Wrappers
  import opened Graphs
  import opened Itertools
  import opened Utils

  // ---------------------------------------------------------------------------------
  // SolvedGraph, SolvedGraphs

  /** The frozen record `SolvedGraph`: a canonical label and the thinness found, `None`
      when none was computed. */
  datatype SolvedGraph = SolvedGraph(canonicalLabel: string, thinness: Option<nat>)

  /** A Python value as `in` compares it: a label string or a `SolvedGraph` record. */
  datatype PyValue = Str(s: string) | Record(r: SolvedGraph)

  /** `canonical_label in bucket`, as written: the bucket holds records, the probe is a
      string, and a string never equals a record. */
  function ContainsAsWritten(bucket: set<SolvedGraph>, name: string): bool {
    Str(name) in (set r | r in bucket :: Record(r))
  }

  /** The evident intent of `contains`: some record of the bucket carries the label. */
  predicate HasLabel(bucket: set<SolvedGraph>, name: string) {
    exists r | r in bucket :: r.canonicalLabel == name
  }

  /** As written, `contains` is false even right after `add` stored a record with that
      very label: the memo never hits. */
  lemma ContainsAsWrittenNeverHits(bucket: set<SolvedGraph>, name: string, thinness: Option<nat>)
    ensures !ContainsAsWritten(bucket + {SolvedGraph(name, thinness)}, name)
  {
  }

  /** With the label comparison, a record just added is found, and records are never
      lost by adding more. */
  lemma HasLabelAfterAdd(bucket: set<SolvedGraph>, name: string, record: SolvedGraph)
    ensures HasLabel(bucket + {SolvedGraph(name, record.thinness)}, name)
    ensures HasLabel(bucket, name) ==> HasLabel(bucket + {record}, name)
  {
    assert SolvedGraph(name, record.thinness) in bucket + {SolvedGraph(name, record.thinness)};
  }

  /** `SolvedGraphs`: one bucket of records per vertex count 0..n. */
  class SolvedGraphs {
    var graphs: seq<set<SolvedGraph>>

    /** `SolvedGraphs(number_of_vertices)`: n + 1 empty buckets. */
    constructor (numberOfVertices: nat)
      ensures |graphs| == numberOfVertices + 1
      ensures forall i | 0 <= i < |graphs| :: graphs[i] == {}
    {
      graphs := seq(numberOfVertices + 1, _ => {});
    }

    /** `add(graph, number_of_vertices)`: the record goes into the bucket of its vertex
        count; an index past the last bucket raises `IndexError` (false). */
    method Add(graph: SolvedGraph, numberOfVertices: nat) returns (ok: bool)
      modifies this
      ensures ok <==> numberOfVertices < |old(graphs)|
      ensures ok ==> graphs == old(graphs)[numberOfVertices := old(graphs)[numberOfVertices] + {graph}]
      ensures !ok ==> graphs == old(graphs)
    {
      if numberOfVertices >= |graphs| {
        return false;
      }
      graphs := graphs[numberOfVertices := graphs[numberOfVertices] + {graph}];
      return true;
    }

    /** `contains(canonical_label, number_of_vertices)`, corrected to compare labels;
        `IndexError` past the last bucket. */
    method Contains(name: string, numberOfVertices: nat) returns (r: Result<bool>)
      ensures r.Success? <==> numberOfVertices < |graphs|
      ensures r.Success? ==> (r.value <==> HasLabel(graphs[numberOfVertices], name))
    {
      if numberOfVertices >= |graphs| {
        return Failure("IndexError");
      }
      return Success(exists g | g in graphs[numberOfVertices] :: g.canonicalLabel == name);
    }
  }

  // ---------------------------------------------------------------------------------
  // ExtendableGraph

  /** `graph.add_edges((new_vertex, w) for w in adjacency_list)`, edge by edge. */
  function AddEdgesFrom(g: Graph, v: nat, adjacency: seq<nat>): (r: Graph)
    ensures r.vertices == g.vertices + {v} + set w | w in adjacency
    ensures g.edges <= r.edges
    ensures forall e | e in r.edges :: e in g.edges || (e.0 == v && e.1 in adjacency)
  {
    if adjacency == [] then Graph(g.vertices + {v}, g.edges)
    else AddEdgesFrom(g, v, adjacency[..|adjacency| - 1]).AddEdge(v, adjacency[|adjacency| - 1])
  }

  /** After the push, the new vertex is adjacent to every vertex of its list. */
  lemma {:induction false} AddEdgesAdjacent(g: Graph, v: nat, adjacency: seq<nat>, w: nat)
    requires w in adjacency
    ensures AddEdgesFrom(g, v, adjacency).HasEdge(v, w)
  {
    var prefix := adjacency[..|adjacency| - 1];
    if w in prefix {
      AddEdgesAdjacent(g, v, prefix, w);
    } else {
      assert w == adjacency[|adjacency| - 1];
    }
  }

  /** Pushing a new vertex keeps a graph simple when it is not in its own list. */
  lemma AddEdgesValid(g: Graph, v: nat, adjacency: seq<nat>)
    requires g.Valid() && v !in adjacency
    ensures AddEdgesFrom(g, v, adjacency).Valid()
  {
  }

  /** Deleting a freshly pushed vertex gives the graph back, when its list named only
      vertices already there. */
  lemma PushPopRestores(g: Graph, v: nat, adjacency: seq<nat>)
    requires g.Valid() && v !in g.vertices
    requires forall w | w in adjacency :: w in g.vertices
    ensures AddEdgesFrom(g.AddVertex(v), v, adjacency).DeleteVertex(v) == g
  {
    var h := AddEdgesFrom(g.AddVertex(v), v, adjacency);
    assert h.vertices - {v} == g.vertices;
    assert (set e | e in h.edges && e.0 != v && e.1 != v) == g.edges by {
      forall e | e in g.edges
        ensures e.0 != v && e.1 != v
      {
      }
    }
  }

  /** `ExtendableGraph`: a Sage graph and the stack of vertices pushed onto it. */
  class ExtendableGraph {
    var graph: Graph
    var pushed: seq<nat>

    constructor ()
      ensures graph == Graph({}, {}) && pushed == []
    {
      graph := Graph({}, {});
      pushed := [];
    }

    /** `push_vertex(new_vertex, adjacency_list)`: add the vertex, an edge to each listed
        vertex, and remember the vertex on the stack. */
    method PushVertex(newVertex: nat, adjacency: seq<nat>)
      requires newVertex !in adjacency
      modifies this
      ensures graph == AddEdgesFrom(old(graph).AddVertex(newVertex), newVertex, adjacency)
      ensures pushed == old(pushed) + [newVertex]
    {
      graph := graph.AddVertex(newVertex);
      for i := 0 to |adjacency|
        invariant graph == AddEdgesFrom(old(graph).AddVertex(newVertex), newVertex, adjacency[..i])
        invariant pushed == old(pushed)
      {
        assert adjacency[..i + 1][..i] == adjacency[..i];
        graph := graph.AddEdge(newVertex, adjacency[i]);
      }
      assert adjacency[..|adjacency|] == adjacency;
      pushed := pushed + [newVertex];
    }

    /** `pop_vertex()`: delete the most recently pushed vertex. An empty stack raises
        `IndexError`; a popped vertex no longer in the graph makes `delete_vertex` raise
        after the stack has shrunk. */
    method PopVertex() returns (ok: bool)
      modifies this
      ensures ok <==> old(pushed) != [] && old(pushed)[|old(pushed)| - 1] in old(graph).vertices
      ensures old(pushed) != [] ==> pushed == old(pushed)[..|old(pushed)| - 1]
      ensures old(pushed) == [] ==> pushed == old(pushed)
      ensures ok ==> graph == old(graph).DeleteVertex(old(pushed)[|old(pushed)| - 1])
      ensures !ok ==> graph == old(graph)
    {
      if pushed == [] {
        return false;
      }
      var vertex := pushed[|pushed| - 1];
      pushed := pushed[..|pushed| - 1];
      if vertex !in graph.vertices {
        return false;
      }
      graph := graph.DeleteVertex(vertex);
      return true;
    }
  }

  // ---------------------------------------------------------------------------------
  // backtrack_graphs

  /** The module-level `quantity_solved` counter: the search stops once it reaches 100. */
  class SolveCounter {
    var quantitySolved: nat

    constructor ()
      ensures quantitySolved == 0
    {
      quantitySolved := 0;
    }
  }

  /** The graphs the search visits: vertices 0..k-1 and no loops. */
  predicate Layered(g: Graph) {
    g.Valid() && g.vertices == Range(|g.vertices|)
  }

  /** A list from `subsets(list(range(k)))` names distinct vertices below k. */
  lemma SubsetOfRange(k: nat, adjacency: seq<nat>)
    requires adjacency in AllSubsets(Iota(k))
    ensures forall w | w in adjacency :: w < k
  {
    AllSubsetsShape(Iota(k));
    var idx :| Increasing(idx, k) && |idx| == |adjacency| && adjacency == Pick(Iota(k), idx);
    forall w | w in adjacency
      ensures w < k
    {
      var m :| 0 <= m < |adjacency| && adjacency[m] == w;
      assert w == idx[m];
    }
  }

  /** A pushed graph of the search stays layered, one vertex larger. */
  lemma PushLayered(g: Graph, adjacency: seq<nat>)
    requires Layered(g) && forall w | w in adjacency :: w < |g.vertices|
    ensures |g.vertices| !in adjacency && |g.vertices| !in g.vertices
    ensures Layered(AddEdgesFrom(g.AddVertex(|g.vertices|), |g.vertices|, adjacency))
    ensures |AddEdgesFrom(g.AddVertex(|g.vertices|), |g.vertices|, adjacency).vertices| == |g.vertices| + 1
  {
    var k := |g.vertices|;
    var h := AddEdgesFrom(g.AddVertex(k), k, adjacency);
    AddEdgesValid(g.AddVertex(k), k, adjacency);
    assert h.vertices == Range(k + 1);
    RangeSize(k + 1);
  }

  /** Buckets only ever gain records. */
  ghost predicate Grown(before: seq<set<SolvedGraph>>, after: seq<set<SolvedGraph>>) {
    |after| == |before| && forall i | 0 <= i < |before| :: before[i] <= after[i]
  }

  /** `backtrack_graphs(solver, graph, number_of_vertices, solved_graphs)`: unless the
      counter has reached 100 or the graph's name is already solved, extend the graph by
      a new vertex joined to each subset of the current vertices in turn, recurse, and pop
      it again; a graph of the full size is handed to `process_graph` instead. Then the
      name is recorded with the thinness found. `canonical`, `connected` and `solve`
      stand for Sage's canonical label, Sage's connectivity test and the Z3 solver. */
  method BacktrackGraphs(eg: ExtendableGraph, n: nat, solved: SolvedGraphs, counter: SolveCounter,
                         canonical: Graph -> string, connected: Graph -> bool, solve: Graph -> Option<nat>)
    requires Layered(eg.graph) && |eg.graph.vertices| <= n && |solved.graphs| == n + 1
    modifies eg, solved, counter
    ensures eg.graph == old(eg.graph) && eg.pushed == old(eg.pushed)
    ensures Grown(old(solved.graphs), solved.graphs)
    ensures old(counter.quantitySolved) != 100 ==>
              HasLabel(solved.graphs[|old(eg.graph.vertices)|], canonical(old(eg.graph)))
    decreases n - |eg.graph.vertices|
  {
    if counter.quantitySolved == 100 {
      return;
    }
    var name := canonical(eg.graph);
    var current := |eg.graph.vertices|;
    var found := solved.Contains(name, current);
    if found.Success? && found.value {
      return;
    }
    var thinness: Option<nat> := None;
    if current == n {
      thinness := ProcessGraph(eg.graph, counter, connected, solve);
    } else {
      var lists := AllSubsets(Iota(current));
      for i := 0 to |lists|
        invariant eg.graph == old(eg.graph) && eg.pushed == old(eg.pushed)
        invariant Grown(old(solved.graphs), solved.graphs)
      {
        var adjacency := lists[i];
        SubsetOfRange(current, adjacency);
        PushLayered(eg.graph, adjacency);
        PushPopRestores(eg.graph, current, adjacency);
        eg.PushVertex(current, adjacency);
        BacktrackGraphs(eg, n, solved, counter, canonical, connected, solve);
        var popped := eg.PopVertex();
      }
    }
    ghost var before := solved.graphs;
    var added := solved.Add(SolvedGraph(name, thinness), current);
    HasLabelAfterAdd(before[current], name, SolvedGraph(name, thinness));
  }

  /** `process_graph(graph, solver)`: a connected graph is counted and solved; any other
      gives `None`. */
  method ProcessGraph(g: Graph, counter: SolveCounter, connected: Graph -> bool, solve: Graph -> Option<nat>)
      returns (thinness: Option<nat>)
    modifies counter
    ensures connected(g) ==> thinness == solve(g) && counter.quantitySolved == old(counter.quantitySolved) + 1
    ensures !connected(g) ==> thinness.None? && counter.quantitySolved == old(counter.quantitySolved)
  {
    if connected(g) {
      counter.quantitySolved := counter.quantitySolved + 1;
      return solve(g);
    }
    return None;
  }

  /** `solve_graphs(number_of_vertices)`: run the search from the empty graph and return
      the bucket of full-size graphs. The empty graph's label is always recorded. */
  method SolveGraphs(n: nat, counter: SolveCounter, canonical: Graph -> string,
                     connected: Graph -> bool, solve: Graph -> Option<nat>)
      returns (full: set<SolvedGraph>, ghost empty: set<SolvedGraph>)
    requires counter.quantitySolved != 100
    modifies counter
    ensures HasLabel(empty, canonical(Graph({}, {})))
    ensures n == 0 ==> full == empty
  {
    var eg := new ExtendableGraph();
    var solved := new SolvedGraphs(n);
    assert Layered(eg.graph);
    BacktrackGraphs(eg, n, solved, counter, canonical, connected, solve);
    full := solved.graphs[n];
    empty := solved.graphs[0];
  }
}
