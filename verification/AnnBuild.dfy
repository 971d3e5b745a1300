/** maludb_ann_build_c of src/maludb_ann.c: the insertion loop over the edge arrays, proved to perform a run
    of the build described by module AnnTheorems. */
module AnnBuild {
  import opened Selection
  import opened Heaps
  import opened Metrics
  import opened Bitset
  import opened Beam
  import opened Nsw
  import opened BuildSpec
  import opened AnnTheorems

  /** Row a of the arrays: the used slots come first and cache their distances, the rest are -1. */
  ghost predicate StoresRow(g: AnnGraph, a: nat, row: Row)
    requires g.Shape() && a < g.edges.Length0
    reads g, g.edges, g.edgeDists
  {
    && |row| <= g.m
    && (forall e :: 0 <= e < |row| ==> row[e].id >= 0 && g.edges[a, e] == row[e].id && g.edgeDists[a, e] == row[e].dist)
    && (forall e :: |row| <= e < g.m ==> g.edges[a, e] == -1)
  }

  ghost predicate Stores(g: AnnGraph, rows: seq<Row>)
    requires g.Shape()
    reads g, g.edges, g.edgeDists
  {
    |rows| == g.edges.Length0 && forall a :: 0 <= a < |rows| ==> StoresRow(g, a, rows[a])
  }

  lemma StoresWires(g: AnnGraph, rows: seq<Row>)
    requires g.Shape() && Stores(g, rows)
    ensures g.Wired(Adj(rows))
  {
    forall a, e | 0 <= a < |rows| && 0 <= e < g.m && g.edges[a, e] >= 0
      ensures g.edges[a, e] in IdSet(rows[a])
    {
      assert StoresRow(g, a, rows[a]);
      assert rows[a][e] in rows[a];
    }
    forall a, b | 0 <= a < |rows| && b in IdSet(rows[a])
      ensures exists e :: 0 <= e < g.m && g.edges[a, e] == b
    {
      assert StoresRow(g, a, rows[a]);
      var c: Cand :| c in rows[a] && c.id == b;
      var e :| 0 <= e < |rows[a]| && rows[a][e] == c;
      assert g.edges[a, e] == b;
    }
  }

  /** The slot scan of ann_set_edge: a free slot, or else the first farthest one. */
  method FindSlot(g: AnnGraph, a: nat, ghost row: Row) returns (empty: int, worst: nat)
    requires g.Shape() && a < g.edges.Length0 && StoresRow(g, a, row)
    ensures if |row| < g.m then empty == |row| else empty == -1 && (|row| > 0 ==> worst == Worst(row, |row|))
  {
    empty, worst := -1, 0;
    for e := 0 to g.m
      invariant e <= |row| && empty == -1
      invariant worst == if e == 0 then 0 else Worst(row, e)
    {
      if g.edges[a, e] == -1 {
        empty := e;
        break;
      }
      if g.edgeDists[a, e] > g.edgeDists[a, worst] {
        worst := e;
      }
    }
  }

  /** ann_set_edge. */
  method SetEdgeSlot(g: AnnGraph, a: nat, b: nat, dist: real, ghost rows: seq<Row>)
    requires g.Shape() && Stores(g, rows) && a < |rows| && g.m > 0
    modifies g.edges, g.edgeDists
    ensures Stores(g, rows[a := SetEdge(rows[a], g.m, Entry(b, dist, ()))])
  {
    assert StoresRow(g, a, rows[a]);
    var empty, worst := FindSlot(g, a, rows[a]);
    if empty >= 0 {
      g.edges[a, empty] := b;
      g.edgeDists[a, empty] := dist;
    } else if dist < g.edgeDists[a, worst] {
      g.edges[a, worst] := b;
      g.edgeDists[a, worst] := dist;
    }
    assert StoresRow(g, a, SetEdge(rows[a], g.m, Entry(b, dist, ())));
    forall x | 0 <= x < |rows| && x != a
      ensures StoresRow(g, x, rows[x])
    {
      assert old(StoresRow(g, x, rows[x]));
    }
  }

  lemma UnitLoad(c: Cand)
    ensures c == Entry(c.id, c.dist, ())
  {
    match c.load
    case () =>
  }

  /** The two ann_set_edge calls for one neighbour. */
  method LinkOne(g: AnnGraph, i: nat, c: Cand, ghost rows: seq<Row>)
    requires g.Shape() && Stores(g, rows) && i < |rows| && g.m > 0 && 0 <= c.id < i
    modifies g.edges, g.edgeDists
    ensures Stores(g, Link(rows, g.m, i, c))
  {
    UnitLoad(c);
    SetEdgeSlot(g, i, c.id, c.dist, rows);
    SetEdgeSlot(g, c.id, i, c.dist, rows[i := SetEdge(rows[i], g.m, c)]);
  }

  /** Links node i to everything its search found, both ways. */
  method LinkFound(g: AnnGraph, i: nat, topm: array<Cand>, found: nat, ghost rows: seq<Row>)
    requires g.Shape() && Stores(g, rows) && i < |rows| && g.m > 0 && found <= topm.Length
    requires forall e :: e in topm[..found] ==> 0 <= e.id < i
    modifies g.edges, g.edgeDists
    ensures Stores(g, LinkAll(rows, g.m, i, topm[..found]))
  {
    ghost var all := topm[..found];
    for j := 0 to found
      invariant forall e :: e in all[..j] ==> 0 <= e.id < i
      invariant Stores(g, LinkAll(rows, g.m, i, all[..j]))
    {
      assert topm[j] == all[j] && all[j] in all;
      assert all[..j + 1][..j] == all[..j];
      LinkOne(g, i, topm[j], LinkAll(rows, g.m, i, all[..j]));
    }
    assert all[..found] == all;
  }

  /** The distance between nodes, and 0 off the graph. */
  ghost function Between(metric: Metric, nodes: seq<Vector>, a: int, b: int): real {
    if 0 <= a < |nodes| && 0 <= b < |nodes| && |nodes[a]| == |nodes[b]| then Distance(metric, nodes[a], nodes[b])
    else 0.0
  }

  ghost function Pairwise(metric: Metric, nodes: seq<Vector>): (int, int) -> real {
    (a: int, b: int) => Between(metric, nodes, a, b)
  }

  lemma PairwiseSymmetric(metric: Metric, nodes: seq<Vector>)
    ensures Symmetric(Pairwise(metric, nodes))
  {
    forall a, b
      ensures Between(metric, nodes, a, b) == Between(metric, nodes, b, a)
    {
      if 0 <= a < |nodes| && 0 <= b < |nodes| && |nodes[a]| == |nodes[b]| {
        DistanceSymmetric(metric, nodes[a], nodes[b]);
      }
    }
  }

  lemma PairwiseMeasures(metric: Metric, nodes: seq<Vector>, dim: nat, q: nat, n: nat)
    requires q < |nodes| && n <= |nodes| && forall i :: 0 <= i < |nodes| ==> |nodes[i]| == dim
    ensures Measures(From(Pairwise(metric, nodes), q), metric, nodes[q], nodes, n)
  {
  }

  /** The arrays hold a complete run over all the nodes, made under this metric. */
  ghost predicate BuiltBy(g: AnnGraph, metric: Metric, ef: nat, run: Run)
    reads g, g.edges, g.edgeDists
  {
    && g.Shape() && 0 < g.nNodes == |g.embeddings| == |run.log| && g.entryNode == 0 && g.m > 0
    && IsRun(Pairwise(metric, g.embeddings), g.nNodes, g.m, ef, run)
    && Stores(g, Built(run))
  }

  datatype BuildResult = BadM | BadEf | Empty | MixedDims(row: nat) | Index(g: AnnGraph)

  /** Row i is the first whose dimension is not that of the first row. */
  predicate FirstMismatch(embeddings: seq<Vector>, i: nat) {
    0 < i < |embeddings| && |embeddings[i]| != |embeddings[0]|
    && forall j :: 0 <= j < i ==> |embeddings[j]| == |embeddings[0]|
  }

  /** The graph holds a run that has inserted nodes 0..i-1. */
  ghost predicate Holds(g: AnnGraph, ef: nat, run: Run, i: nat)
    reads g, g.edges, g.edgeDists
  {
    && g.Shape() && g.nNodes == |g.embeddings| && g.entryNode == 0 && g.m > 0
    && 0 < i == |run.log| <= g.nNodes
    && IsRun(Pairwise(g.metric, g.embeddings), g.nNodes, g.m, ef, run)
    && Stores(g, run.states[i - 1])
  }

  /** Searches the graph of nodes 0..i-1 for node i, with the node count lowered meanwhile. */
  method SearchForNode(g: AnnGraph, i: nat, ef: nat, visited: Bitset, cand: array<Cand>, results: array<Cand>,
                       topm: array<Cand>, ghost run: Run)
    returns (found: nat)
    requires Holds(g, ef, run, i) && i < g.nNodes && ef > 0
    requires g.nNodes <= visited.limit <= 64 * visited.bits.Length && g.nNodes <= cand.Length
    requires ef + 1 <= results.Length && ef + 1 <= topm.Length
    requires cand != results && topm != results && topm != cand
    modifies g`nNodes, visited.bits, cand, results, topm
    ensures Holds(g, ef, run, i) && g.nNodes == old(g.nNodes) && found <= topm.Length
    ensures Found(Adj(run.states[i - 1]), From(Pairwise(g.metric, g.embeddings), i), i, 0, Width(g.m, ef, ef + 1), g.m,
      topm[..found])
  {
    ghost var D := Pairwise(g.metric, g.embeddings);
    ghost var adj := Adj(run.states[i - 1]);
    PairwiseSymmetric(g.metric, g.embeddings);
    BuiltIsValid(D, g.nNodes, g.m, ef, run, i - 1);
    PairwiseMeasures(g.metric, g.embeddings, g.dim, i, i);
    StoresWires(g, run.states[i - 1]);
    var saved := g.nNodes;
    g.nNodes := i;
    found := NswSearch(g, g.embeddings[i], g.m, ef, visited, cand, results, ef + 1, topm, adj, From(D, i));
    g.nNodes := saved;
  }

  /** One turn of the build loop. */
  method InsertNode(g: AnnGraph, i: nat, ef: nat, visited: Bitset, cand: array<Cand>, results: array<Cand>,
                    topm: array<Cand>, ghost run: Run)
    returns (ghost run': Run)
    requires Holds(g, ef, run, i) && i < g.nNodes && ef > 0
    requires g.nNodes <= visited.limit <= 64 * visited.bits.Length && g.nNodes <= cand.Length
    requires ef + 1 <= results.Length && ef + 1 <= topm.Length
    requires cand != results && topm != results && topm != cand
    modifies g`nNodes, g.edges, g.edgeDists, visited.bits, cand, results, topm
    ensures Holds(g, ef, run', i + 1) && g.nNodes == old(g.nNodes)
  {
    var found := SearchForNode(g, i, ef, visited, cand, results, topm, run);
    ghost var D := Pairwise(g.metric, g.embeddings);
    ghost var next := topm[..found];
    ghost var rows := run.states[i - 1];
    FoundIsFound(Adj(rows), From(D, i), i, 0, Width(g.m, ef, ef + 1), g.m, next);
    LinkFound(g, i, topm, found, rows);
    run' := Run(run.log + [next], run.states + [LinkAll(rows, g.m, i, next)]);
    NewStep(D, g.nNodes, g.m, ef, run, run', next);
    RunGoesOn(D, g.nNodes, g.m, ef, run, run');
  }

  /** maludb_ann_build_c without the table scan: builds the index over the given embeddings. */
  method Build(metric: Metric, m: int, ef: int, embeddings: seq<Vector>) returns (r: BuildResult, ghost run: Run)
    ensures r.BadM? <==> m <= 0
    ensures r.BadEf? <==> m > 0 && ef <= 0
    ensures r.Empty? <==> m > 0 && ef > 0 && embeddings == []
    ensures r.MixedDims? <==> m > 0 && ef > 0 && exists i :: FirstMismatch(embeddings, i)
    ensures r.MixedDims? ==> FirstMismatch(embeddings, r.row)
    ensures r.Index? ==> fresh(r.g) && r.g.metric == metric && r.g.embeddings == embeddings && r.g.m == m
    ensures r.Index? ==> BuiltBy(r.g, metric, ef, run)
  {
    run := Run([], []);
    if m <= 0 { return BadM, run; }
    if ef <= 0 { return BadEf, run; }
    if embeddings == [] { return Empty, run; }
    var dim := |embeddings[0]|;
    for i := 0 to |embeddings|
      invariant forall j :: 0 <= j < i ==> |embeddings[j]| == dim
    {
      if |embeddings[i]| != dim {
        assert FirstMismatch(embeddings, i);
        return MixedDims(i), run;
      }
    }
    var g := new AnnGraph(metric, dim, m, embeddings);
    run := Fill(g, ef);
    r := Index(g);
  }

  /** The insertion loop. Node 0 is the seed. */
  method Fill(g: AnnGraph, ef: nat) returns (ghost run: Run)
    requires g.Shape() && 0 < g.nNodes == |g.embeddings| && g.entryNode == 0 && g.m > 0 && ef > 0
    requires forall a, e :: 0 <= a < g.nNodes && 0 <= e < g.m ==> g.edges[a, e] == -1
    modifies g`nNodes, g.edges, g.edgeDists
    ensures BuiltBy(g, g.metric, ef, run) && g.nNodes == old(g.nNodes)
  {
    var n := g.nNodes;
    var visited := new Bitset(n);
    var cand := NewBuffer(n + 1);
    var results := NewBuffer(ef + 1);
    var topm := NewBuffer(ef + 1);
    run := Run([[]], [EmptyRows(n)]);
    for i := 1 to n
      invariant Holds(g, ef, run, i) && g.nNodes == n
    {
      run := InsertNode(g, i, ef, visited, cand, results, topm, run);
    }
  }

  method NewBuffer(n: nat) returns (a: array<Cand>)
    ensures fresh(a) && a.Length == n
  {
    a := new Cand[n](_ => Entry(0, 0.0, ()));
  }

  // ---------- searching a built index ----------

  ghost function ToQuery(metric: Metric, query: Vector, nodes: seq<Vector>, i: int): real {
    if 0 <= i < |nodes| && |nodes[i]| == |query| then Distance(metric, query, nodes[i]) else 0.0
  }

  ghost function FromQuery(metric: Metric, query: Vector, nodes: seq<Vector>): int -> real {
    (i: int) => ToQuery(metric, query, nodes, i)
  }

  datatype SearchResult = BadLimit | WrongDim | Ranked(hits: seq<Cand>)

  /** A graph that can be searched: its rows list valid neighbours; no edge distances are needed. */
  ghost predicate Searchable(g: AnnGraph, adj: Graph)
    reads g, g.edges
  {
    g.Shape() && g.nNodes == |g.embeddings| && g.Wired(adj) && ValidGraph(adj, g.nNodes)
  }

  /** maludb_ann_search_c on a decoded index: the caller may override the metric the index was built with. */
  method Search(g: AnnGraph, query: Vector, k: int, efSearch: int, override: Metric, ghost adj: Graph)
    returns (r: SearchResult)
    requires Searchable(g, adj)
    modifies g`metric
    ensures r.BadLimit? <==> k <= 0
    ensures r.WrongDim? <==> k > 0 && |query| != g.dim
    ensures r.Ranked? && g.nNodes == 0 ==> r.hits == []
    ensures r.Ranked? && g.nNodes > 0 ==> Found(adj, FromQuery(override, query, g.embeddings), g.nNodes,
      EntryOf(g.entryNode, g.nNodes), if efSearch < k then k else efSearch, k, r.hits)
  {
    if k <= 0 { return BadLimit; }
    if |query| != g.dim { return WrongDim; }
    if g.nNodes == 0 { return Ranked([]); }
    var beam := if efSearch < k then k else efSearch;
    g.metric := override;
    ghost var d := FromQuery(override, query, g.embeddings);
    var visited := new Bitset(g.nNodes);
    var cand := NewBuffer(g.nNodes + 1);
    var results := NewBuffer(beam + 1);
    var out := NewBuffer(k + 1);
    var found := NswSearch(g, query, k, beam, visited, cand, results, beam + 1, out, adj, d);
    r := Ranked(out[..found]);
  }

  /** A built index can be searched. */
  lemma BuiltIsSearchable(g: AnnGraph, metric: Metric, ef: nat, run: Run)
    requires BuiltBy(g, metric, ef, run)
    ensures Searchable(g, Adj(Built(run)))
  {
    PairwiseSymmetric(metric, g.embeddings);
    BuiltIsValid(Pairwise(metric, g.embeddings), g.nNodes, g.m, ef, run, g.nNodes - 1);
    StoresWires(g, Built(run));
  }
}
