/** An index from table rows to answers: built, written as a blob, read back and searched, as maludb_ann_build_c and
    maludb_ann_search_c of src/maludb_ann.c do it. Embedding components are stored as 32-bit words; value reads one. */
module AnnStore {
  import opened Bytes
  import opened Options
  import opened Seqs
  import opened Selection
  import opened Metrics
  import opened Beam
  import opened Nsw
  import opened BuildSpec
  import opened AnnTheorems
  import opened AnnBuild
  import B = Blob

  function Code(metric: Metric): int {
    match metric
    case Cosine => 1
    case L2 => 2
    case InnerProduct => 3
  }

  /** Any other code is measured like the inner product. */
  function FromCode(code: int): Metric {
    if code == 1 then Cosine else if code == 2 then L2 else InnerProduct
  }

  datatype Chunk = Chunk(id: int, words: seq<int>)

  predicate ChunkOk(c: Chunk) {
    Int64(c.id) && Int32(|c.words|) && forall j :: 0 <= j < |c.words| ==> Int32(c.words[j])
  }

  function Vectors(value: int -> real, rows: seq<seq<int>>): seq<Vector> {
    Map((words: seq<int>) => Map(value, words), rows)
  }

  function WordsOf(chunks: seq<Chunk>): seq<seq<int>> {
    Map((c: Chunk) => c.words, chunks)
  }

  function IdsOf(chunks: seq<Chunk>): seq<int> {
    Map((c: Chunk) => c.id, chunks)
  }

  // ---------- writing ----------

  /** The rows list the neighbours of a graph, as the arrays do. */
  ghost predicate RowsWired(rows: seq<seq<int>>, m: nat, adj: Graph) {
    && |rows| == |adj| && (forall a :: 0 <= a < |rows| ==> |rows[a]| == m)
    && (forall a, e :: 0 <= a < |rows| && 0 <= e < |rows[a]| && rows[a][e] >= 0 ==> rows[a][e] in adj[a])
    && (forall a, b :: 0 <= a < |adj| && b in adj[a] ==> exists e :: 0 <= e < |rows[a]| && rows[a][e] == b)
  }

  method CopyRow(g: AnnGraph, a: nat) returns (row: seq<int>)
    requires g.Shape() && a < g.edges.Length0
    ensures |row| == g.m && forall e :: 0 <= e < g.m ==> row[e] == g.edges[a, e]
  {
    row := [];
    for e := 0 to g.m
      invariant |row| == e && forall x :: 0 <= x < e ==> row[x] == g.edges[a, x]
    {
      row := row + [g.edges[a, e]];
    }
  }

  method CopyEdges(g: AnnGraph) returns (rows: seq<seq<int>>)
    requires g.Shape()
    ensures |rows| == g.edges.Length0 && forall a :: 0 <= a < |rows| ==> |rows[a]| == g.m
    ensures forall a, e :: 0 <= a < |rows| && 0 <= e < g.m ==> rows[a][e] == g.edges[a, e]
  {
    rows := [];
    for a := 0 to g.edges.Length0
      invariant |rows| == a && forall x :: 0 <= x < a ==> |rows[x]| == g.m
      invariant forall x, e :: 0 <= x < a && 0 <= e < g.m ==> rows[x][e] == g.edges[x, e]
    {
      var row := CopyRow(g, a);
      rows := rows + [row];
    }
  }

  /** What a build over chunks writes: their ids and words, and the graph of a build run. */
  ghost predicate IsWritten(x: B.IndexData, chunks: seq<Chunk>, value: int -> real, metric: Metric, m: nat, ef: nat,
                            run: Run) {
    && B.WellFormed(x) && x.metric == Code(metric) && x.m == m && x.efConstruct == ef
    && x.chunkIds == IdsOf(chunks) && x.embeddings == WordsOf(chunks)
    && if chunks == [] then x.dim == 0 && x.entry == -1 else
         && x.entry == 0 && x.dim == |chunks[0].words| && |run.log| == |run.states| == |chunks|
         && IsRun(Pairwise(metric, Vectors(value, x.embeddings)), |chunks|, m, ef, run)
         && RowsWired(x.edges, m, Adj(Built(run))) && ValidGraph(Adj(Built(run)), |chunks|)
  }

  datatype BlobResult = Refused(why: BuildResult) | Written(blob: seq<byte>, decoded: B.Decoded)

  /** The header alone, for a compartment without rows. */
  function EmptyIndex(metric: Metric, m: nat, ef: int): B.IndexData {
    B.IndexData(Code(metric), 0, m, ef, -1, [], [], [])
  }

  lemma CopiedIsWired(g: AnnGraph, rows: seq<seq<int>>, adj: Graph)
    requires g.Shape() && g.Wired(adj)
    requires |rows| == g.edges.Length0 && forall a :: 0 <= a < |rows| ==> |rows[a]| == g.m
    requires forall a, e :: 0 <= a < |rows| && 0 <= e < g.m ==> rows[a][e] == g.edges[a, e]
    ensures RowsWired(rows, g.m, adj)
  {
    forall a, b | 0 <= a < |adj| && b in adj[a]
      ensures exists e :: 0 <= e < |rows[a]| && rows[a][e] == b
    {
      var e :| 0 <= e < g.m && g.edges[a, e] == b;
      assert rows[a][e] == b;
    }
  }

  /** Edges are -1 or node numbers, so they fit 32 bits when the number of nodes does. */
  lemma EdgesFit(g: AnnGraph, rows: seq<seq<int>>, metric: Metric, ef: nat, run: Run)
    requires BuiltBy(g, metric, ef, run) && Int32(g.nNodes)
    requires |rows| == g.edges.Length0 && forall a :: 0 <= a < |rows| ==> |rows[a]| == g.m
    requires forall a, e :: 0 <= a < |rows| && 0 <= e < g.m ==> rows[a][e] == g.edges[a, e]
    ensures B.Rows32(rows, |rows|, g.m)
  {
    forall a, e | 0 <= a < |rows| && 0 <= e < g.m
      ensures Int32(rows[a][e])
    {
      BuiltIsSearchable(g, metric, ef, run);
      assert StoresRow(g, a, Built(run)[a]);
    }
  }

  lemma EmptyIsWritten(value: int -> real, metric: Metric, m: nat, ef: nat, run: Run)
    requires Int32(m) && Int32(ef)
    ensures IsWritten(EmptyIndex(metric, m, ef), [], value, metric, m, ef, run)
  {
  }

  lemma ChunksFit(chunks: seq<Chunk>, dim: nat)
    requires forall i :: 0 <= i < |chunks| ==> ChunkOk(chunks[i]) && |chunks[i].words| == dim
    ensures B.Rows32(WordsOf(chunks), |chunks|, dim)
    ensures forall i :: 0 <= i < |chunks| ==> Int64(IdsOf(chunks)[i])
  {
  }

  /** The index data of a built graph. */
  method Save(g: AnnGraph, chunks: seq<Chunk>, value: int -> real, metric: Metric, ef: nat, ghost run: Run)
    returns (x: B.IndexData)
    requires Int32(g.m) && Int32(ef) && Int32(|chunks|) && forall i :: 0 <= i < |chunks| ==> ChunkOk(chunks[i])
    requires BuiltBy(g, metric, ef, run) && g.embeddings == Vectors(value, WordsOf(chunks))
    ensures IsWritten(x, chunks, value, metric, g.m, ef, run)
  {
    var rows := CopyEdges(g);
    x := B.IndexData(Code(metric), |chunks[0].words|, g.m, ef, 0, IdsOf(chunks), rows, WordsOf(chunks));
    forall i | 0 <= i < |chunks|
      ensures |chunks[i].words| == |g.embeddings[i]| == g.dim
    {
    }
    ChunksFit(chunks, g.dim);
    BuiltIsSearchable(g, metric, ef, run);
    CopiedIsWired(g, rows, Adj(Built(run)));
    EdgesFit(g, rows, metric, ef, run);
  }

  /** Writing an index, and what any reader of the bytes makes of them. */
  method WriteBlob(x: B.IndexData) returns (blob: seq<byte>, decoded: B.Decoded)
    requires B.WellFormed(x)
    ensures blob == B.EncodeBlob(x) && decoded == B.DecodeBlob(blob) == B.Graph(x)
  {
    blob := B.EncodeBlob(x);
    decoded := B.DecodeBlob(blob);
    B.BlobRoundTrip(x, []);
    assert blob + [] == blob;
  }

  /** maludb_ann_build_c: the blob written for the chunks of a compartment. */
  method BuildBlob(chunks: seq<Chunk>, value: int -> real, metric: Metric, m: int, ef: int)
    returns (r: BlobResult, ghost x: B.IndexData, ghost run: Run)
    requires Int32(m) && Int32(ef) && Int32(|chunks|) && forall i :: 0 <= i < |chunks| ==> ChunkOk(chunks[i])
    ensures r.Refused? ==> r.why == if m <= 0 then BadM else if ef <= 0 then BadEf else r.why
    ensures r.Refused? && m > 0 && ef > 0 ==>
      r.why.MixedDims? && FirstMismatch(Vectors(value, WordsOf(chunks)), r.why.row)
    ensures r.Written? ==> m > 0 && ef > 0 && forall i :: !FirstMismatch(Vectors(value, WordsOf(chunks)), i)
    ensures r.Written? ==> r.blob == B.EncodeBlob(x) && r.decoded == B.DecodeBlob(r.blob) == B.Graph(x)
    ensures r.Written? ==> IsWritten(x, chunks, value, metric, m, ef, run)
  {
    x := EmptyIndex(metric, 0, ef);
    var built;
    built, run := Build(metric, m, ef, Vectors(value, WordsOf(chunks)));
    if built.Index? {
      var data := Save(built.g, chunks, value, metric, ef, run);
      x := data;
      var blob, decoded := WriteBlob(data);
      r := Written(blob, decoded);
    } else if built.Empty? {
      var data := EmptyIndex(metric, m, ef);
      x := data;
      EmptyIsWritten(value, metric, m, ef, run);
      var blob, decoded := WriteBlob(data);
      r := Written(blob, decoded);
    } else {
      r := Refused(built);
    }
  }

  /** The header-only index byte by byte: "ANN1", the metric as 1, 2 or 3, no dimension, m and ef, no nodes and no
      entry. */
  lemma EmptyIndexBytes(metric: Metric, m: nat, ef: nat, b: seq<byte>)
    requires m < 0x8000_0000 && ef < 0x8000_0000 && b == B.EncodeBlob(EmptyIndex(metric, m, ef))
    ensures |b| == 32 && b[0] == 0x41 && b[1] == 0x4E && b[2] == 0x4E && b[3] == 0x31
    ensures B.Holds32(b, 4, match metric case Cosine => 1 case L2 => 2 case InnerProduct => 3)
    ensures B.Holds32(b, 8, 0) && B.Holds32(b, 12, m) && B.Holds32(b, 16, ef)
    ensures B.Holds32(b, 20, 0) && B.Holds32(b, 24, -1) && B.Holds32(b, 28, 0)
  {
    var x := EmptyIndex(metric, m, ef);
    B.BlobSize(x);
    B.BlobHeader(x, b);
  }

  // ---------- reading ----------

  /** The graph of a decoded index; the blob has no edge distances. */
  method Load(x: B.IndexData, value: int -> real) returns (g: AnnGraph)
    requires |x.edges| == |x.embeddings| == |x.chunkIds|
    requires forall a :: 0 <= a < |x.edges| ==> |x.edges[a]| == x.m && |x.embeddings[a]| == x.dim
    ensures fresh(g) && g.Shape() && g.nNodes == |x.chunkIds| && g.dim == x.dim && g.m == x.m
    ensures g.entryNode == x.entry && g.metric == FromCode(x.metric) && g.embeddings == Vectors(value, x.embeddings)
    ensures forall a, e :: 0 <= a < g.nNodes && 0 <= e < g.m ==> g.edges[a, e] == x.edges[a][e]
  {
    g := new AnnGraph(FromCode(x.metric), x.dim, x.m, Vectors(value, x.embeddings));
    g.entryNode := x.entry;
    forall a, e | 0 <= a < |x.edges| && 0 <= e < x.m {
      g.edges[a, e] := x.edges[a][e];
    }
  }

  lemma LoadedIsSearchable(x: B.IndexData, value: int -> real, g: AnnGraph, adj: Graph)
    requires g.Shape() && g.nNodes == |g.embeddings| == |x.edges| && g.m == x.m
    requires RowsWired(x.edges, x.m, adj) && ValidGraph(adj, |x.edges|)
    requires forall a, e :: 0 <= a < g.nNodes && 0 <= e < g.m ==> g.edges[a, e] == x.edges[a][e]
    ensures Searchable(g, adj)
  {
    forall a, b | 0 <= a < |adj| && b in adj[a]
      ensures exists e :: 0 <= e < g.m && g.edges[a, e] == b
    {
      var e :| 0 <= e < |x.edges[a]| && x.edges[a][e] == b;
      assert g.edges[a, e] == b;
    }
  }

  /** The graph of a written index, with the neighbours its build run ended with. */
  method OpenIndex(x: B.IndexData, value: int -> real, ghost chunks: seq<Chunk>, ghost metric: Metric, ghost m: nat,
                   ghost ef: nat, ghost run: Run)
    returns (g: AnnGraph, ghost adj: Graph)
    requires IsWritten(x, chunks, value, metric, m, ef, run)
    ensures fresh(g) && Searchable(g, adj) && g.nNodes == |chunks| && g.metric == metric
    ensures g.embeddings == Vectors(value, WordsOf(chunks)) && g.dim == DimOf(chunks)
    ensures adj == (if chunks == [] then [] else Adj(Built(run))) && (chunks != [] ==> g.entryNode == 0)
  {
    g := Load(x, value);
    adj := if chunks == [] then [] else Adj(Built(run));
    LoadedIsSearchable(x, value, g, adj);
  }

  function Used(metric: Metric, override: Option<Metric>): Metric {
    if override.Some? then override.value else metric
  }

  /** The dimension that the header of an index over these chunks has. */
  function DimOf(chunks: seq<Chunk>): nat {
    if chunks == [] then 0 else |chunks[0].words|
  }

  /** What a search of an index over these chunks may return; adj is the graph it was built with. */
  ghost predicate IsAnswer(r: SearchResult, chunks: seq<Chunk>, d: int -> real, queryDim: nat, k: int, efSearch: int,
                           adj: Graph) {
    && (r.BadLimit? <==> k <= 0)
    && (r.WrongDim? <==> k > 0 && queryDim != DimOf(chunks))
    && (r.Ranked? && chunks == [] ==> r.hits == [])
    && (r.Ranked? && chunks != [] ==> Found(adj, d, |chunks|, 0, if efSearch < k then k else efSearch, k, r.hits))
  }

  /** Whatever beam is asked for, a search returns k chunks, or all that can be reached if they are fewer. */
  lemma AnswerFills(r: SearchResult, chunks: seq<Chunk>, d: int -> real, queryDim: nat, k: int, efSearch: int,
                    adj: Graph, reach: set<nat>)
    requires IsAnswer(r, chunks, d, queryDim, k, efSearch, adj) && r.Ranked? && chunks != [] && k > 0
    requires forall v :: v in reach <==> Reachable(adj, 0, v)
    ensures |r.hits| == Min(k, |reach|)
  {
    FoundCount(adj, d, |chunks|, 0, if efSearch < k then k else efSearch, k, r.hits, reach);
  }

  /** The index of an empty compartment has dimension 0 in its header, so it answers only a query of no components. */
  lemma EmptyIndexAnswers(r: SearchResult, d: int -> real, queryDim: nat, k: int, efSearch: int)
    requires IsAnswer(r, [], d, queryDim, k, efSearch, [])
    ensures r == (if k <= 0 then BadLimit else if queryDim != 0 then WrongDim else Ranked([]))
  {
  }

  method SearchOpened(g: AnnGraph, query: Vector, k: int, efSearch: int, used: Metric, ghost chunks: seq<Chunk>,
                      ghost adj: Graph)
    returns (r: SearchResult)
    requires Searchable(g, adj) && g.nNodes == |chunks| && g.dim == DimOf(chunks) && (chunks != [] ==> g.entryNode == 0)
    modifies g`metric
    ensures IsAnswer(r, chunks, FromQuery(used, query, g.embeddings), |query|, k, efSearch, adj)
  {
    r := Search(g, query, k, efSearch, used, adj);
  }

  datatype Answer = BadBlob(why: B.Decoded) | Answered(result: SearchResult)

  /** maludb_ann_search_c on what its decoder made of a blob: an error, or an index that a build wrote. */
  method SearchDecoded(decoded: B.Decoded, value: int -> real, query: Vector, k: int, efSearch: int,
                       override: Option<Metric>, ghost chunks: seq<Chunk>, ghost metric: Metric, ghost m: nat,
                       ghost ef: nat, ghost run: Run)
    returns (r: Answer)
    requires decoded.Graph? ==> IsWritten(decoded.x, chunks, value, metric, m, ef, run)
    ensures k <= 0 ==> r == Answered(BadLimit)
    ensures k > 0 && !decoded.Graph? ==> r == BadBlob(decoded)
    ensures k > 0 && decoded.Graph? ==> r.Answered? && IsAnswer(r.result, chunks,
      FromQuery(Used(metric, override), query, Vectors(value, WordsOf(chunks))), |query|, k, efSearch,
      if chunks == [] then [] else Adj(Built(run)))
  {
    if k <= 0 { return Answered(BadLimit); }
    if !decoded.Graph? { return BadBlob(decoded); }
    var g, adj := OpenIndex(decoded.x, value, chunks, metric, m, ef, run);
    var s := SearchOpened(g, query, k, efSearch, Used(g.metric, override), chunks, adj);
    r := Answered(s);
  }

  predicate SameDims(chunks: seq<Chunk>, dim: nat) {
    forall i :: 0 <= i < |chunks| ==> |chunks[i].words| == dim
  }

  /** From rows to answers: with m >= n - 1 and a beam of n, the index built, written, read back and searched answers
      like a sort of all the chunks. */
  method BuildThenSearch(chunks: seq<Chunk>, value: int -> real, metric: Metric, m: int, ef: int,
                         query: Vector, k: int, efSearch: int, override: Option<Metric>)
    returns (built: BlobResult, r: Option<Answer>)
    requires Int32(m) && Int32(ef) && Int32(|chunks|) && forall i :: 0 <= i < |chunks| ==> ChunkOk(chunks[i])
    ensures built.Written? <==> r.Some?
    ensures m > 0 && ef > 0 && SameDims(chunks, |query|) ==> built.Written?
    ensures built.Written? && k > 0 && SameDims(chunks, |query|) && m >= |chunks| - 1 && efSearch >= |chunks| > 0 ==>
      var d := FromQuery(Used(metric, override), query, Vectors(value, WordsOf(chunks)));
      r == Some(Answered(Ranked(Sort(AllNodes(d, |chunks|))[..Min(k, |chunks|)])))
  {
    ghost var x, run;
    built, x, run := BuildBlob(chunks, value, metric, m, ef);
    if built.Refused? { return built, None; }
    var s := SearchDecoded(built.decoded, value, query, k, efSearch, override, chunks, metric, m, ef, run);
    if k > 0 && s.result.Ranked? && m >= |chunks| - 1 && efSearch >= |chunks| > 0 {
      ghost var nodes := Vectors(value, WordsOf(chunks));
      PairwiseSymmetric(metric, nodes);
      IndexIsExact(Pairwise(metric, nodes), |chunks|, m, ef, run, FromQuery(Used(metric, override), query, nodes),
                   if efSearch < k then k else efSearch, k, s.result.hits);
    }
    r := Some(s);
  }
}
