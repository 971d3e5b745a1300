/** What an index built by src/maludb_ann.c guarantees, for every run of the build loop. */
module AnnTheorems {
  import opened Selection
  import opened Heaps
  import opened Beam
  import opened Nsw
  import opened BuildSpec

  // ---------- search results ----------

  lemma OnceEach(d: int -> real, s: set<nat>, full: seq<Cand>)
    requires multiset(full) == Hits(d, s)
    ensures |full| == |s|
    ensures forall x :: 0 <= x < |full| ==> full[x].id in s && full[x] == CandOf(d, full[x].id)
    ensures forall x, y :: 0 <= x < y < |full| ==> full[x].id != full[y].id
  {
    HitsSize(d, s);
    assert |multiset(full)| == |full|;
    forall x | 0 <= x < |full|
      ensures full[x].id in s && full[x] == CandOf(d, full[x].id)
    {
      assert full[x] in multiset(full);
      HitsMember(d, s, full[x]);
    }
    forall x, y | 0 <= x < y < |full|
      ensures full[x].id != full[y].id
    {
      HitsMember(d, s, full[x]);
      NotTwice(full, x, y);
    }
  }

  lemma NotTwice<T>(s: seq<T>, x: nat, y: nat)
    requires x < y < |s| && multiset(s)[s[x]] <= 1
    ensures s[x] != s[y]
  {
    assert s == s[..y] + [s[y]] + s[y + 1..];
    assert s[..y][x] == s[x];
    assert s[x] in multiset(s[..y]);
  }

  /** A search returns distinct nodes with true distances, sorted by (distance, number), and at least one. */
  lemma FoundIsFound(g: Graph, d: int -> real, n: nat, entry: nat, ef: nat, k: nat, out: seq<Cand>)
    requires Found(g, d, n, entry, ef, k, out) && k > 0
    ensures Sorted(out) && 0 < |out| <= k
    ensures forall x :: 0 <= x < |out| ==> 0 <= out[x].id < n && out[x] == CandOf(d, out[x].id)
    ensures forall x, y :: 0 <= x < y < |out| ==> out[x].id != out[y].id
  {
    var res: set<nat>, visited: set<nat>, expanded: set<nat> :|
      Stopped(g, d, n, entry, ef, res, visited, expanded) && ListsFirst(d, res, k, out);
    var full: seq<Cand> :| Sorted(full) && multiset(full) == Hits(d, res) && out == full[..Min(k, |full|)];
    OnceEach(d, res, full);
  }

  /** How many results a search returns: as many as the limit, the beam and the reachable nodes allow. */
  lemma FoundCount(g: Graph, d: int -> real, n: nat, entry: nat, ef: nat, k: nat, out: seq<Cand>, reach: set<nat>)
    requires Found(g, d, n, entry, ef, k, out) && forall v :: v in reach <==> Reachable(g, entry, v)
    ensures |out| == Min(k, Min(ef, |reach|))
  {
    var res: set<nat>, visited: set<nat>, expanded: set<nat> :|
      Stopped(g, d, n, entry, ef, res, visited, expanded) && ListsFirst(d, res, k, out);
    var full: seq<Cand> :| Sorted(full) && multiset(full) == Hits(d, res) && out == full[..Min(k, |full|)];
    StopFills(g, d, n, entry, ef, res, visited, expanded, reach);
    HitsSize(d, res);
    assert |full| == |multiset(full)|;
  }

  // ---------- runs of the build loop ----------

  /** What happened at each insertion: what the search found, and the rows once the node was in. */
  datatype Run = Run(log: seq<seq<Cand>>, states: seq<seq<Row>>)

  /** Node i was linked to what a search of the graph so far found. */
  ghost predicate StepOk(D: (int, int) -> real, n: nat, m: nat, ef: nat, run: Run, i: nat)
    requires 0 < i < |run.log| == |run.states|
  {
    && i < |run.states[i - 1]|
    && Found(Adj(run.states[i - 1]), From(D, i), i, 0, Width(m, ef, ef + 1), m, run.log[i])
    && (forall e :: e in run.log[i] ==> 0 <= e.id < i)
    && run.states[i] == LinkAll(run.states[i - 1], m, i, run.log[i])
  }

  /** One graph of n rows for every insertion, starting without edges. */
  ghost predicate Framed(n: nat, run: Run) {
    && 0 < |run.log| == |run.states| <= n
    && run.log[0] == [] && run.states[0] == EmptyRows(n)
    && forall i :: 0 <= i < |run.states| ==> |run.states[i]| == n
  }

  /** A run of the build loop, complete once all n nodes are in. */
  ghost predicate IsRun(D: (int, int) -> real, n: nat, m: nat, ef: nat, run: Run) {
    && Framed(n, run)
    && forall i {:trigger StepOk(D, n, m, ef, run, i)} :: 0 < i < |run.log| ==> StepOk(D, n, m, ef, run, i)
  }

  lemma StepStays(D: (int, int) -> real, n: nat, m: nat, ef: nat, run: Run, longer: Run, i: nat)
    requires IsRun(D, n, m, ef, run) && 0 < i < |run.log| && |longer.log| == |longer.states|
    requires run.log <= longer.log && run.states <= longer.states
    ensures i < |longer.log| && StepOk(D, n, m, ef, longer, i)
  {
    assert StepOk(D, n, m, ef, run, i);
    assert longer.log[i] == run.log[i];
    assert longer.states[i] == run.states[i] && longer.states[i - 1] == run.states[i - 1];
  }

  lemma NewStep(D: (int, int) -> real, n: nat, m: nat, ef: nat, run: Run, longer: Run, next: seq<Cand>)
    requires 0 < |run.log| == |run.states| < n && |run.states[|run.log| - 1]| == n
    requires forall e :: e in next ==> 0 <= e.id < |run.log|
    requires Found(Adj(run.states[|run.log| - 1]), From(D, |run.log|), |run.log|, 0, Width(m, ef, ef + 1), m, next)
    requires longer.log == run.log + [next]
    requires longer.states == run.states + [LinkAll(run.states[|run.log| - 1], m, |run.log|, next)]
    ensures StepOk(D, n, m, ef, longer, |run.log|)
  {
  }

  lemma FrameGoesOn(n: nat, run: Run, longer: Run)
    requires Framed(n, run) && |longer.log| == |longer.states| == |run.log| + 1 <= n
    requires run.log <= longer.log && run.states <= longer.states && |longer.states[|run.log|]| == n
    ensures Framed(n, longer)
  {
    assert forall i :: 0 <= i < |run.states| ==> longer.states[i] == run.states[i];
  }

  /** A run goes on with whatever the next search finds. */
  lemma RunGoesOn(D: (int, int) -> real, n: nat, m: nat, ef: nat, run: Run, longer: Run)
    requires IsRun(D, n, m, ef, run) && |longer.log| == |longer.states| == |run.log| + 1 <= n
    requires run.log <= longer.log && run.states <= longer.states && |longer.states[|run.log|]| == n
    requires StepOk(D, n, m, ef, longer, |run.log|)
    ensures IsRun(D, n, m, ef, longer)
  {
    FrameGoesOn(n, run, longer);
    forall i | 0 < i < |longer.log|
      ensures StepOk(D, n, m, ef, longer, i)
    {
      StepsGoOn(D, n, m, ef, run, longer, i);
    }
  }

  lemma StepsGoOn(D: (int, int) -> real, n: nat, m: nat, ef: nat, run: Run, longer: Run, i: nat)
    requires IsRun(D, n, m, ef, run) && |longer.log| == |longer.states| == |run.log| + 1
    requires run.log <= longer.log && run.states <= longer.states && 0 < i < |longer.log|
    requires i == |run.log| ==> StepOk(D, n, m, ef, longer, i)
    ensures StepOk(D, n, m, ef, longer, i)
  {
    if i < |run.log| {
      StepStays(D, n, m, ef, run, longer, i);
    }
  }

  lemma StepFound(D: (int, int) -> real, n: nat, m: nat, ef: nat, run: Run, i: nat)
    requires IsRun(D, n, m, ef, run) && m > 0 && 0 < i < |run.log|
    ensures IsFound(D, i, run.log[i]) && 0 < |run.log[i]| <= m
    ensures run.states[i] == LinkAll(run.states[i - 1], m, i, run.log[i])
  {
    assert StepOk(D, n, m, ef, run, i);
    FoundIsFound(Adj(run.states[i - 1]), From(D, i), i, 0, Width(m, ef, ef + 1), m, run.log[i]);
  }

  /** Every insertion keeps the graph invariant: by the time node i is in, each row holds the m nearest of
      all the nodes ever offered to it. */
  lemma {:induction false} BuildKeeps(D: (int, int) -> real, n: nat, m: nat, ef: nat, run: Run, i: nat)
    requires IsRun(D, n, m, ef, run) && m > 0 && Symmetric(D) && i < |run.log|
    ensures BuildInv(D, m, run.log, i, run.states[i])
  {
    if i == 0 {
      EmptyKeeps(D, m, run.log, n);
    } else {
      BuildKeeps(D, n, m, ef, run, i - 1);
      StepFound(D, n, m, ef, run, i);
      InsertKeeps(D, m, run.log, i, run.states[i - 1]);
    }
  }

  /** The rows of a complete run. */
  ghost function Built(run: Run): seq<Row>
    requires 0 < |run.log| == |run.states|
  {
    run.states[|run.log| - 1]
  }

  /** Row a once node i is in, with what was offered to it. */
  lemma RowAt(D: (int, int) -> real, n: nat, m: nat, ef: nat, run: Run, i: nat, a: nat) returns (row: Row)
    requires IsRun(D, n, m, ef, run) && m > 0 && Symmetric(D) && i < |run.log| && a < n
    ensures row == run.states[i][a] && RowOk(D, m, a, Peers(run.log, i, a), row)
  {
    BuildKeeps(D, n, m, ef, run, i);
    row := run.states[i][a];
  }

  lemma RowMember(D: (int, int) -> real, m: nat, a: nat, peers: set<nat>, row: Row, b: nat)
    requires RowOk(D, m, a, peers, row)
    ensures b in IdSet(row) <==> CandOf(From(D, a), b) in multiset(row)
    ensures b in IdSet(row) ==> b in peers
    ensures b in peers && |peers| <= m ==> b in IdSet(row)
  {
    var d := From(D, a);
    if b in IdSet(row) {
      var e :| e in row && e.id == b;
      assert e in multiset(row);
      HitsMember(d, peers, e);
    }
    if b in peers && |peers| <= m {
      HitsSize(d, peers);
      SubMultisetOfSameSize(multiset(row), Hits(d, peers));
      HitsMember(d, peers, CandOf(d, b));
    }
    if CandOf(d, b) in multiset(row) {
      assert CandOf(d, b) in row;
    }
  }

  /** No self-loops, no duplicates, true distances, and only inserted nodes. */
  lemma RowsAreClean(D: (int, int) -> real, n: nat, m: nat, ef: nat, run: Run, i: nat, a: nat)
    requires IsRun(D, n, m, ef, run) && m > 0 && Symmetric(D) && i < |run.log| && a < n
    ensures var row := run.states[i][a];
      && |row| <= m
      && (forall x :: 0 <= x < |row| ==> 0 <= row[x].id <= i && row[x].id != a && row[x].dist == D(a, row[x].id))
      && (forall x, y :: 0 <= x < y < |row| ==> row[x].id != row[y].id)
      && (a > i ==> row == [])
  {
    var peers, d := Peers(run.log, i, a), From(D, a);
    var row := RowAt(D, n, m, ef, run, i, a);
    forall x | 0 <= x < |row|
      ensures row[x].id in peers && row[x] == CandOf(d, row[x].id) && multiset(row)[row[x]] <= 1
    {
      assert row[x] in multiset(row);
      HitsMember(d, peers, row[x]);
    }
    forall x, y | 0 <= x < y < |row|
      ensures row[x].id != row[y].id
    {
      NotTwice(row, x, y);
    }
  }

  /** An edge that is not answered was refused or evicted by a full row of no farther nodes. */
  lemma OneWayEdge(D: (int, int) -> real, n: nat, m: nat, ef: nat, run: Run, i: nat, a: nat, b: nat)
    requires IsRun(D, n, m, ef, run) && m > 0 && Symmetric(D) && i < |run.log| && a < n && b < n
    requires b in IdSet(run.states[i][a]) && a !in IdSet(run.states[i][b])
    ensures var row := run.states[i][b];
      |row| == m && forall x :: 0 <= x < m ==> row[x].dist <= D(a, b)
  {
    var peers, d := Peers(run.log, i, b), From(D, b);
    var rowA := RowAt(D, n, m, ef, run, i, a);
    var row := RowAt(D, n, m, ef, run, i, b);
    RowMember(D, m, a, Peers(run.log, i, a), rowA, b);
    PeerSymmetric(run.log, a, b);
    RowMember(D, m, b, peers, row, a);
    HitsMember(d, peers, CandOf(d, a));
    HitsSize(d, peers);
    assert |multiset(row)| == |row|;
    assert CandOf(d, a) in Hits(d, peers) - multiset(row);
    forall x | 0 <= x < |row|
      ensures row[x].dist <= D(a, b)
    {
      assert row[x] in multiset(row);
    }
  }

  // ---------- when nothing is evicted ----------

  lemma PeersFit(log: seq<seq<Cand>>, i: nat, a: nat)
    ensures |Peers(log, i, a)| <= i
  {
    if a <= i {
      var p := Peers(log, i, a);
      BoundedSet(p + {a}, i + 1);
      assert |p + {a}| == |p| + 1;
    } else {
      assert Peers(log, i, a) == {};
    }
  }

  /** With m >= n - 1 every offered edge stays, so the graph is symmetric. */
  lemma NothingEvicted(D: (int, int) -> real, n: nat, m: nat, ef: nat, run: Run, i: nat, a: nat, b: nat)
    requires IsRun(D, n, m, ef, run) && m > 0 && Symmetric(D) && i < |run.log| && a < n && b < n && m >= n - 1
    ensures b in IdSet(run.states[i][a]) <==> b in Peers(run.log, i, a)
    ensures b in IdSet(run.states[i][a]) <==> a in IdSet(run.states[i][b])
  {
    PeersFit(run.log, i, a);
    PeersFit(run.log, i, b);
    var rowA := RowAt(D, n, m, ef, run, i, a);
    var rowB := RowAt(D, n, m, ef, run, i, b);
    RowMember(D, m, a, Peers(run.log, i, a), rowA, b);
    RowMember(D, m, b, Peers(run.log, i, b), rowB, a);
    PeerSymmetric(run.log, a, b);
  }

  lemma SomethingFound(D: (int, int) -> real, n: nat, m: nat, ef: nat, run: Run, v: nat) returns (b: nat)
    requires IsRun(D, n, m, ef, run) && |run.log| == n && m > 0 && 0 < v < n
    ensures b < v && b in Peers(run.log, n - 1, v) && v in Peers(run.log, n - 1, b)
  {
    StepFound(D, n, m, ef, run, v);
    var e := run.log[v][0];
    assert e in run.log[v];
    b := e.id;
    assert b in IdSet(run.log[v]);
  }

  /** ... and every node can be reached from the entry node. */
  lemma {:induction false} AllReachable(D: (int, int) -> real, n: nat, m: nat, ef: nat, run: Run, v: nat)
    requires IsRun(D, n, m, ef, run) && |run.log| == n && m > 0 && Symmetric(D) && v < n && m >= n - 1
    ensures Reachable(Adj(Built(run)), 0, v)
  {
    if v > 0 {
      var b := SomethingFound(D, n, m, ef, run, v);
      AllReachable(D, n, m, ef, run, b);
      NothingEvicted(D, n, m, ef, run, n - 1, b, v);
      EdgeReachable(Adj(Built(run)), 0, b, v);
    }
  }

  // ---------- the index against brute force ----------

  ghost function Nodes(n: nat): (s: set<nat>)
    ensures |s| == n && forall i: nat :: i in s <==> i < n
  {
    if n == 0 then {} else Nodes(n - 1) + {n - 1}
  }

  /** The whole compartment as an exact scan sees it, in node order. */
  function AllNodes(d: int -> real, n: nat): (r: seq<Cand>)
    ensures |r| == n && forall i :: 0 <= i < n ==> r[i] == CandOf(d, i)
  {
    seq(n, i requires 0 <= i < n => CandOf(d, i))
  }

  lemma {:induction false} AllNodesHits(d: int -> real, n: nat)
    ensures multiset(AllNodes(d, n)) == Hits(d, Nodes(n))
  {
    if n == 0 {
      assert AllNodes(d, 0) == [] && Nodes(0) == {};
      HitsSize(d, {});
    } else {
      AllNodesHits(d, n - 1);
      assert AllNodes(d, n) == AllNodes(d, n - 1) + [CandOf(d, n - 1)];
      HitsAdd(d, Nodes(n - 1), n - 1);
    }
  }

  /** A beam as wide as the reachable part answers exactly over that part. */
  lemma ExactOverReachable(g: Graph, d: int -> real, n: nat, entry: nat, ef: nat, k: nat, out: seq<Cand>,
                           reach: set<nat>)
    requires Found(g, d, n, entry, ef, k, out)
    requires (forall v :: v in reach <==> Reachable(g, entry, v)) && |reach| <= ef
    ensures ListsFirst(d, reach, k, out)
  {
    var res: set<nat>, visited: set<nat>, expanded: set<nat> :|
      Stopped(g, d, n, entry, ef, res, visited, expanded) && ListsFirst(d, res, k, out);
    WideBeamFindsAll(g, d, n, entry, ef, res, visited, expanded, reach);
  }

  lemma ReachStays(g: Graph, n: nat, entry: nat, v: nat)
    requires ValidGraph(g, n) && n == |g| && entry < n && Reachable(g, entry, v)
    ensures v < n
  {
    assert Closed(g, Nodes(n));
  }

  lemma BuiltIsValid(D: (int, int) -> real, n: nat, m: nat, ef: nat, run: Run, i: nat)
    requires IsRun(D, n, m, ef, run) && m > 0 && Symmetric(D) && i < |run.log|
    ensures ValidGraph(Adj(run.states[i]), i + 1)
  {
    var rows := run.states[i];
    forall a, b | 0 <= a < i + 1 && b in Adj(rows)[a]
      ensures 0 <= b < i + 1
    {
      RowsAreClean(D, n, m, ef, run, i, a);
      var e: Cand :| e in rows[a] && e.id == b;
    }
  }

  lemma ReachIsAll(D: (int, int) -> real, n: nat, m: nat, ef: nat, run: Run)
    requires IsRun(D, n, m, ef, run) && |run.log| == n && m > 0 && Symmetric(D) && m >= n - 1
    ensures forall v: nat :: v in Nodes(n) <==> Reachable(Adj(Built(run)), 0, v)
  {
    BuiltIsValid(D, n, m, ef, run, n - 1);
    forall v: nat
      ensures v in Nodes(n) <==> Reachable(Adj(Built(run)), 0, v)
    {
      if v < n {
        AllReachable(D, n, m, ef, run, v);
      }
      if Reachable(Adj(Built(run)), 0, v) {
        ReachStays(Adj(Built(run)), n, 0, v);
      }
    }
  }

  /** When m >= n - 1, a search at least n wide over the built index returns exactly the first min(k, n)
      nodes of all n sorted by (distance, number). */
  lemma IndexIsExact(D: (int, int) -> real, n: nat, m: nat, efBuild: nat, run: Run,
                     d: int -> real, ef: nat, k: nat, out: seq<Cand>)
    requires IsRun(D, n, m, efBuild, run) && |run.log| == n && m > 0 && Symmetric(D) && m >= n - 1 && ef >= n
    requires Found(Adj(Built(run)), d, n, 0, ef, k, out)
    ensures out == Sort(AllNodes(d, n))[..Min(k, n)]
  {
    ReachIsAll(D, n, m, efBuild, run);
    ExactOverReachable(Adj(Built(run)), d, n, 0, ef, k, out, Nodes(n));
    FirstOfAll(d, n, k, out);
  }

  lemma FirstOfAll(d: int -> real, n: nat, k: nat, out: seq<Cand>)
    requires ListsFirst(d, Nodes(n), k, out)
    ensures out == Sort(AllNodes(d, n))[..Min(k, n)]
  {
    var full: seq<Cand> :| Sorted(full) && multiset(full) == Hits(d, Nodes(n)) && out == full[..Min(k, |full|)];
    AllNodesHits(d, n);
    SortedIsUnique(d, Nodes(n), full, Sort(AllNodes(d, n)));
  }

  /** With distinct numbers the order by (distance, number) is strict, so there is one sorted list. */
  lemma SortedIsUnique(d: int -> real, s: set<nat>, f: seq<Cand>, g: seq<Cand>)
    requires Sorted(f) && Sorted(g) && multiset(f) == multiset(g) == Hits(d, s)
    ensures f == g
  {
    OnceEach(d, s, f);
    OnceEach(d, s, g);
    forall j | 0 <= j < |f|
      ensures f[j] == g[j]
    {
      SamePlace(d, s, f, g, j);
    }
  }

  lemma {:induction false} SamePlace(d: int -> real, s: set<nat>, f: seq<Cand>, g: seq<Cand>, j: nat)
    requires Sorted(f) && Sorted(g) && multiset(f) == multiset(g) && |f| == |g| && j < |f|
    requires forall x, y :: 0 <= x < y < |f| ==> f[x].id != f[y].id
    requires forall x, y :: 0 <= x < y < |g| ==> g[x].id != g[y].id
    ensures f[j] == g[j]
  {
    forall i | 0 <= i < j
      ensures f[i] == g[i]
    {
      SamePlace(d, s, f, g, i);
    }
    assert f[j] in multiset(g) && g[j] in multiset(f);
    var x :| 0 <= x < |g| && g[x] == f[j];
    var y :| 0 <= y < |f| && f[y] == g[j];
    assert x >= j && y >= j;
  }

  /** The index never beats an exact scan: rank by rank its distances are at least as large. */
  lemma NeverBeatsExact(g: Graph, d: int -> real, n: nat, entry: nat, ef: nat, k: nat, out: seq<Cand>,
                        exact: seq<Cand>, j: nat)
    requires Found(g, d, n, entry, ef, k, out) && k > 0 && j < |out|
    requires Answers(k, AllNodes(d, n), exact)
    ensures j < |exact| && exact[j].dist <= out[j].dist
  {
    FoundIsFound(g, d, n, entry, ef, k, out);
    FoundAmongNodes(d, n, out);
    AllNodesHits(d, n);
    AnswerIsTopK(k, AllNodes(d, n), exact);
    SubsetNeverBeats(out, Sort(AllNodes(d, n)), j);
    assert Dists(exact)[j] == Dists(Sort(AllNodes(d, n)))[j];
  }

  lemma FoundAmongNodes(d: int -> real, n: nat, out: seq<Cand>)
    requires forall x :: 0 <= x < |out| ==> 0 <= out[x].id < n && out[x] == CandOf(d, out[x].id)
    requires forall x, y :: 0 <= x < y < |out| ==> out[x].id != out[y].id
    ensures multiset(out) <= Hits(d, Nodes(n))
  {
    forall e | e in multiset(out)
      ensures multiset(out)[e] <= Hits(d, Nodes(n))[e]
    {
      var x :| 0 <= x < |out| && out[x] == e;
      HitsMember(d, Nodes(n), e);
      OnceById(out, x);
    }
  }
}
