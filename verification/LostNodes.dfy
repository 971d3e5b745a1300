/** Why m >= n - 1 is needed for every node to stay reachable: for every smaller m and every build width there are
    embeddings on which the build cuts off all the nodes after the first m + 1. */
module LostNodes {
  import opened Selection
  import opened Metrics
  import opened Beam
  import opened Nsw
  import opened BuildSpec
  import opened AnnTheorems
  import opened AnnBuild

  // ---------- searches as wide as a row ----------

  /** The first m + 1 nodes lie within r of each other, and every later node farther than r from all. */
  ghost predicate Clustered(D: (int, int) -> real, n: nat, m: nat, r: real) {
    && (forall a, b :: 0 <= a <= m && 0 <= b <= m && a != b ==> D(a, b) <= r)
    && (forall a, b :: 0 <= a < n && m < b < n && a != b ==> D(a, b) > r)
  }

  ghost function Others(i: nat, a: nat): set<nat>
  {
    Nodes(i + 1) - {a}
  }

  /** Among nodes 0..i everyone was offered to everyone else. */
  ghost predicate Complete(log: seq<seq<Cand>>, i: nat) {
    forall a: nat {:trigger Peers(log, i, a)} :: a <= i ==> Peers(log, i, a) == Others(i, a)
  }

  /** While the cluster is being inserted, every search finds everything. */
  lemma {:induction false} ClusterIsComplete(D: (int, int) -> real, n: nat, m: nat, ef: nat, run: Run, i: nat)
    requires IsRun(D, n, m, ef, run) && m > 0 && Symmetric(D) && ef + 1 >= m && i <= m && i < |run.log|
    ensures Complete(run.log, i)
  {
    if i > 0 {
      ClusterIsComplete(D, n, m, ef, run, i - 1);
      FindsTheCluster(D, n, m, ef, run, i);
      StaysComplete(run.log, i);
    }
  }

  lemma StaysComplete(log: seq<seq<Cand>>, i: nat)
    requires 0 < i < |log| && IdSet(log[i]) == Nodes(i) && Complete(log, i - 1)
    ensures Complete(log, i)
  {
    forall a: nat | a <= i
      ensures Peers(log, i, a) == Others(i, a)
    {
      if a < i {
        PeersOfOld(log, i, a);
        assert Peers(log, i - 1, a) == Others(i - 1, a);
      } else {
        PeersOfNew(log, i);
      }
    }
  }

  lemma PeersOfOld(log: seq<seq<Cand>>, i: nat, a: nat)
    requires a < i < |log| && a in IdSet(log[i])
    ensures Peers(log, i, a) == Peers(log, i - 1, a) + {i}
  {
  }

  lemma PeersOfNew(log: seq<seq<Cand>>, i: nat)
    requires 0 < i < |log| && IdSet(log[i]) == Nodes(i)
    ensures Peers(log, i, i) == Others(i, i)
  {
  }

  lemma FindsTheCluster(D: (int, int) -> real, n: nat, m: nat, ef: nat, run: Run, i: nat)
    requires IsRun(D, n, m, ef, run) && m > 0 && Symmetric(D) && ef + 1 >= m && 0 < i <= m && i < |run.log|
    requires Complete(run.log, i - 1)
    ensures IdSet(run.log[i]) == Nodes(i)
  {
    ClusterIsReachable(D, n, m, ef, run, i);
    SearchOf(D, n, m, ef, run, i);
    ExactOverReachable(Adj(run.states[i - 1]), From(D, i), i, 0, Width(m, ef, ef + 1), m, run.log[i], Nodes(i));
    ListsAll(From(D, i), Nodes(i), m, run.log[i]);
  }

  lemma SearchOf(D: (int, int) -> real, n: nat, m: nat, ef: nat, run: Run, i: nat)
    requires IsRun(D, n, m, ef, run) && 0 < i < |run.log|
    ensures Found(Adj(run.states[i - 1]), From(D, i), i, 0, Width(m, ef, ef + 1), m, run.log[i])
  {
    assert StepOk(D, n, m, ef, run, i);
  }

  lemma ListsAll(d: int -> real, s: set<nat>, k: nat, out: seq<Cand>)
    requires ListsFirst(d, s, k, out) && |s| <= k
    ensures IdSet(out) == s
  {
    var full: seq<Cand> :| Sorted(full) && multiset(full) == Hits(d, s) && out == full[..Min(k, |full|)];
    OnceEach(d, s, full);
    assert out == full;
    forall v: nat | v in s
      ensures v in IdSet(out)
    {
      HitsMember(d, s, CandOf(d, v));
      assert CandOf(d, v) in multiset(full);
      assert CandOf(d, v) in out;
    }
  }

  lemma ClusterIsReachable(D: (int, int) -> real, n: nat, m: nat, ef: nat, run: Run, i: nat)
    requires IsRun(D, n, m, ef, run) && m > 0 && Symmetric(D) && 0 < i <= m && i < |run.log|
    requires Complete(run.log, i - 1)
    ensures forall v: nat :: v in Nodes(i) <==> Reachable(Adj(run.states[i - 1]), 0, v)
  {
    var g := Adj(run.states[i - 1]);
    BuiltIsValid(D, n, m, ef, run, i - 1);
    assert Closed(g, Nodes(i));
    forall v: nat
      ensures v in Nodes(i) <==> Reachable(g, 0, v)
    {
      if 0 < v < i {
        EdgeFromSeed(D, n, m, ef, run, i, v);
        EdgeReachable(g, 0, 0, v);
      }
    }
  }

  lemma EdgeFromSeed(D: (int, int) -> real, n: nat, m: nat, ef: nat, run: Run, i: nat, v: nat)
    requires IsRun(D, n, m, ef, run) && m > 0 && Symmetric(D) && 0 < v < i <= m && i < |run.log|
    requires Complete(run.log, i - 1)
    ensures v in IdSet(run.states[i - 1][0])
  {
    var row := RowAt(D, n, m, ef, run, i - 1, 0);
    SeedRow(D, m, run.log, i - 1, row, v);
  }

  lemma SeedRow(D: (int, int) -> real, m: nat, log: seq<seq<Cand>>, i: nat, row: Row, v: nat)
    requires RowOk(D, m, 0, Peers(log, i, 0), row) && Complete(log, i) && 0 < v <= i < m
    ensures v in IdSet(row)
  {
    SeedPeers(log, i, v);
    PeersFit(log, i, 0);
    RowMember(D, m, 0, Peers(log, i, 0), row, v);
  }

  lemma SeedPeers(log: seq<seq<Cand>>, i: nat, v: nat)
    requires Complete(log, i) && 0 < v <= i
    ensures v in Peers(log, i, 0)
  {
    assert v in Others(i, 0);
  }

  lemma PeersGrow(log: seq<seq<Cand>>, i: nat, j: nat, a: nat)
    requires i <= j
    ensures Peers(log, i, a) <= Peers(log, j, a)
  {
  }

  lemma ClusterIsOffered(D: (int, int) -> real, n: nat, m: nat, ef: nat, run: Run, a: nat)
    requires IsRun(D, n, m, ef, run) && |run.log| == n && 0 < m < n - 1 && Symmetric(D) && ef + 1 >= m && a <= m
    ensures Others(m, a) <= Peers(run.log, n - 1, a) && |Others(m, a)| == m
  {
    ClusterIsComplete(D, n, m, ef, run, m);
    PeersGrow(run.log, m, n - 1, a);
    assert Peers(run.log, m, a) == Others(m, a);
  }

  /** Row a of the cluster never lets go of the cluster. */
  lemma ClusterKeepsToItself(D: (int, int) -> real, n: nat, m: nat, ef: nat, run: Run, r: real, a: nat, b: nat)
    requires IsRun(D, n, m, ef, run) && |run.log| == n && 0 < m < n - 1 && Symmetric(D) && ef + 1 >= m
    requires Clustered(D, n, m, r) && a <= m && b in IdSet(Built(run)[a])
    ensures b <= m
  {
    var peers := Peers(run.log, n - 1, a);
    ClusterIsOffered(D, n, m, ef, run, a);
    var row := RowAt(D, n, m, ef, run, n - 1, a);
    RowMember(D, m, a, peers, row, b);
    if b > m {
      FarIsNotKept(D, m, a, peers, row, Others(m, a), b);
    }
  }

  lemma FarIsNotKept(D: (int, int) -> real, m: nat, a: nat, peers: set<nat>, row: Row, near: set<nat>, b: nat)
    requires RowOk(D, m, a, peers, row) && near <= peers && |near| == m && b in peers
    requires forall c :: c in near ==> D(a, c) < D(a, b)
    ensures b !in IdSet(row)
  {
    var d := From(D, a);
    RowMember(D, m, a, peers, row, b);
    if CandOf(d, b) in multiset(row) {
      HitsMonotone(d, near, peers);
      HitsSize(d, near);
      HitsSize(d, peers);
      forall e | e in Hits(d, near)
        ensures Hits(d, near)[e] <= multiset(row)[e]
      {
        HitsMember(d, near, e);
        HitsMember(d, peers, e);
        NearerIsKept(m, Hits(d, peers), multiset(row), CandOf(d, b), e);
      }
      HitsMember(d, near, CandOf(d, b));
      ExtraElement(Hits(d, near), multiset(row), CandOf(d, b));
      assert false;
    }
  }

  // ---------- searches narrower than a row ----------

  /** The first w nodes are hubs: from anywhere a hub is nearer than any other node; and from a hub, the first m + 1
      nodes are nearer than the rest. */
  ghost predicate Hubbed(D: (int, int) -> real, n: nat, m: nat, w: nat) {
    && (forall i, h, j {:trigger Nearer(D, i, h, j)} ::
          0 <= i < n && 0 <= h < w <= j < n && i != h && i != j ==> Nearer(D, i, h, j))
    && (forall h, a, b {:trigger Nearer(D, h, a, b)} ::
          0 <= h < w && 0 <= a <= m < b < n && a != h ==> Nearer(D, h, a, b))
  }

  ghost predicate Nearer(D: (int, int) -> real, from: int, a: int, b: int) {
    D(from, a) < D(from, b)
  }

  /** So far every search found the hubs there were, and nothing else. */
  ghost predicate FoundHubs(log: seq<seq<Cand>>, w: nat, i: nat) {
    i < |log| && forall j {:trigger FoundJust(log, w, j)} :: 0 < j <= i ==> FoundJust(log, w, j)
  }

  ghost predicate FoundJust(log: seq<seq<Cand>>, w: nat, j: nat)
    requires j < |log|
  {
    IdSet(log[j]) == Nodes(Min(j, w))
  }

  /** A hub that was visited is among the results. */
  lemma HubIsKept(D: (int, int) -> real, n: nat, m: nat, w: nat, i: nat, res: set<nat>, visited: set<nat>, h: nat)
    requires Hubbed(D, n, m, w) && w <= i < n && Outside(From(D, i), w, visited, res)
    requires res <= visited && (forall v :: v in visited ==> v < i) && 0 < |res| && h in visited && h < w
    ensures h in res
  {
    if h !in res {
      forall r | r in res
        ensures r in Nodes(w) - {h}
      {
        assert From(D, i)(r) <= From(D, i)(h);
        assert r >= w ==> Nearer(D, i, h, r);
      }
      SubsetSize(res, Nodes(w) - {h});
      var r :| r in res;
      assert false;
    }
  }

  /** Row 0 never lets go of a hub that was offered to it. */
  lemma HubStaysInRow(D: (int, int) -> real, n: nat, m: nat, w: nat, peers: set<nat>, row: Row, h: nat)
    requires Hubbed(D, n, m, w) && 0 < w < m && RowOk(D, m, 0, peers, row)
    requires (forall p :: p in peers ==> 0 < p < n) && h in peers && h < w
    ensures h in IdSet(row)
  {
    var d := From(D, 0);
    RowMember(D, m, 0, peers, row, h);
    HitsMember(d, peers, CandOf(d, h));
    if CandOf(d, h) !in multiset(row) {
      assert CandOf(d, h) in Hits(d, peers) - multiset(row);
      forall e | e in multiset(row)
        ensures multiset(row)[e] <= Hits(d, Nodes(w))[e]
      {
        HitsMember(d, peers, e);
        HitsMember(d, Nodes(w), e);
        assert e.dist <= d(h);
        assert e.id >= w ==> Nearer(D, 0, h, e.id);
      }
      SubMultisetSize(multiset(row), Hits(d, Nodes(w)));
      HitsSize(d, Nodes(w));
      HitsSize(d, peers);
      assert false;
    }
  }

  lemma HubIsOffered(log: seq<seq<Cand>>, w: nat, i: nat, h: nat, b: nat)
    requires FoundHubs(log, w, i) && h < w && h <= i && b <= i && b != h
    ensures b in Peers(log, i, h)
  {
    if b > h {
      assert FoundJust(log, w, b);
      assert h in Nodes(Min(b, w));
    } else {
      assert FoundJust(log, w, h);
      assert b in Nodes(Min(h, w));
    }
  }

  lemma PeersAreOthers(log: seq<seq<Cand>>, i: nat, a: nat)
    ensures forall p :: p in Peers(log, i, a) ==> p <= i && p != a
  {
  }

  /** Every search visits all hubs: they are neighbours of the entry node, which is expanded. */
  lemma HubIsVisited(D: (int, int) -> real, n: nat, m: nat, ef: nat, run: Run, i: nat, w: nat, h: nat)
    requires IsRun(D, n, m, ef, run) && m > 0 && Symmetric(D) && 0 < i < |run.log| && 0 < w < m
    requires Hubbed(D, n, m, w) && FoundHubs(run.log, w, i - 1) && 0 < h < w && h < i
    ensures h in IdSet(run.states[i - 1][0])
  {
    var row := RowAt(D, n, m, ef, run, i - 1, 0);
    HubInRow(D, n, m, w, run.log, i - 1, row, h);
  }

  lemma HubInRow(D: (int, int) -> real, n: nat, m: nat, w: nat, log: seq<seq<Cand>>, i: nat, row: Row, h: nat)
    requires Hubbed(D, n, m, w) && 0 < w < m && i < n && RowOk(D, m, 0, Peers(log, i, 0), row)
    requires FoundHubs(log, w, i) && 0 < h < w && h <= i
    ensures h in IdSet(row)
  {
    HubIsOffered(log, w, i, 0, h);
    PeersAreOthers(log, i, 0);
    HubStaysInRow(D, n, m, w, Peers(log, i, 0), row, h);
  }

  lemma ResultsAreHubs(D: (int, int) -> real, n: nat, m: nat, ef: nat, run: Run, i: nat, w: nat,
                       res: set<nat>, visited: set<nat>, expanded: set<nat>)
    requires IsRun(D, n, m, ef, run) && m > 0 && Symmetric(D) && 0 < w < m && w <= i < |run.log|
    requires Hubbed(D, n, m, w) && FoundHubs(run.log, w, i - 1)
    requires Stopped(Adj(run.states[i - 1]), From(D, i), i, 0, w, res, visited, expanded)
    ensures res == Nodes(w)
  {
    HubIsKept(D, n, m, w, i, res, visited, 0);
    forall h: nat | h < w
      ensures h in res
    {
      if h > 0 {
        HubIsVisited(D, n, m, ef, run, i, w, h);
        HubIsKept(D, n, m, w, i, res, visited, h);
      }
    }
    SubsetOfSameSize(Nodes(w), res);
  }

  /** While the hubs are being inserted, everything is a hub and within reach. */
  lemma EarlyResults(D: (int, int) -> real, n: nat, m: nat, ef: nat, run: Run, i: nat, w: nat,
                     res: set<nat>, visited: set<nat>, expanded: set<nat>)
    requires IsRun(D, n, m, ef, run) && m > 0 && Symmetric(D) && 0 < i < w < m && i < |run.log|
    requires Hubbed(D, n, m, w) && FoundHubs(run.log, w, i - 1)
    requires Stopped(Adj(run.states[i - 1]), From(D, i), i, 0, w, res, visited, expanded)
    ensures res == Nodes(i)
  {
    SubsetSize(res, Nodes(i));
    var r :| r in res;
    assert visited <= res;
    forall h: nat | h < i
      ensures h in res
    {
      if h > 0 {
        HubIsVisited(D, n, m, ef, run, i, w, h);
      }
    }
  }

  lemma FindsTheHubs(D: (int, int) -> real, n: nat, m: nat, ef: nat, run: Run, i: nat, w: nat)
    requires IsRun(D, n, m, ef, run) && m > 0 && Symmetric(D) && 0 < i < |run.log|
    requires w == Width(m, ef, ef + 1) && 0 < w < m && Hubbed(D, n, m, w) && FoundHubs(run.log, w, i - 1)
    ensures FoundJust(run.log, w, i)
  {
    SearchOf(D, n, m, ef, run, i);
    var res: set<nat>, visited: set<nat>, expanded: set<nat> :|
      Stopped(Adj(run.states[i - 1]), From(D, i), i, 0, w, res, visited, expanded)
      && ListsFirst(From(D, i), res, m, run.log[i]);
    if i < w {
      EarlyResults(D, n, m, ef, run, i, w, res, visited, expanded);
    } else {
      ResultsAreHubs(D, n, m, ef, run, i, w, res, visited, expanded);
    }
    ListsAll(From(D, i), res, m, run.log[i]);
  }

  /** When a search is narrower than a row, every insertion finds just the hubs. */
  lemma {:induction false} OnlyHubsAreFound(D: (int, int) -> real, n: nat, m: nat, ef: nat, run: Run, i: nat, w: nat)
    requires IsRun(D, n, m, ef, run) && m > 0 && Symmetric(D) && i < |run.log|
    requires w == Width(m, ef, ef + 1) && 0 < w < m && Hubbed(D, n, m, w)
    ensures FoundHubs(run.log, w, i)
  {
    if i > 0 {
      OnlyHubsAreFound(D, n, m, ef, run, i - 1, w);
      FindsTheHubs(D, n, m, ef, run, i, w);
    }
  }

  /** A node that is no hub was offered nothing but hubs. */
  lemma OtherIsOffered(log: seq<seq<Cand>>, w: nat, i: nat, a: nat, b: nat)
    requires FoundHubs(log, w, i) && w <= a && b in Peers(log, i, a)
    ensures b < w
  {
    if a < b {
      assert FoundJust(log, w, b);
    } else {
      assert FoundJust(log, w, a);
    }
  }

  /** A hub's row is full of the first m + 1 nodes. */
  lemma HubRow(D: (int, int) -> real, n: nat, m: nat, w: nat, log: seq<seq<Cand>>, row: Row, h: nat, b: nat)
    requires 0 < m < n - 1 && 0 < w < m && Hubbed(D, n, m, w) && FoundHubs(log, w, n - 1) && h < w
    requires RowOk(D, m, h, Peers(log, n - 1, h), row) && b in Peers(log, n - 1, h) && m < b
    ensures b !in IdSet(row)
  {
    var peers := Peers(log, n - 1, h);
    forall c | c in Others(m, h)
      ensures c in peers
    {
      HubIsOffered(log, w, n - 1, h, c);
    }
    forall c | c in Others(m, h)
      ensures D(h, c) < D(h, b)
    {
      assert Nearer(D, h, c, b);
    }
    PeersAreOthers(log, n - 1, h);
    FarIsNotKept(D, m, h, peers, row, Others(m, h), b);
  }

  lemma KeptByRow(D: (int, int) -> real, n: nat, m: nat, w: nat, log: seq<seq<Cand>>, row: Row, a: nat, b: nat)
    requires 0 < m < n - 1 && 0 < w < m && Hubbed(D, n, m, w) && FoundHubs(log, w, n - 1) && a <= m
    requires RowOk(D, m, a, Peers(log, n - 1, a), row) && b in IdSet(row)
    ensures b <= m
  {
    RowMember(D, m, a, Peers(log, n - 1, a), row, b);
    if a >= w {
      OtherIsOffered(log, w, n - 1, a, b);
    } else if b > m {
      HubRow(D, n, m, w, log, row, a, b);
    }
  }

  /** The first m + 1 nodes keep to themselves. */
  lemma HubsKeepToThemselves(D: (int, int) -> real, n: nat, m: nat, ef: nat, run: Run, w: nat, a: nat, b: nat)
    requires IsRun(D, n, m, ef, run) && |run.log| == n && 0 < m < n - 1 && Symmetric(D)
    requires w == Width(m, ef, ef + 1) && 0 < w < m && Hubbed(D, n, m, w) && a <= m && b in IdSet(Built(run)[a])
    ensures b <= m
  {
    OnlyHubsAreFound(D, n, m, ef, run, n - 1, w);
    var row := RowAt(D, n, m, ef, run, n - 1, a);
    KeptByRow(D, n, m, w, run.log, row, a, b);
  }

  // ---------- what is lost ----------

  /** An input on which the first m + 1 nodes keep to themselves. */
  ghost predicate Isolating(D: (int, int) -> real, n: nat, m: nat, ef: nat) {
    if ef + 1 >= m then exists r :: Clustered(D, n, m, r) else Hubbed(D, n, m, ef + 1)
  }

  /** On such an input every run cuts off all the nodes after the first m + 1, for every build width. */
  lemma FarNodesAreLost(D: (int, int) -> real, n: nat, m: nat, ef: nat, run: Run, v: nat)
    requires IsRun(D, n, m, ef, run) && |run.log| == n && 0 < m < n - 1 && Symmetric(D) && ef > 0
    requires Isolating(D, n, m, ef) && m < v < n
    ensures !Reachable(Adj(Built(run)), 0, v)
  {
    var g := Adj(Built(run));
    forall a, b | a in Nodes(m + 1) && 0 <= a < |g| && b in g[a]
      ensures b in Nodes(m + 1)
    {
      if ef + 1 >= m {
        var r :| Clustered(D, n, m, r);
        ClusterKeepsToItself(D, n, m, ef, run, r, a, b);
      } else {
        HubsKeepToThemselves(D, n, m, ef, run, ef + 1, a, b);
      }
    }
    assert Closed(g, Nodes(m + 1));
  }

  // ---------- a concrete family ----------

  /** The first c nodes at the origin, the next ones up to m on axes of their own at distance 1, the rest on axes of
      their own at distance 2. */
  function Reach(m: nat, c: nat, i: nat): real {
    if i < c then 0.0 else if i <= m then 1.0 else 2.0
  }

  function Spike(n: nat, i: nat, x: real): (r: Vector)
    ensures |r| == n && forall j :: 0 <= j < n ==> r[j] == if j == i then x else 0.0
  {
    seq(n, j => if j == i then x else 0.0)
  }

  function Star(n: nat, m: nat, c: nat): (r: seq<Vector>)
    ensures |r| == n && forall i :: 0 <= i < n ==> r[i] == Spike(n, i, Reach(m, c, i))
  {
    seq(n, i requires 0 <= i < n => Spike(n, i, Reach(m, c, i)))
  }

  lemma {:induction false} SpikeDot(n: nat, i: nat, x: real, v: Vector, k: nat)
    requires k <= n == |v| && i < n
    ensures Dot(Spike(n, i, x), v, k) == if i < k then x * v[i] else 0.0
  {
    if k > 0 {
      SpikeDot(n, i, x, v, k - 1);
    }
  }

  lemma StarDistance(n: nat, m: nat, c: nat, a: nat, b: nat)
    requires a < n && b < n && a != b
    ensures Between(L2, Star(n, m, c), a, b)
         == Reach(m, c, a) * Reach(m, c, a) + Reach(m, c, b) * Reach(m, c, b)
  {
    var x, y := Reach(m, c, a), Reach(m, c, b);
    var u, v := Spike(n, a, x), Spike(n, b, y);
    SquareExpands(u, v, n);
    SpikeDot(n, a, x, u, n);
    SpikeDot(n, b, y, v, n);
    SpikeDot(n, a, x, v, n);
  }

  /** How many nodes to put at the origin for a build width. */
  function Core(m: nat, ef: nat): nat {
    if ef + 1 >= m then m + 1 else ef + 1
  }

  /** For the other two metrics a line will do: the larger the component, the nearer to everyone. */
  function Bead(m: nat, c: nat, i: nat): real {
    if i < c then 3.0 else if i <= m then 2.0 else 1.0
  }

  function Beads(n: nat, m: nat, c: nat): (r: seq<Vector>)
    ensures |r| == n && forall i :: 0 <= i < n ==> r[i] == [Bead(m, c, i)]
  {
    seq(n, i requires 0 <= i < n => [Bead(m, c, i)])
  }

  function Family(metric: Metric, n: nat, m: nat, ef: nat): (r: seq<Vector>)
    ensures |r| == n && forall i :: 0 <= i < n ==> |r[i]| == if metric.L2? then n else 1
  {
    if metric.L2? then Star(n, m, Core(m, ef)) else Beads(n, m, Core(m, ef))
  }

  /** The distance between two members of the family. */
  function Apart(metric: Metric, m: nat, c: nat, a: nat, b: nat): real {
    match metric
    case L2 => Reach(m, c, a) * Reach(m, c, a) + Reach(m, c, b) * Reach(m, c, b)
    case Cosine => 1.0 - Bead(m, c, a) * Bead(m, c, b)
    case InnerProduct => -(Bead(m, c, a) * Bead(m, c, b))
  }

  lemma FamilyDistance(metric: Metric, n: nat, m: nat, ef: nat, a: nat, b: nat)
    requires a < n && b < n && a != b
    ensures Between(metric, Family(metric, n, m, ef), a, b) == Apart(metric, m, Core(m, ef), a, b)
  {
    if metric.L2? {
      StarDistance(n, m, Core(m, ef), a, b);
    } else {
      var u, v := [Bead(m, Core(m, ef), a)], [Bead(m, Core(m, ef), b)];
      assert Dot(u, v, 0) == 0.0;
      assert Dot(u, v, 1) == u[0] * v[0];
    }
  }

  lemma FamilyIsIsolating(metric: Metric, n: nat, m: nat, ef: nat)
    requires m < n
    ensures Isolating(Pairwise(metric, Family(metric, n, m, ef)), n, m, ef)
  {
    var c := Core(m, ef);
    var D := Pairwise(metric, Family(metric, n, m, ef));
    forall a: nat, b: nat | a < n && b < n && a != b
      ensures D(a, b) == Apart(metric, m, c, a, b)
    {
      FamilyDistance(metric, n, m, ef, a, b);
    }
    if ef + 1 >= m {
      assert Clustered(D, n, m, Apart(metric, m, c, 0, 0));
    }
  }

  /** For every metric, every m < n - 1 and every build width, the build loses nodes on some input. */
  method LoseNodes(metric: Metric, n: nat, m: nat, ef: nat) returns (r: BuildResult, ghost run: Run)
    requires 0 < m < n - 1 && ef > 0
    ensures r.Index? && r.g.embeddings == Family(metric, n, m, ef) && BuiltBy(r.g, metric, ef, run)
    ensures forall v :: m < v < n ==> !Reachable(Adj(Built(run)), 0, v)
  {
    ghost var D := Pairwise(metric, Family(metric, n, m, ef));
    r, run := Build(metric, m, ef, Family(metric, n, m, ef));
    FamilyIsIsolating(metric, n, m, ef);
    PairwiseSymmetric(metric, Family(metric, n, m, ef));
    forall v: nat | m < v < n
      ensures !Reachable(Adj(Built(run)), 0, v)
    {
      FarNodesAreLost(D, n, m, ef, run, v);
    }
  }
}
