/** nsw_search of src/maludb_ann.c: the beam search over heaps, bitset and edge rows, proved to reach a
    state described by module Beam. */
module Nsw {
  import opened Selection
  import opened Heaps
  import opened Metrics
  import opened Bitset
  import opened Beam

  /** The in-memory graph. Rows of edges hold node numbers, negative when unused. */
  class AnnGraph {
    var metric: Metric
    const dim: nat
    const m: nat
    const embeddings: seq<Vector>
    const edges: array2<int>
    const edgeDists: array2<real>
    var nNodes: nat
    var entryNode: int

    ghost predicate Shape()
      reads this
    {
      && nNodes <= |embeddings| == edges.Length0 == edgeDists.Length0
      && m == edges.Length1 == edgeDists.Length1
      && forall i :: 0 <= i < |embeddings| ==> |embeddings[i]| == dim
    }

    /** g lists the out-neighbours that the edge rows hold. */
    ghost predicate Wired(g: Graph)
      requires Shape()
      reads this, edges
    {
      && |g| == edges.Length0
      && (forall a, e :: 0 <= a < |g| && 0 <= e < m && edges[a, e] >= 0 ==> edges[a, e] in g[a])
      && (forall a, b :: 0 <= a < |g| && b in g[a] ==> exists e :: 0 <= e < m && edges[a, e] == b)
    }

    lemma RowOf(adj: Graph, c: nat) returns (row: seq<int>)
      requires Shape() && Wired(adj) && c < |adj|
      ensures |row| == m && forall i :: 0 <= i < m ==> row[i] == edges[c, i]
      ensures forall b :: b in adj[c] ==> b in row
    {
      row := seq(m, i requires 0 <= i < m reads edges => edges[c, i]);
      forall b | b in adj[c]
        ensures b in row
      {
        var e :| 0 <= e < m && edges[c, e] == b;
        assert row[e] == b;
      }
    }

    constructor (metric: Metric, dim: nat, m: nat, embeddings: seq<Vector>)
      requires forall i :: 0 <= i < |embeddings| ==> |embeddings[i]| == dim
      ensures Shape() && fresh(edges) && fresh(edgeDists)
      ensures this.metric == metric && this.dim == dim && this.m == m && this.embeddings == embeddings
      ensures nNodes == |embeddings| && entryNode == 0
      ensures forall a, e :: 0 <= a < |embeddings| && 0 <= e < m ==> edges[a, e] == -1
    {
      this.metric := metric;
      this.dim := dim;
      this.m := m;
      this.embeddings := embeddings;
      edges := new int[|embeddings|, m]((a, e) => -1);
      edgeDists := new real[|embeddings|, m]((a, e) => 0.0);
      nNodes := |embeddings|;
      entryNode := 0;
    }
  }

  /** The distance from a query vector to the nodes of a graph. */
  ghost predicate Measures(d: int -> real, metric: Metric, query: Vector, nodes: seq<Vector>, n: nat) {
    n <= |nodes| && forall i :: 0 <= i < n ==> |nodes[i]| == |query| && d(i) == Distance(metric, query, nodes[i])
  }

  /** out lists the first k of the nodes in res, by distance and then number. */
  ghost predicate ListsFirst(d: int -> real, res: set<nat>, k: nat, out: seq<Cand>) {
    exists full: seq<Cand> :: Sorted(full) && multiset(full) == Hits(d, res) && out == full[..Min(k, |full|)]
  }

  /** A correct outcome of a search of width ef for k results. */
  ghost predicate Found(g: Graph, d: int -> real, n: nat, entry: nat, ef: nat, k: nat, out: seq<Cand>) {
    exists res: set<nat>, visited: set<nat>, expanded: set<nat> ::
      Stopped(g, d, n, entry, ef, res, visited, expanded) && ListsFirst(d, res, k, out)
  }

  /** The candidate and result heaps hold these sets of nodes. */
  ghost predicate HeapsHold(d: int -> real, cand: array<Cand>, cn: nat, results: array<Cand>, rn: nat,
                            cs: set<nat>, rs: set<nat>)
    reads cand, results
  {
    && cn <= cand.Length && IsHeap(Nearest, cand[..], cn) && Bag(cand[..], cn) == Hits(d, cs)
    && rn <= results.Length && IsHeap(Farthest, results[..], rn) && Bag(results[..], rn) == Hits(d, rs)
  }

  /** The heaps and the bitset hold the sets of a loop state. */
  ghost predicate Tracks(d: int -> real, visited: Bitset, cand: array<Cand>, cn: nat, results: array<Cand>, rn: nat,
                         s: State)
    reads visited.bits, cand, results
  {
    && visited.Valid() && visited.Members() == s.visited
    && HeapsHold(d, cand, cn, results, rn, s.cand, s.res)
  }

  lemma BagSize<T>(s: seq<T>, n: nat)
    requires n <= |s|
    ensures |Bag(s, n)| == n
  {
  }

  lemma CountedBy(d: int -> real, h: seq<Cand>, n: nat, s: set<nat>)
    requires n <= |h| && Bag(h, n) == Hits(d, s)
    ensures n == |s|
  {
    BagSize(h, n);
    HitsSize(d, s);
  }

  lemma {:induction false} BoundedSet(s: set<nat>, n: nat)
    requires forall x :: x in s ==> x < n
    ensures |s| <= n
  {
    if n > 0 {
      BoundedSet(s - {n - 1}, n - 1);
    } else {
      assert s == {};
    }
  }

  lemma RoomToVisit(s: set<nat>, n: nat, b: nat)
    requires (forall x :: x in s ==> x < n) && b < n && b !in s
    ensures |s| < n
  {
    BoundedSet(s + {b}, n);
  }

  lemma SubsetSize(a: set<nat>, b: set<nat>)
    requires a <= b
    ensures |a| <= |b|
  {
    assert b == a + (b - a);
    assert |b| == |a| + |b - a|;
  }

  /** The root of the result heap is a farthest result, the root of the candidate heap a nearest candidate. */
  lemma RootOf(order: Order, d: int -> real, h: seq<Cand>, n: nat, s: set<nat>) returns (w: nat)
    requires 0 < n <= |h| && IsHeap(order, h, n) && Bag(h, n) == Hits(d, s)
    ensures w in s && h[0] == CandOf(d, w)
    ensures forall x :: x in s ==> !Above(order, d(x), d(w))
  {
    assert h[..n][0] in Bag(h, n);
    HitsMember(d, s, h[0]);
    w := h[0].id;
    forall x | x in s
      ensures !Above(order, d(x), d(w))
    {
      HitsMember(d, s, CandOf(d, x));
      assert CandOf(d, x) in h[..n];
      var i :| 0 <= i < n && h[..n][i] == CandOf(d, x);
      RootIsExtreme(order, h, n, i);
    }
  }

  /** The result set after a push that the caller's test let through. */
  lemma PushedHits(d: int -> real, h: seq<Cand>, n: nat, ef: nat, res: set<nat>, b: nat)
    returns (res': set<nat>, w: nat)
    requires 0 < n <= |h| && n <= ef && IsHeap(Farthest, h, n) && Bag(h, n) == Hits(d, res)
    requires b !in res && (n < ef || d(b) < h[0].dist)
    ensures AfterPush(h, n, ef, CandOf(d, b)) == Hits(d, res') && n == |res|
    ensures w in res && (forall r :: r in res ==> d(r) <= d(w))
    ensures if n < ef then res' == res + {b} else res' == res - {w} + {b} && d(b) < d(w)
  {
    w := RootOf(Farthest, d, h, n, res);
    CountedBy(d, h, n, res);
    if n < ef {
      res' := res + {b};
      HitsAdd(d, res, b);
    } else {
      res' := res - {w} + {b};
      HitsRemove(d, res, w);
      HitsAdd(d, res - {w}, b);
    }
  }

  /** Queues node b when the result heap has room or b beats its worst entry. */
  method Queue(b: nat, dist: real, ef: nat, cand: array<Cand>, cn: nat, results: array<Cand>, rn: nat,
               ghost d: int -> real, ghost cs: set<nat>, ghost rs: set<nat>)
    returns (cn': nat, rn': nat, ghost cs': set<nat>, ghost rs': set<nat>, ghost w: nat)
    requires HeapsHold(d, cand, cn, results, rn, cs, rs) && cand != results
    requires b !in cs && b !in rs && dist == d(b) && cn < cand.Length && 0 < rn <= ef <= results.Length
    modifies cand, results
    ensures HeapsHold(d, cand, cn', results, rn', cs', rs')
    ensures rn == |rs| && w in rs && forall r :: r in rs ==> d(r) <= d(w)
    ensures if rn < ef then cs' == cs + {b} && rs' == rs + {b}
            else if d(b) < d(w) then cs' == cs + {b} && rs' == rs - {w} + {b}
            else cs' == cs && rs' == rs
  {
    cn', rn', cs', rs' := cn, rn, cs, rs;
    w := RootOf(Farthest, d, results[..], rn, rs);
    CountedBy(d, results[..], rn, rs);
    if rn < ef || dist < results[0].dist {
      rs', w := PushedHits(d, results[..], rn, ef, rs, b);
      cs' := cs + {b};
      HitsAdd(d, cs, b);
      cn' := MinHeapPush(cand, cn, Entry(b, dist, ()));
      rn' := MaxHeapPush(results, rn, ef, Entry(b, dist, ()));
    }
  }

  /** Marks a neighbour nb of c that was not visited yet, and queues it when it is good enough. */
  method Visit(g: AnnGraph, query: Vector, nb: nat, ef: nat, visited: Bitset, cand: array<Cand>, cn: nat,
               results: array<Cand>, rn: nat, ghost adj: Graph, ghost d: int -> real, ghost entry: nat,
               ghost s: State, ghost c: nat)
    returns (cn': nat, rn': nat, ghost s': State)
    requires g.Shape() && Measures(d, g.metric, query, g.embeddings, g.nNodes) && Inv(adj, d, g.nNodes, entry, ef, s)
    requires Tracks(d, visited, cand, cn, results, rn, s) && cand != results
    requires g.nNodes <= visited.limit && g.nNodes <= cand.Length && ef <= results.Length
    requires s.busy == {c} && nb in adj[c] && nb !in s.visited
    modifies visited.bits, cand, results
    ensures Inv(adj, d, g.nNodes, entry, ef, s') && Tracks(d, visited, cand, cn', results, rn', s')
    ensures s'.busy == {c} && s.visited <= s'.visited && nb in s'.visited
    ensures |s'.visited| == |s.visited| + 1 && |s'.cand| <= |s.cand| + 1
  {
    RoomToVisit(s.visited, g.nNodes, nb);
    SubsetSize(s.cand, s.visited);
    CountedBy(d, cand[..], cn, s.cand);
    CountedBy(d, results[..], rn, s.res);
    visited.Set(nb);
    var dist := ComputeDistance(g.metric, query, g.embeddings[nb]);
    ghost var cs, rs, w;
    cn', rn', cs, rs, w := Queue(nb, dist.value, ef, cand, cn, results, rn, d, s.cand, s.res);
    s' := s.(visited := s.visited + {nb}, cand := cs, res := rs);
    if |s.res| < ef {
      AcceptsInRoom(adj, d, g.nNodes, entry, ef, s, c, nb);
    } else if d(nb) < d(w) {
      AcceptsForWorst(adj, d, g.nNodes, entry, ef, s, c, nb, w);
    } else {
      Rejects(adj, d, g.nNodes, entry, ef, s, c, nb);
    }
  }

  /** An edge slot is unused or leads to a visited node. */
  ghost predicate Seen(nb: int, visited: set<nat>) {
    nb >= 0 ==> nb in visited
  }

  lemma StillSeen(row: seq<int>, e: nat, before: set<nat>, after: set<nat>)
    requires e < |row| && before <= after && Seen(row[e], after)
    requires forall i :: 0 <= i < e ==> Seen(row[i], before)
    ensures forall i :: 0 <= i < e + 1 ==> Seen(row[i], after)
  {
  }

  /** Follows one edge slot of node c. */
  method Follow(g: AnnGraph, query: Vector, c: nat, e: nat, ef: nat, visited: Bitset, cand: array<Cand>, cn: nat,
                results: array<Cand>, rn: nat, ghost adj: Graph, ghost d: int -> real, ghost entry: nat, ghost s: State)
    returns (cn': nat, rn': nat, ghost s': State)
    requires g.Shape() && g.Wired(adj) && Measures(d, g.metric, query, g.embeddings, g.nNodes) && e < g.m
    requires Inv(adj, d, g.nNodes, entry, ef, s) && Tracks(d, visited, cand, cn, results, rn, s) && cand != results
    requires g.nNodes <= visited.limit && g.nNodes <= cand.Length && ef <= results.Length
    requires s.busy == {c}
    modifies visited.bits, cand, results
    ensures Inv(adj, d, g.nNodes, entry, ef, s') && Tracks(d, visited, cand, cn', results, rn', s')
    ensures s'.busy == {c} && s.visited <= s'.visited && Seen(g.edges[c, e], s'.visited)
    ensures |s'.cand| + |s.visited| <= |s.cand| + |s'.visited|
  {
    cn', rn', s' := cn, rn, s;
    var nb := g.edges[c, e];
    if nb < 0 { return; }
    var seen := visited.Test(nb);
    if seen { return; }
    cn', rn', s' := Visit(g, query, nb, ef, visited, cand, cn, results, rn, adj, d, entry, s, c);
  }

  lemma RowCovers(adj: Graph, c: nat, row: seq<int>, visited: set<nat>)
    requires c < |adj| && forall b :: b in adj[c] ==> b in row
    requires forall i :: 0 <= i < |row| ==> Seen(row[i], visited)
    ensures adj[c] <= visited
  {
  }

  /** Follows the edges of the node just taken from the candidate heap. */
  method Expand(g: AnnGraph, query: Vector, c: nat, ef: nat, visited: Bitset, cand: array<Cand>, cn: nat,
                results: array<Cand>, rn: nat, ghost adj: Graph, ghost d: int -> real, ghost entry: nat, ghost s: State)
    returns (cn': nat, rn': nat, ghost s': State)
    requires g.Shape() && g.Wired(adj) && Measures(d, g.metric, query, g.embeddings, g.nNodes)
    requires Inv(adj, d, g.nNodes, entry, ef, s) && Tracks(d, visited, cand, cn, results, rn, s) && cand != results
    requires g.nNodes <= visited.limit && g.nNodes <= cand.Length && ef <= results.Length
    requires s.busy == {c}
    modifies visited.bits, cand, results
    ensures Inv(adj, d, g.nNodes, entry, ef, s') && Tracks(d, visited, cand, cn', results, rn', s')
    ensures s'.busy == {} && |s'.cand| + |s.visited| <= |s.cand| + |s'.visited|
  {
    cn', rn', s' := cn, rn, s;
    ghost var row := g.RowOf(adj, c);
    for e := 0 to g.m
      invariant Inv(adj, d, g.nNodes, entry, ef, s') && Tracks(d, visited, cand, cn', results, rn', s')
      invariant s'.busy == {c} && |s'.cand| + |s.visited| <= |s.cand| + |s'.visited|
      invariant forall i :: 0 <= i < e ==> Seen(row[i], s'.visited)
    {
      ghost var before := s'.visited;
      cn', rn', s' := Follow(g, query, c, e, ef, visited, cand, cn', results, rn', adj, d, entry, s');
      StillSeen(row, e, before, s'.visited);
    }
    RowCovers(adj, c, row, s'.visited);
    Expands(adj, d, g.nNodes, entry, ef, s', c);
    s' := s'.(expanded := s'.expanded + {c}, busy := {});
  }

  /** The beam width the search settles on. */
  function Width(k: nat, ef: nat, resCap: nat): nat {
    var wide := if ef < k then k else ef;
    if resCap < wide then resCap else wide
  }

  function EntryOf(entry: int, n: nat): nat {
    if entry < 0 || entry >= n then 0 else entry
  }

  /** The loop: leaves the results of a finished beam search in the result heap. */
  method Roam(g: AnnGraph, query: Vector, ef: nat, visited: Bitset, cand: array<Cand>, results: array<Cand>,
              ghost adj: Graph, ghost d: int -> real)
    returns (rn: nat, ghost s: State)
    requires g.Shape() && g.Wired(adj) && ValidGraph(adj, g.nNodes)
    requires Measures(d, g.metric, query, g.embeddings, g.nNodes) && cand != results
    requires 0 < g.nNodes <= visited.limit && g.nNodes <= cand.Length && 0 < ef <= results.Length
    requires visited.limit <= 64 * visited.bits.Length
    modifies visited.bits, cand, results
    ensures rn <= ef && Bag(results[..], rn) == Hits(d, s.res)
    ensures Stopped(adj, d, g.nNodes, EntryOf(g.entryNode, g.nNodes), ef, s.res, s.visited, s.expanded)
  {
    var cn, stop := 0, false;
    var ep := EntryOf(g.entryNode, g.nNodes);
    cn, rn, s := Seed(g, query, ep, ef, visited, cand, results, adj, d);
    while cn > 0
      invariant Inv(adj, d, g.nNodes, ep, ef, s) && Tracks(d, visited, cand, cn, results, rn, s) && s.busy == {}
      decreases Left(g.nNodes, s)
    {
      stop, cn, rn, s := Turn(g, query, ep, ef, visited, cand, cn, results, rn, adj, d, s);
      if stop {
        return;
      }
    }
    CountedBy(d, cand[..], cn, s.cand);
    CountedBy(d, results[..], rn, s.res);
    StopsEmpty(adj, d, g.nNodes, ep, ef, s);
  }

  /** What the loop uses up: nodes still to visit and candidates still to take. */
  ghost function Left(n: nat, s: State): int {
    |s.cand| + n - |s.visited|
  }

  /** One turn of the loop: takes the nearest candidate and stops or expands it. */
  method Turn(g: AnnGraph, query: Vector, ghost ep: nat, ef: nat, visited: Bitset, cand: array<Cand>, cn: nat,
              results: array<Cand>, rn: nat, ghost adj: Graph, ghost d: int -> real, ghost s: State)
    returns (stop: bool, cn': nat, rn': nat, ghost s': State)
    requires g.Shape() && g.Wired(adj) && Measures(d, g.metric, query, g.embeddings, g.nNodes)
    requires Inv(adj, d, g.nNodes, ep, ef, s) && Tracks(d, visited, cand, cn, results, rn, s) && cand != results
    requires g.nNodes <= visited.limit && g.nNodes <= cand.Length && ef <= results.Length
    requires s.busy == {} && cn > 0
    modifies visited.bits, cand, results
    ensures stop ==> rn' <= ef && Bag(results[..], rn') == Hits(d, s'.res)
    ensures stop ==> Stopped(adj, d, g.nNodes, ep, ef, s'.res, s'.visited, s'.expanded)
    ensures !stop ==> Inv(adj, d, g.nNodes, ep, ef, s') && s'.busy == {}
    ensures !stop ==> Tracks(d, visited, cand, cn', results, rn', s')
    ensures !stop ==> 0 <= Left(g.nNodes, s') < Left(g.nNodes, s)
  {
    var c;
    ghost var w;
    CountedBy(d, results[..], rn, s.res);
    c, cn', stop, w := Take(ef, visited, cand, cn, results, rn, d, s);
    rn', s' := rn, s;
    if stop {
      StopsEarly(adj, d, g.nNodes, ep, ef, s, c.id, w);
    } else {
      Pops(adj, d, g.nNodes, ep, ef, s, c.id, w);
      ghost var popped := s.(cand := s.cand - {c.id as nat}, busy := {c.id as nat});
      cn', rn', s' := Expand(g, query, c.id, ef, visited, cand, cn', results, rn, adj, d, ep, popped);
      BoundedSet(s'.visited, g.nNodes);
    }
  }

  /** Takes the nearest candidate off its heap and compares it with the worst result of a full one. */
  method Take(ef: nat, ghost visited: Bitset, cand: array<Cand>, cn: nat, results: array<Cand>, rn: nat,
              ghost d: int -> real, ghost s: State)
    returns (c: Cand, cn': nat, stop: bool, ghost w: nat)
    requires Tracks(d, visited, cand, cn, results, rn, s) && cand != results && cn > 0 && rn == |s.res| > 0
    modifies cand
    ensures c.id >= 0 && c.id as nat in s.cand && c == CandOf(d, c.id) && forall x :: x in s.cand ==> d(c.id) <= d(x)
    ensures w in s.res && (forall r :: r in s.res ==> d(r) <= d(w)) && (stop <==> rn >= ef && d(c.id) > d(w))
    ensures results[..] == old(results[..])
    ensures Tracks(d, visited, cand, cn', results, rn,
      s.(cand := s.cand - {c.id as nat}, busy := {c.id as nat}))
  {
    ghost var node := RootOf(Nearest, d, cand[..], cn, s.cand);
    w := RootOf(Farthest, d, results[..], rn, s.res);
    HitsRemove(d, s.cand, node);
    c, cn' := MinHeapPop(cand, cn);
    stop := rn >= ef && c.dist > results[0].dist;
  }

  method Seed(g: AnnGraph, query: Vector, ep: nat, ef: nat, visited: Bitset, cand: array<Cand>, results: array<Cand>,
              ghost adj: Graph, ghost d: int -> real)
    returns (cn: nat, rn: nat, ghost s: State)
    requires g.Shape() && ValidGraph(adj, g.nNodes) && Measures(d, g.metric, query, g.embeddings, g.nNodes)
    requires ep < g.nNodes <= visited.limit && g.nNodes <= cand.Length && 0 < ef <= results.Length && cand != results
    requires visited.limit <= 64 * visited.bits.Length
    modifies visited.bits, cand, results
    ensures s == State({ep}, {ep}, {ep}, {}, {}) && Inv(adj, d, g.nNodes, ep, ef, s)
    ensures Tracks(d, visited, cand, cn, results, rn, s)
  {
    visited.Reset();
    s := State({ep}, {ep}, {ep}, {}, {});
    Starts(adj, d, g.nNodes, ep, ef);
    var d0 := ComputeDistance(g.metric, query, g.embeddings[ep]);
    cn, rn := SeedHeaps(Entry(ep, d0.value, ()), ef, cand, results, d, ep);
    visited.Set(ep);
  }

  method SeedHeaps(e0: Cand, ef: nat, cand: array<Cand>, results: array<Cand>, ghost d: int -> real, ghost ep: nat)
    returns (cn: nat, rn: nat)
    requires e0 == CandOf(d, ep) && 0 < cand.Length && 0 < ef <= results.Length && cand != results
    modifies cand, results
    ensures HeapsHold(d, cand, cn, results, rn, {ep}, {ep})
  {
    HitsAdd(d, {}, ep);
    HitsSize(d, {});
    assert {} + {ep} == {ep};
    cn := MinHeapPush(cand, 0, e0);
    rn := MaxHeapPush(results, 0, ef, e0);
  }

  /** nsw_search. The buffers may be larger than needed; results needs resCap places and out needs
      min(k, resCap). */
  method NswSearch(g: AnnGraph, query: Vector, k: nat, ef: nat, visited: Bitset, cand: array<Cand>,
                   results: array<Cand>, resCap: nat, out: array<Cand>, ghost adj: Graph, ghost d: int -> real)
    returns (found: nat)
    requires g.Shape() && g.Wired(adj) && ValidGraph(adj, g.nNodes)
    requires Measures(d, g.metric, query, g.embeddings, g.nNodes)
    requires g.nNodes <= visited.limit <= 64 * visited.bits.Length
    requires g.nNodes <= cand.Length && 0 < resCap <= results.Length && Min(k, resCap) <= out.Length
    requires cand != results && out != results && out != cand
    modifies visited.bits, cand, results, out
    ensures found <= out.Length && found <= k
    ensures g.nNodes == 0 || k == 0 ==> found == 0
    ensures g.nNodes > 0 && k > 0 ==>
      Found(adj, d, g.nNodes, EntryOf(g.entryNode, g.nNodes), Width(k, ef, resCap), k, out[..found])
  {
    if g.nNodes == 0 || k == 0 {
      return 0;
    }
    var width := Width(k, ef, resCap);
    var rn;
    ghost var s;
    rn, s := Roam(g, query, width, visited, cand, results, adj, d);
    var all := SortedCopy(results, rn);
    found := if rn > k then k else rn;
    ghost var full := all[..];
    forall i | 0 <= i < found {
      out[i] := all[i];
    }
    assert out[..found] == full[..Min(k, |full|)];
    assert ListsFirst(d, s.res, k, out[..found]);
  }
}
