/** The build loop of src/maludb_ann.c on values. A run is the list of search results used at each
    insertion; the rows of the graph after every step follow from it. */
module BuildSpec {
  import opened Selection
  import opened Heaps
  import opened Beam
  import opened Nsw

  type Row = seq<Cand>

  // ---------- one edge ----------

  /** The first farthest of the first n entries, as the slot scan finds it. */
  function Worst(row: Row, n: nat): (w: nat)
    requires 0 < n <= |row|
    ensures w < n
    ensures forall e :: 0 <= e < n ==> row[e].dist <= row[w].dist
  {
    if n == 1 then 0
    else
      var w := Worst(row, n - 1);
      if row[n - 1].dist > row[w].dist then n - 1 else w
  }

  /** ann_set_edge on the used part of a row of m slots. */
  function SetEdge(row: Row, m: nat, e: Cand): (r: Row)
  {
    if |row| < m then row + [e]
    else if |row| > 0 && e.dist < row[Worst(row, |row|)].dist then row[Worst(row, |row|) := e]
    else row
  }

  lemma Replaced<T>(s: seq<T>, i: nat, e: T)
    requires i < |s|
    ensures multiset(s[i := e]) == multiset(s) - multiset{s[i]} + multiset{e}
  {
    assert s == s[..i] + [s[i]] + s[i + 1..];
    assert s[i := e] == s[..i] + [e] + s[i + 1..];
  }

  /** A row keeps the m nearest of the edges offered to it. */
  lemma SetEdgeSelects(m: nat, offered: multiset<Cand>, row: Row, e: Cand)
    requires |row| <= m && Selects(m, offered, multiset(row))
    ensures Selects(m, offered + multiset{e}, multiset(SetEdge(row, m, e))) && |SetEdge(row, m, e)| <= m
  {
    var kept := multiset(row);
    assert |kept| == |row|;
    if |row| < m {
      OfferIntoRoom(m, offered, kept, e);
    } else {
      if |row| > 0 && e.dist < row[Worst(row, |row|)].dist {
        var w := Worst(row, |row|);
        Replaced(row, w, e);
        OfferReplaces(m, offered, kept, row[w], e);
      } else {
        OfferRejected(m, offered, kept, e);
      }
    }
  }

  // ---------- one insertion ----------

  function From(D: (int, int) -> real, q: int): int -> real {
    (j: int) => D(q, j)
  }

  function IdSet(s: seq<Cand>): set<nat> {
    set e | e in s && e.id >= 0 :: e.id as nat
  }

  /** What node i's search found: distinct earlier nodes with their true distances. */
  ghost predicate IsFound(D: (int, int) -> real, i: nat, found: seq<Cand>) {
    && (forall e :: e in found ==> 0 <= e.id < i && e == CandOf(From(D, i), e.id))
    && (forall x, y :: 0 <= x < y < |found| ==> found[x].id != found[y].id)
  }

  /** The pair of ann_set_edge calls for one found neighbour. */
  function Link(rows: seq<Row>, m: nat, i: nat, e: Cand): (r: seq<Row>)
    requires i < |rows| && 0 <= e.id < |rows| && e.id != i
    ensures |r| == |rows|
  {
    rows[i := SetEdge(rows[i], m, e)][e.id := SetEdge(rows[e.id], m, Entry(i, e.dist, ()))]
  }

  function LinkAll(rows: seq<Row>, m: nat, i: nat, found: seq<Cand>): (r: seq<Row>)
    requires i < |rows| && forall e :: e in found ==> 0 <= e.id < i
    ensures |r| == |rows|
  {
    if found == [] then rows
    else Link(LinkAll(rows, m, i, found[..|found| - 1]), m, i, found[|found| - 1])
  }

  // ---------- runs ----------

  /** Two nodes were offered to each other when the later one was inserted; log[i] is what the search
      for node i found. */
  predicate Peer(log: seq<seq<Cand>>, a: nat, b: nat) {
    (b < a < |log| && b in IdSet(log[a])) || (a < b < |log| && a in IdSet(log[b]))
  }

  /** Everything offered to row a by the time node i was inserted. */
  function Peers(log: seq<seq<Cand>>, i: nat, a: nat): set<nat> {
    set b: nat | b <= i && a <= i && Peer(log, a, b)
  }

  function EmptyRows(n: nat): (r: seq<Row>)
    ensures |r| == n && forall a :: 0 <= a < n ==> r[a] == []
  {
    seq(n, i => [])
  }

  function Adj(rows: seq<Row>): (g: Graph)
    ensures |g| == |rows| && forall a :: 0 <= a < |rows| ==> g[a] == IdSet(rows[a])
  {
    seq(|rows|, a requires 0 <= a < |rows| => IdSet(rows[a]))
  }

  /** A row holds the m nearest of the nodes offered to it, with true distances. */
  ghost predicate RowOk(D: (int, int) -> real, m: nat, a: nat, peers: set<nat>, row: Row) {
    |row| <= m && Selects(m, Hits(From(D, a), peers), multiset(row))
  }

  /** The graph invariant: every row is the selection of what was offered to it so far. */
  ghost predicate BuildInv(D: (int, int) -> real, m: nat, log: seq<seq<Cand>>, i: nat, rows: seq<Row>) {
    forall a :: 0 <= a < |rows| ==> RowOk(D, m, a, Peers(log, i, a), rows[a])
  }

  // ---------- the invariant is kept ----------

  lemma PeerSymmetric(log: seq<seq<Cand>>, a: nat, b: nat)
    ensures Peer(log, a, b) <==> Peer(log, b, a)
  {
  }

  /** What row a has been offered after the first j links of node i. */
  ghost function Partly(log: seq<seq<Cand>>, i: nat, a: nat, front: seq<Cand>): set<nat> {
    if a == i then IdSet(front)
    else if i > 0 && a < i && a in IdSet(front) then Peers(log, i - 1, a) + {i}
    else if i > 0 then Peers(log, i - 1, a) else {}
  }

  lemma OfferNode(D: (int, int) -> real, m: nat, a: nat, peers: set<nat>, row: Row, b: nat)
    requires RowOk(D, m, a, peers, row) && b !in peers
    ensures RowOk(D, m, a, peers + {b}, SetEdge(row, m, CandOf(From(D, a), b)))
  {
    SetEdgeSelects(m, Hits(From(D, a), peers), row, CandOf(From(D, a), b));
    HitsAdd(From(D, a), peers, b);
  }

  ghost predicate Symmetric(D: (int, int) -> real) {
    forall a, b :: D(a, b) == D(b, a)
  }

  lemma IdSetOfFront(found: seq<Cand>)
    requires found != [] && found[|found| - 1].id >= 0
    ensures IdSet(found) == IdSet(found[..|found| - 1]) + {found[|found| - 1].id as nat}
  {
    var front, e := found[..|found| - 1], found[|found| - 1];
    assert found == front + [e];
    assert forall x :: x in found <==> x in front || x == e;
  }

  lemma {:induction false} LinksKeep(D: (int, int) -> real, m: nat, log: seq<seq<Cand>>, i: nat, rows: seq<Row>,
                                     found: seq<Cand>)
    requires Symmetric(D) && 0 < i < |rows| && IsFound(D, i, found) && BuildInv(D, m, log, i - 1, rows)
    ensures forall a :: 0 <= a < |rows| ==> RowOk(D, m, a, Partly(log, i, a, found), LinkAll(rows, m, i, found)[a])
  {
    if found == [] {
      forall a | 0 <= a < |rows|
        ensures RowOk(D, m, a, Partly(log, i, a, found), rows[a])
      {
        assert RowOk(D, m, a, Peers(log, i - 1, a), rows[a]);
        assert a == i ==> Peers(log, i - 1, a) == {} == IdSet(found);
      }
    } else {
      var front, e := found[..|found| - 1], found[|found| - 1];
      assert e in found;
      IdSetOfFront(found);
      LinksKeep(D, m, log, i, rows, front);
      LinkKeeps(D, m, log, i, LinkAll(rows, m, i, front), front, e);
      assert found == front + [e];
    }
  }

  lemma LinkKeeps(D: (int, int) -> real, m: nat, log: seq<seq<Cand>>, i: nat, rows: seq<Row>, front: seq<Cand>, e: Cand)
    requires Symmetric(D) && 0 < i < |rows| && 0 <= e.id < i && e == CandOf(From(D, i), e.id)
    requires e.id !in IdSet(front)
    requires forall a :: 0 <= a < |rows| ==> RowOk(D, m, a, Partly(log, i, a, front), rows[a])
    ensures forall a :: 0 <= a < |rows| ==> RowOk(D, m, a, Partly(log, i, a, front + [e]), Link(rows, m, i, e)[a])
  {
    forall a | 0 <= a < |rows|
      ensures RowOk(D, m, a, Partly(log, i, a, front + [e]), Link(rows, m, i, e)[a])
    {
      PartlyNext(log, i, a, front, e);
      var before := Partly(log, i, a, front);
      assert RowOk(D, m, a, before, rows[a]);
      if a == i {
        OfferNode(D, m, i, before, rows[i], e.id);
      } else if a == e.id {
        assert CandOf(From(D, a), i) == Entry(i, e.dist, ());
        OfferNode(D, m, a, before, rows[a], i);
      }
    }
  }

  lemma PartlyNext(log: seq<seq<Cand>>, i: nat, a: nat, front: seq<Cand>, e: Cand)
    requires 0 <= e.id < i && e.id !in IdSet(front)
    ensures var before, after := Partly(log, i, a, front), Partly(log, i, a, front + [e]);
      if a == i then e.id !in before && after == before + {e.id}
      else if a == e.id then i !in before && after == before + {i}
      else after == before
  {
    assert (front + [e])[..|front|] == front;
    IdSetOfFront(front + [e]);
  }

  lemma PartlyDone(log: seq<seq<Cand>>, i: nat, a: nat)
    requires 0 < i < |log| && forall b :: b in IdSet(log[i]) ==> b < i
    ensures Partly(log, i, a, log[i]) == Peers(log, i, a)
  {
  }

  lemma EmptyKeeps(D: (int, int) -> real, m: nat, log: seq<seq<Cand>>, n: nat)
    ensures BuildInv(D, m, log, 0, EmptyRows(n))
  {
    forall a | 0 <= a < n
      ensures RowOk(D, m, a, Peers(log, 0, a), EmptyRows(n)[a])
    {
      assert Peers(log, 0, a) == {};
      assert Hits(From(D, a), {}) == multiset{};
    }
  }

  /** One insertion keeps the graph invariant. */
  lemma InsertKeeps(D: (int, int) -> real, m: nat, log: seq<seq<Cand>>, i: nat, rows: seq<Row>)
    requires Symmetric(D) && 0 < i < |rows| && i < |log| && IsFound(D, i, log[i]) && BuildInv(D, m, log, i - 1, rows)
    ensures BuildInv(D, m, log, i, LinkAll(rows, m, i, log[i]))
  {
    LinksKeep(D, m, log, i, rows, log[i]);
    forall a | 0 <= a < |rows|
      ensures RowOk(D, m, a, Peers(log, i, a), LinkAll(rows, m, i, log[i])[a])
    {
      PartlyDone(log, i, a);
    }
  }
}
