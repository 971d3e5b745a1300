/** src/maludb_topk.c: the parallel top-K aggregate. Every worker keeps a bounded max-heap, ships it
    as bytes, and the leader merges the heaps; see also the sequential scan of src/maludb_search.c. */
module TopK {
  import opened Bytes
  import opened Selection
  import opened Heaps

  const TWO63: int := 0x8000_0000_0000_0000

  /** The bit pattern of a float8. */
  type Double = d: int | 0 <= d < 0x1_0000_0000_0000_0000

  /** Orders the bit patterns of non-NaN doubles as the comparison operators do: magnitudes count
      up from zero, the top bit negates, and both zeros rank alike. */
  function Rank(d: Double): real {
    (if d < TWO63 then d else TWO63 - d) as real
  }

  // ---------- the order of doubles ----------

  const TWO52: int := 0x10_0000_0000_0000

  /** The biased exponent of a binary64 value, 11 bits below the sign. */
  function Exponent(d: Double): (e: nat)
    ensures e < 2048
  {
    d % TWO63 / TWO52
  }

  /** Its fraction, the low 52 bits. */
  function Fraction(d: Double): (f: nat)
    ensures f < TWO52
  {
    d % TWO52
  }

  /** The magnitude of a binary64 value in units of the smallest one, 2 to the power -1074: a fraction without its
      leading one when the exponent is zero, and otherwise with it and scaled by the exponent. Infinity comes out
      above every number. */
  function Magnitude(e: nat, f: nat): int {
    if e == 0 then f else Pow2(e - 1) * (0x10_0000_0000_0000 + f)
  }

  /** The number a binary64 pattern stands for, in those units. */
  function Number(d: Double): int {
    if d < TWO63 then Magnitude(Exponent(d), Fraction(d)) else -Magnitude(Exponent(d), Fraction(d))
  }

  lemma {:induction false} Pow2Grows(a: nat, b: nat)
    requires a <= b
    ensures Pow2(a) <= Pow2(b)
    decreases b - a
  {
    if a < b {
      Pow2Grows(a, b - 1);
    }
  }

  lemma TimesGrows(p: nat, q: nat, x: nat, y: nat)
    requires p <= q && x <= y
    ensures p * x <= q * y
  {
    assert p * x <= p * y && p * y <= q * y;
  }

  lemma TimesGrowsMore(p: nat, x: nat, y: nat)
    requires p > 0 && x < y
    ensures p * x < p * y
  {
  }

  /** A larger exponent outweighs every fraction. */
  lemma ExponentDecides(e: nat, f: nat, e': nat, f': nat)
    requires e < e' && f < TWO52 && f' < TWO52
    ensures Magnitude(e, f) < Magnitude(e', f')
  {
    Pow2Grows(e, e' - 1);
    TimesGrows(Pow2(e), Pow2(e' - 1), TWO52, TWO52 + f');
    if e > 0 {
      TimesGrowsMore(Pow2(e - 1), TWO52 + f, 2 * TWO52);
      assert Pow2(e - 1) * (2 * TWO52) == Pow2(e) * TWO52;
    } else {
      assert Pow2(0) * TWO52 == TWO52;
    }
  }

  lemma FractionDecides(e: nat, f: nat, f': nat)
    requires f < f'
    ensures Magnitude(e, f) < Magnitude(e, f')
  {
    if e > 0 {
      TimesGrowsMore(Pow2(e - 1), TWO52 + f, TWO52 + f');
    }
  }

  lemma MagnitudeGrows(a: nat, b: nat)
    requires a < b
    ensures Magnitude(a / TWO52, a % TWO52) < Magnitude(b / TWO52, b % TWO52)
  {
    if a / TWO52 < b / TWO52 {
      ExponentDecides(a / TWO52, a % TWO52, b / TWO52, b % TWO52);
    } else {
      FractionDecides(a / TWO52, a % TWO52, b % TWO52);
    }
  }

  /** The bits without the sign. */
  function Unsigned(d: Double): (u: nat)
    ensures u == d % TWO63 && u < TWO63
    ensures u / TWO52 == Exponent(d) && u % TWO52 == Fraction(d)
  {
    if d < TWO63 then d else d - TWO63
  }

  lemma NumberOf(d: Double)
    ensures Number(d) == if d < TWO63 then Magnitude(Unsigned(d) / TWO52, Unsigned(d) % TWO52)
                         else -Magnitude(Unsigned(d) / TWO52, Unsigned(d) % TWO52)
    ensures Magnitude(Unsigned(d) / TWO52, Unsigned(d) % TWO52) >= 0
    ensures Magnitude(Unsigned(d) / TWO52, Unsigned(d) % TWO52) == 0 <==> Unsigned(d) == 0
  {
    if Unsigned(d) > 0 {
      MagnitudeGrows(0, Unsigned(d));
    }
  }

  /** The rank orders bit patterns as the numbers they stand for, of either sign, normal or not, and infinities; NaN
      patterns aside, this is the order of the comparison operators. */
  lemma RankIsNumericalOrder(a: Double, b: Double)
    ensures Rank(a) < Rank(b) <==> Number(a) < Number(b)
  {
    NumberOf(a);
    NumberOf(b);
    if Unsigned(a) < Unsigned(b) {
      MagnitudeGrows(Unsigned(a), Unsigned(b));
    } else if Unsigned(b) < Unsigned(a) {
      MagnitudeGrows(Unsigned(b), Unsigned(a));
    }
  }

  /** What travels with a row: its text (empty for NULL), its distance and similarity as stored. */
  datatype Hit = Hit(text: seq<byte>, distance: Double, similarity: Double)

  type Row = Entry<Hit>

  predicate IsRow(e: Row) {
    && e.dist == Rank(e.load.distance)
    && Int64(e.id)
    && Int32(|e.load.text|)
  }

  /** The first n places of s hold rows in heap order. */
  ghost predicate HoldsRows(s: seq<Row>, n: nat) {
    n <= |s| && IsHeap(Farthest, s, n) && forall i :: 0 <= i < n ==> IsRow(s[i])
  }

  predicate Header(capacity: nat, metric: int, query: seq<byte>) {
    && Int32(capacity) && Int32(metric)
    && |query| % 4 == 0 && Int32(|query| / 4)
  }

  /** The value of an aggregate state. */
  datatype Snapshot = Snapshot(capacity: nat, metric: int, query: seq<byte>, heap: seq<Row>) {
    ghost predicate Valid() {
      Header(capacity, metric, query) && |heap| <= capacity && HoldsRows(heap, |heap|)
    }
  }

  // ---------- wire format ----------

  function Five(a: seq<byte>, b: seq<byte>, c: seq<byte>, d: seq<byte>, e: seq<byte>): seq<byte> {
    a + (b + (c + (d + e)))
  }

  lemma FiveInARow(front: seq<byte>, a: seq<byte>, b: seq<byte>, c: seq<byte>, d: seq<byte>, e: seq<byte>,
                   rest: seq<byte>)
    ensures front + a + b + c + d + e == front + Five(a, b, c, d, e)
    ensures Five(a, b, c, d, e) + rest == a + (b + (c + (d + (e + rest))))
  {
    assert front + a + b + c + d + e == front + a + b + c + (d + e) == front + a + b + (c + (d + e))
      == front + a + (b + (c + (d + e)));
    assert (d + e) + rest == d + (e + rest);
    assert (c + (d + e)) + rest == c + ((d + e) + rest);
    assert (b + (c + (d + e))) + rest == b + ((c + (d + e)) + rest);
  }

  lemma FiveFromLeft(a: seq<byte>, b: seq<byte>, c: seq<byte>, d: seq<byte>, e: seq<byte>)
    ensures a + b + c + d + e == Five(a, b, c, d, e)
  {
    assert a + b + c + d + e == a + b + c + (d + e) == a + b + (c + (d + e));
  }

  function EncodeRow(e: Row): seq<byte> {
    Five(Be(Wrap(e.id, 8), 8), Be(e.load.distance, 8), Be(e.load.similarity, 8), Be(|e.load.text|, 4), e.load.text)
  }

  function EncodeRows(s: seq<Row>): seq<byte> {
    if s == [] then [] else EncodeRow(s[0]) + EncodeRows(s[1..])
  }

  function EncodeHeader(capacity: nat, n: nat, metric: int, query: seq<byte>): seq<byte> {
    Five(Be(capacity, 4), Be(n, 4), Be(Wrap(metric, 4), 4), Be(|query| / 4, 4), query)
  }

  function Encode(v: Snapshot): seq<byte> {
    EncodeHeader(v.capacity, |v.heap|, v.metric, v.query) + EncodeRows(v.heap)
  }

  // ---------- the message byte by byte ----------

  /** The w bytes at an offset hold n, most significant byte first. */
  ghost predicate Sent(b: seq<byte>, off: nat, w: nat, n: nat) {
    off + w <= |b| && forall p :: off <= p < off + w ==> b[p] == n / Span(off + w - 1 - p) % 256
  }

  lemma SentWhere(b: seq<byte>, off: nat, w: nat, n: nat)
    requires off + w <= |b| && b[off..off + w] == Be(n, w)
    ensures Sent(b, off, w, n)
  {
    forall p | off <= p < off + w
      ensures b[p] == n / Span(off + w - 1 - p) % 256
    {
      BeByteAt(n, w, p - off);
      assert b[off..off + w][p - off] == b[p];
    }
  }

  /** Where the parts of five in a row stand. */
  lemma FiveAt(front: seq<byte>, a: seq<byte>, b: seq<byte>, c: seq<byte>, d: seq<byte>, e: seq<byte>, rest: seq<byte>,
               whole: seq<byte>)
    requires whole == front + (Five(a, b, c, d, e) + rest)
    ensures |whole| == |front| + |a| + |b| + |c| + |d| + |e| + |rest|
    ensures var i := |front|; var j := i + |a|; var k := j + |b|; var l := k + |c|; var m := l + |d|;
      && whole[i..j] == a && whole[j..k] == b && whole[k..l] == c && whole[l..m] == d && whole[m..m + |e|] == e
  {
    FiveInARow([], a, b, c, d, e, rest);
    PartAt(front, a, b + (c + (d + (e + rest))), whole);
    PartAt(front + a, b, c + (d + (e + rest)), whole);
    PartAt(front + a + b, c, d + (e + rest), whole);
    PartAt(front + a + b + c, d, e + rest, whole);
    PartAt(front + a + b + c + d, e, rest, whole);
  }

  lemma PartAt(front: seq<byte>, part: seq<byte>, rest: seq<byte>, whole: seq<byte>)
    requires whole == front + (part + rest)
    ensures whole[|front|..|front| + |part|] == part && whole == (front + part) + rest
  {
    assert front + (part + rest) == (front + part) + rest;
  }

  /** The layout the source documents: four counts and the query, in this order. */
  lemma MessageLayout(v: Snapshot, b: seq<byte>)
    requires b == Encode(v)
    ensures Sent(b, 0, 4, v.capacity) && Sent(b, 4, 4, |v.heap|) && Sent(b, 8, 4, Wrap(v.metric, 4))
    ensures Sent(b, 12, 4, |v.query| / 4) && |b| >= 16 + |v.query| && b[16..16 + |v.query|] == v.query
  {
    var rows := EncodeRows(v.heap);
    var w := 4;
    FiveAt([], Be(v.capacity, w), Be(|v.heap|, w), Be(Wrap(v.metric, w), w), Be(|v.query| / 4, w), v.query, rows, b);
    SentWhere(b, 0, w, v.capacity);
    SentWhere(b, 4, w, |v.heap|);
    SentWhere(b, 8, w, Wrap(v.metric, w));
    SentWhere(b, 12, w, |v.query| / 4);
  }

  /** How many bytes the rows before row i take. */
  function RowsBefore(s: seq<Row>, i: nat): nat
    requires i <= |s|
  {
    if i == 0 then 0 else RowsBefore(s, i - 1) + 28 + |s[i - 1].load.text|
  }

  lemma {:induction false} RowsSplit(s: seq<Row>, i: nat) returns (front: seq<byte>)
    requires i <= |s|
    ensures EncodeRows(s) == front + EncodeRows(s[i..]) && |front| == RowsBefore(s, i)
  {
    front := [];
    if i > 0 {
      var before := RowsSplit(s, i - 1);
      RowsNext(s, i - 1, before);
      front := before + EncodeRow(s[i - 1]);
    } else {
      assert s[0..] == s;
    }
  }

  /** A row at an offset: id, distance, similarity, the length of the text and the text. */
  ghost predicate RowSent(b: seq<byte>, off: nat, id: nat, distance: nat, similarity: nat, text: seq<byte>) {
    && Sent(b, off, 8, id) && Sent(b, off + 8, 8, distance) && Sent(b, off + 16, 8, similarity)
    && Sent(b, off + 24, 4, |text|)
    && off + 28 + |text| <= |b| && b[off + 28..off + 28 + |text|] == text
  }

  /** Every row of the message stands where the rows before it end. */
  lemma RowLayout(v: Snapshot, b: seq<byte>, i: nat, e: Row)
    requires b == Encode(v) && i < |v.heap| && e == v.heap[i]
    ensures RowSent(b, 16 + |v.query| + RowsBefore(v.heap, i), Wrap(e.id, 8), e.load.distance, e.load.similarity,
                    e.load.text)
  {
    var front, rest := RowAt(v, i);
    RowAfter(front, e, rest, b);
  }

  lemma RowAfter(front: seq<byte>, e: Row, rest: seq<byte>, b: seq<byte>)
    requires b == front + (EncodeRow(e) + rest)
    ensures RowSent(b, |front|, Wrap(e.id, 8), e.load.distance, e.load.similarity, e.load.text)
  {
    RowBytes(front, Wrap(e.id, 8), e.load.distance, e.load.similarity, e.load.text, rest, b, 8, 4);
  }

  lemma RowAt(v: Snapshot, i: nat) returns (front: seq<byte>, rest: seq<byte>)
    requires i < |v.heap|
    ensures Encode(v) == front + (EncodeRow(v.heap[i]) + rest) && |front| == 16 + |v.query| + RowsBefore(v.heap, i)
  {
    var header := EncodeHeader(v.capacity, |v.heap|, v.metric, v.query);
    var before := RowsSplit(v.heap, i);
    front, rest := header + before, EncodeRows(v.heap[i + 1..]);
    RowsNext(v.heap, i, before);
    var row := EncodeRow(v.heap[i]);
    assert header + (before + (row + rest)) == front + (row + rest);
  }

  lemma RowBytes(front: seq<byte>, id: nat, distance: nat, similarity: nat, text: seq<byte>, rest: seq<byte>,
                 b: seq<byte>, l: nat, w: nat)
    requires l == 8 && w == 4
    requires b == front + (Five(Be(id, l), Be(distance, l), Be(similarity, l), Be(|text|, w), text) + rest)
    ensures RowSent(b, |front|, id, distance, similarity, text)
  {
    FiveInARow([], Be(id, l), Be(distance, l), Be(similarity, l), Be(|text|, w), text, rest);
    var t4 := text + rest;
    var t3 := Be(|text|, w) + t4;
    var t2 := Be(similarity, l) + t3;
    var f1 := PartSent(front, id, l, Be(distance, l) + t2, b);
    var f2 := PartSent(f1, distance, l, t2, b);
    var f3 := PartSent(f2, similarity, l, t3, b);
    var f4 := PartSent(f3, |text|, w, t4, b);
    PartAt(f4, text, rest, b);
  }

  lemma PartSent(front: seq<byte>, n: nat, w: nat, rest: seq<byte>, b: seq<byte>) returns (front': seq<byte>)
    requires b == front + (Be(n, w) + rest)
    ensures Sent(b, |front|, w, n) && b == front' + rest && |front'| == |front| + w
  {
    front' := front + Be(n, w);
    PartAt(front, Be(n, w), rest, b);
    SentWhere(b, |front|, w, n);
  }

  /** Reads a w-byte integer off the front of what is left of a message. */
  method GetInt(msg: seq<byte>, w: nat, ghost n: nat, ghost rest: seq<byte>) returns (x: nat, msg': seq<byte>)
    requires msg == Be(n, w) + rest && n < Span(w)
    ensures x == n && msg' == rest
  {
    BeRoundTrip(n, w);
    assert msg[..w] == Be(n, w);
    x, msg' := FromBe(msg[..w]), msg[w..];
  }

  // ---------- the aggregate state ----------

  class TopKState {
    const capacity: nat
    const metric: int
    const query: seq<byte>
    const heap: array<Row>
    var n: nat

    ghost predicate Valid()
      reads this, heap
    {
      Header(capacity, metric, query) && n <= capacity <= heap.Length && HoldsRows(heap[..], n)
    }

    ghost function Value(): Snapshot
      requires Valid()
      reads this, heap
    {
      Snapshot(capacity, metric, query, heap[..n])
    }

    constructor (k: nat, metric: int, query: seq<byte>)
      requires Header(k, metric, query)
      ensures Valid() && fresh(heap) && n == 0
      ensures capacity == k && this.metric == metric && this.query == query
    {
      capacity := k;
      n := 0;
      this.metric := metric;
      this.query := query;
      heap := new Row[if k > 0 then k else 1](_ => Entry(0, 0.0, Hit([], 0, 0)));
    }

    /** state_offer: keep the row while there is room, else let it replace the farthest one. */
    method Offer(e: Row)
      requires Valid() && IsRow(e)
      modifies this, heap
      ensures Valid()
      ensures Bag(heap[..], n) == old(AfterPush(heap[..], n, capacity, e))
    {
      ghost var s, n0 := heap[..], n;
      n := MaxHeapPush(heap, n, capacity, e);
      RowsKept(s, n0, capacity, e, heap[..], n);
    }

    /** topk_vector_combine on two states: offers every entry of b to this heap. */
    method Combine(b: TopKState)
      requires Valid() && b.Valid() && b != this && b.heap != heap
      modifies this, heap
      ensures Valid()
      ensures Selects(capacity, old(Bag(heap[..], n)) + Bag(b.heap[..], b.n), Bag(heap[..], n))
    {
      ghost var mine, theirs := Bag(heap[..], n), b.heap[..];
      var i := 0;
      while i < b.n
        invariant i <= b.n && Valid() && b.Valid() && b.heap[..] == theirs
        invariant Selects(capacity, mine + Bag(theirs, i), Bag(heap[..], n))
      {
        PushSelects(heap[..], n, capacity, b.heap[i], mine + Bag(theirs, i));
        BagNext(theirs, i);
        assert mine + Bag(theirs, i + 1) == mine + Bag(theirs, i) + multiset{theirs[i]};
        Offer(b.heap[i]);
        i := i + 1;
      }
    }

    /** topk_vector_serialize. */
    method Serialize() returns (buf: seq<byte>)
      requires Valid()
      ensures Value().Valid() && buf == Encode(Value())
    {
      buf := PutHeader(capacity, n, metric, query);
      buf := PutRows(buf, heap[..n]);
    }
  }

  method PutRows(front: seq<byte>, rows: seq<Row>) returns (buf: seq<byte>)
    ensures buf == front + EncodeRows(rows)
  {
    buf := front;
    var i := 0;
    assert rows[0..] == rows;
    while i < |rows|
      invariant i <= |rows|
      invariant buf + EncodeRows(rows[i..]) == front + EncodeRows(rows)
    {
      RowsNext(rows, i, buf);
      buf := PutRow(buf, rows[i]);
      i := i + 1;
    }
    assert rows[i..] == [];
  }

  method PutHeader(capacity: nat, n: nat, metric: int, query: seq<byte>) returns (buf: seq<byte>)
    requires |query| % 4 == 0
    ensures buf == EncodeHeader(capacity, n, metric, query)
  {
    FiveFromLeft(Be(capacity, 4), Be(n, 4), Be(Wrap(metric, 4), 4), Be(|query| / 4, 4), query);
    buf := Be(capacity, 4);
    buf := buf + Be(n, 4);
    buf := buf + Be(Wrap(metric, 4), 4);
    buf := buf + Be(|query| / 4, 4);
    if |query| / 4 > 0 {
      buf := buf + query;
    }
  }

  method PutRow(buf: seq<byte>, e: Row) returns (buf': seq<byte>)
    ensures buf' == buf + EncodeRow(e)
  {
    FiveInARow(buf, Be(Wrap(e.id, 8), 8), Be(e.load.distance, 8), Be(e.load.similarity, 8), Be(|e.load.text|, 4),
               e.load.text, []);
    buf' := buf + Be(Wrap(e.id, 8), 8);
    buf' := buf' + Be(e.load.distance, 8);
    buf' := buf' + Be(e.load.similarity, 8);
    buf' := buf' + Be(|e.load.text|, 4);
    if |e.load.text| > 0 {
      buf' := buf' + e.load.text;
    }
  }

  lemma RowsNext(s: seq<Row>, i: nat, buf: seq<byte>)
    requires i < |s|
    ensures EncodeRows(s[i..]) == EncodeRow(s[i]) + EncodeRows(s[i + 1..])
    ensures buf + EncodeRow(s[i]) + EncodeRows(s[i + 1..]) == buf + EncodeRows(s[i..])
  {
    assert s[i..][1..] == s[i + 1..];
    var r, rest := EncodeRow(s[i]), EncodeRows(s[i + 1..]);
    assert buf + r + rest == buf + (r + rest);
  }

  lemma RowsKept(s: seq<Row>, n: nat, cap: nat, e: Row, t: seq<Row>, m: nat)
    requires HoldsRows(s, n) && IsRow(e) && m <= |t|
    requires Bag(t, m) == AfterPush(s, n, cap, e)
    ensures forall i :: 0 <= i < m ==> IsRow(t[i])
  {
    forall i | 0 <= i < m
      ensures IsRow(t[i])
    {
      assert t[..m][i] in Bag(t, m);
      if t[i] != e {
        assert t[i] in Bag(s, n);
        var j :| 0 <= j < n && s[..n][j] == t[i];
      }
    }
  }

  /** Copies len bytes off the front of what is left of a message. */
  method GetBytes(msg: seq<byte>, len: nat, ghost text: seq<byte>, ghost rest: seq<byte>)
    returns (copy: seq<byte>, msg': seq<byte>)
    requires len == |text| && msg == text + rest
    ensures copy == text && msg' == rest
  {
    copy, msg' := [], msg;
    if len > 0 {
      copy, msg' := msg[..len], msg[len..];
    }
  }

  lemma RowFits(e: Row)
    requires IsRow(e)
    ensures e.load.distance < Span(8) && e.load.similarity < Span(8) && |e.load.text| < Span(4)
    ensures Unwrap(Wrap(e.id, 8), 8) == e.id
  {
    SpanOf();
    WrapRoundTrip(e.id);
  }

  method GetRow(msg: seq<byte>, ghost e: Row, ghost rest: seq<byte>) returns (row: Row, msg': seq<byte>)
    requires IsRow(e) && msg == EncodeRow(e) + rest
    ensures row == e && msg' == rest
  {
    RowFits(e);
    ghost var h := e.load;
    ghost var t4 := h.text + rest;
    ghost var t3 := Be(|h.text|, 4) + t4;
    ghost var t2 := Be(h.similarity, 8) + t3;
    ghost var t1 := Be(h.distance, 8) + t2;
    FiveInARow([], Be(Wrap(e.id, 8), 8), Be(h.distance, 8), Be(h.similarity, 8), Be(|h.text|, 4), h.text, rest);
    var id, distance, similarity, slen, text;
    id, msg' := GetInt(msg, 8, Wrap(e.id, 8), t1);
    distance, msg' := GetInt(msg', 8, h.distance, t2);
    similarity, msg' := GetInt(msg', 8, h.similarity, t3);
    slen, msg' := GetInt(msg', 4, |h.text|, t4);
    text, msg' := GetBytes(msg', slen, h.text, rest);
    row := Entry(Unwrap(id, 8), Rank(distance), Hit(text, distance, similarity));
  }

  /** What is left of a message is the encoding of these rows. */
  ghost predicate Carries(msg: seq<byte>, rows: seq<Row>) {
    (forall i :: 0 <= i < |rows| ==> IsRow(rows[i])) && msg == EncodeRows(rows)
  }

  method NextRow(msg: seq<byte>, ghost rows: seq<Row>) returns (row: Row, msg': seq<byte>)
    requires rows != [] && Carries(msg, rows)
    ensures row == rows[0] && Carries(msg', rows[1..])
  {
    row, msg' := GetRow(msg, rows[0], EncodeRows(rows[1..]));
  }

  method GetRows(msg: seq<byte>, heap: array<Row>, n: nat, ghost rows: seq<Row>)
    requires |rows| == n <= heap.Length && Carries(msg, rows)
    modifies heap
    ensures forall j :: 0 <= j < n ==> heap[j] == rows[j]
  {
    var left := msg;
    ghost var rest := rows;
    for i := 0 to n
      invariant rest == rows[i..] && Carries(left, rest)
      invariant forall j :: 0 <= j < i ==> heap[j] == rows[j]
    {
      var row;
      row, left := NextRow(left, rest);
      heap[i], rest := row, rest[1..];
    }
  }

  /** topk_vector_deserialize, on bytes that serialize produced for the state value v. */
  method Deserialize(data: seq<byte>, ghost v: Snapshot) returns (state: TopKState)
    requires v.Valid() && data == Encode(v)
    ensures fresh(state) && fresh(state.heap) && state.Valid() && state.Value() == v
  {
    SpanOf();
    WrapRoundTrip(v.metric);
    var k, n, metric, qdim, msg, query;
    ghost var rows := EncodeRows(v.heap);
    ghost var q := |v.query| / 4;
    FiveInARow([], Be(v.capacity, 4), Be(|v.heap|, 4), Be(Wrap(v.metric, 4), 4), Be(q, 4), v.query, rows);
    k, msg := GetInt(data, 4, v.capacity, Be(|v.heap|, 4) + (Be(Wrap(v.metric, 4), 4) + (Be(q, 4) + (v.query + rows))));
    n, msg := GetInt(msg, 4, |v.heap|, Be(Wrap(v.metric, 4), 4) + (Be(q, 4) + (v.query + rows)));
    metric, msg := GetInt(msg, 4, Wrap(v.metric, 4), Be(q, 4) + (v.query + rows));
    qdim, msg := GetInt(msg, 4, q, v.query + rows);
    query, msg := GetBytes(msg, 4 * qdim, v.query, rows);
    state := new TopKState(k, Unwrap(metric, 4), query);
    GetRows(msg, state.heap, n, v.heap);
    state.n := n;
    SameHeap(state.heap[..], n, v.heap);
  }

  lemma SameHeap(s: seq<Row>, n: nat, t: seq<Row>)
    requires n == |t| <= |s| && HoldsRows(t, n)
    requires forall i :: 0 <= i < n ==> s[i] == t[i]
    ensures HoldsRows(s, n) && s[..n] == t
  {
  }

  // ---------- whole aggregates ----------

  /** A parallel plan: workers scan rows, and partial states are merged in any tree. */
  datatype Plan = Worker(rows: seq<Row>) | Merge(left: Plan, right: Plan)

  function AllRows(plan: Plan): seq<Row> {
    match plan
    case Worker(rows) => rows
    case Merge(left, right) => AllRows(left) + AllRows(right)
  }

  ghost predicate PlanOk(plan: Plan) {
    match plan
    case Worker(rows) => forall i :: 0 <= i < |rows| ==> IsRow(rows[i])
    case Merge(left, right) => PlanOk(left) && PlanOk(right)
  }

  /** A state (or no state, when no row arrived) holds the k nearest of a pool of rows. */
  ghost predicate Holds(state: TopKState?, k: nat, pool: seq<Row>)
    reads if state == null then {} else {state, state.heap}
  {
    if state == null then pool == []
    else state.Valid() && state.capacity == k && Selects(k, multiset(pool), Bag(state.heap[..], state.n))
  }

  function Limit(k: int): nat {
    if k > 0 then k else 0
  }

  /** topk_vector_sfunc over one worker's rows: the first row creates the state, or refuses the limit. */
  method Scan(rows: seq<Row>, limit: int, metric: int, query: seq<byte>) returns (refused: bool, state: TopKState?)
    requires (limit > 0 ==> Header(limit, metric, query)) && forall i :: 0 <= i < |rows| ==> IsRow(rows[i])
    ensures refused <==> limit <= 0 && rows != []
    ensures !refused ==> Holds(state, Limit(limit), rows) && (state != null ==> fresh(state) && fresh(state.heap))
  {
    refused, state := false, null;
    if rows == [] { return; }
    if limit <= 0 { return true, null; }
    var k: nat := limit;
    var s := new TopKState(k, metric, query);
    SelectsEmpty<Hit>(k);
    var i := 0;
    while i < |rows|
      invariant i <= |rows| && s.Valid() && s.capacity == k && fresh(s) && fresh(s.heap)
      invariant Selects(k, Bag(rows, i), Bag(s.heap[..], s.n))
    {
      PushSelects(s.heap[..], s.n, k, rows[i], Bag(rows, i));
      BagNext(rows, i);
      s.Offer(rows[i]);
      i := i + 1;
    }
    assert rows[..i] == rows;
    state := s;
  }

  /** The hand-off of a worker's state to the leader. */
  method HandOff(state: TopKState?, k: nat, ghost pool: seq<Row>) returns (copy: TopKState?)
    requires Holds(state, k, pool)
    ensures Holds(copy, k, pool) && (copy != null ==> fresh(copy) && fresh(copy.heap))
    ensures (copy == null) == (state == null) && (copy != null ==> copy.Value() == state.Value())
  {
    copy := null;
    if state != null {
      var data := state.Serialize();
      copy := Deserialize(data, state.Value());
    }
  }

  /** Both partial states arrive in byte form and are merged. */
  method ShipAndMerge(a: TopKState?, b: TopKState?, k: nat, ghost poolA: seq<Row>, ghost poolB: seq<Row>)
    returns (state: TopKState?)
    requires Holds(a, k, poolA) && Holds(b, k, poolB)
    ensures Holds(state, k, poolA + poolB) && (state != null ==> fresh(state) && fresh(state.heap))
  {
    var shippedA := HandOff(a, k, poolA);
    var shippedB := HandOff(b, k, poolB);
    state := CombineStates(shippedA, shippedB, k, poolA, poolB);
  }

  /** Runs a plan, shipping every partial state through its byte form before it is merged. */
  method Run(plan: Plan, limit: int, metric: int, query: seq<byte>) returns (refused: bool, state: TopKState?)
    requires (limit > 0 ==> Header(limit, metric, query)) && PlanOk(plan)
    ensures refused <==> limit <= 0 && AllRows(plan) != []
    ensures !refused ==>
      Holds(state, Limit(limit), AllRows(plan)) && (state != null ==> fresh(state) && fresh(state.heap))
    decreases plan
  {
    match plan
    case Worker(rows) =>
      refused, state := Scan(rows, limit, metric, query);
    case Merge(left, right) =>
      var a, b;
      refused, a := Run(left, limit, metric, query);
      if refused { return true, null; }
      refused, b := Run(right, limit, metric, query);
      if refused { return true, null; }
      state := ShipAndMerge(a, b, Limit(limit), AllRows(left), AllRows(right));
  }

  /** topk_vector_combine with its NULL cases. */
  method CombineStates(a: TopKState?, b: TopKState?, k: nat, ghost poolA: seq<Row>, ghost poolB: seq<Row>)
    returns (state: TopKState?)
    requires Holds(a, k, poolA) && Holds(b, k, poolB)
    requires a != null && b != null ==> a != b && a.heap != b.heap
    modifies if a == null then {} else {a, a.heap}
    ensures Holds(state, k, poolA + poolB)
    ensures state == if a == null then b else a
  {
    if a == null {
      assert poolA + poolB == poolB;
      return b;
    }
    if b == null {
      assert poolA + poolB == poolA;
      return a;
    }
    ghost var mine := Bag(a.heap[..], a.n);
    a.Combine(b);
    MergeSelects(k, multiset(poolA), mine, multiset(poolB), Bag(b.heap[..], b.n), Bag(a.heap[..], a.n));
    state := a;
  }

  /** topk_vector_finalize: the rows in rank order, or nothing when there is no state. */
  method Finalize(state: TopKState?, k: nat, ghost pool: seq<Row>) returns (ranked: seq<Row>)
    requires Holds(state, k, pool)
    ensures Answers(k, pool, ranked)
  {
    ranked := [];
    if state != null {
      var a := SortedCopy(state.heap, state.n);
      ranked := a[..];
    } else {
      SelectsEmpty<Hit>(k);
    }
  }

  /** A whole parallel aggregate, for any split of the rows and any merge tree. */
  method ParallelSearch(plan: Plan, limit: int, metric: int, query: seq<byte>) returns (r: SearchResult)
    requires (limit > 0 ==> Header(limit, metric, query)) && PlanOk(plan)
    ensures r.LimitNotPositive? <==> limit <= 0 && AllRows(plan) != []
    ensures r.Ranked? ==> Answers(Limit(limit), AllRows(plan), r.rows)
  {
    var refused, state := Run(plan, limit, metric, query);
    if refused { return LimitNotPositive; }
    var ranked := Finalize(state, Limit(limit), AllRows(plan));
    r := Ranked(ranked);
  }

  /** The parallel answer is the sequential one: the sorted k smallest distances of all rows, and the
      same rows when distances differ. */
  lemma ParallelIsSequential(plan: Plan, k: nat, parallel: seq<Row>, rows: seq<Row>, sequential: seq<Row>)
    requires multiset(rows) == multiset(AllRows(plan))
    requires Answers(k, AllRows(plan), parallel) && Answers(k, rows, sequential)
    ensures Dists(parallel) == Dists(sequential) == Dists(Sort(rows))[..Min(k, |rows|)]
    ensures DistinctDistances(multiset(rows)) ==> parallel == sequential == Sort(rows)[..Min(k, |rows|)]
  {
    AnswersAgree(k, AllRows(plan), parallel, rows, sequential);
    AnswerIsTopK(k, rows, sequential);
  }

  datatype SearchResult = LimitNotPositive | Ranked(rows: seq<Row>)

  /** The sequential scan of src/maludb_search.c: the heap has room for min(k, rows) entries. */
  method ExactSearch(rows: seq<Row>, k: int) returns (r: SearchResult)
    ensures k <= 0 <==> r.LimitNotPositive?
    ensures k > 0 ==> Answers(k, rows, r.rows)
  {
    if k <= 0 {
      return LimitNotPositive;
    }
    var cap := if k < |rows| then k else |rows|;
    var heap := NewHeap(cap);
    var n := ScanInto(rows, k, heap);
    var a := SortedCopy(heap, n);
    r := Ranked(a[..]);
  }

  method NewHeap(cap: nat) returns (heap: array<Row>)
    ensures fresh(heap) && heap.Length == if cap > 0 then cap else 1
  {
    heap := new Row[if cap > 0 then cap else 1](_ => Entry(0, 0.0, Hit([], 0, 0)));
  }
}
