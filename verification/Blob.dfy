/** The byte form of an index in src/maludb_ann.c: a 32-byte header, then chunk ids, edge rows and embeddings,
    all little-endian. Embedding components are opaque 32-bit words, read as signed. */
module Blob {
  import opened Bytes

  datatype IndexData = IndexData(metric: int, dim: nat, m: nat, efConstruct: int, entry: int,
                                 chunkIds: seq<int>, edges: seq<seq<int>>, embeddings: seq<seq<int>>)

  // ---------- fixed-width words ----------

  /** How one number is stored. */
  datatype Codec = Codec(put: int -> seq<byte>, get: seq<byte> -> int, width: nat)

  function Le32(): Codec {
    Codec(x => Le(Wrap(x, 4), 4), b => Unwrap(FromLe(b), 4), 4)
  }

  function Le64(): Codec {
    Codec(x => Le(Wrap(x, 8), 8), b => Unwrap(FromLe(b), 8), 8)
  }

  /** c stores x in its width and gives it back. */
  ghost predicate Lossless(c: Codec, x: int) {
    |c.put(x)| == c.width && c.get(c.put(x)) == x
  }

  lemma WordsAreLossless(x: int)
    ensures Int32(x) ==> Lossless(Le32(), x)
    ensures Int64(x) ==> Lossless(Le64(), x)
  {
    WrapRoundTrip(x);
    LeRoundTrip(Wrap(x, 4), 4);
    LeRoundTrip(Wrap(x, 8), 8);
  }

  ghost predicate AllLossless(c: Codec, s: seq<int>) {
    forall i :: 0 <= i < |s| ==> Lossless(c, s[i])
  }

  /** n * r, as n items of r bytes add up. */
  function Times(n: nat, r: nat): nat {
    if n == 0 then 0 else r + Times(n - 1, r)
  }

  lemma {:induction false} TimesIsProduct(n: nat, r: nat)
    ensures Times(n, r) == n * r
  {
    if n > 0 {
      TimesIsProduct(n - 1, r);
      assert n * r == (n - 1) * r + r;
    }
  }

  function Words(s: seq<int>, c: Codec): seq<byte> {
    if s == [] then [] else c.put(s[0]) + Words(s[1..], c)
  }

  /** Up to n words, as far as the bytes go. */
  function GetWords(b: seq<byte>, n: nat, c: Codec): seq<int>
    decreases n
  {
    if n == 0 || |b| < c.width then [] else [c.get(b[..c.width])] + GetWords(b[c.width..], n - 1, c)
  }

  lemma {:induction false} WordsSize(s: seq<int>, c: Codec)
    requires AllLossless(c, s)
    ensures |Words(s, c)| == Times(|s|, c.width)
  {
    if s != [] {
      assert Lossless(c, s[0]);
      WordsSize(s[1..], c);
    }
  }

  lemma {:induction false} WordsBack(s: seq<int>, c: Codec, rest: seq<byte>)
    requires AllLossless(c, s)
    ensures GetWords(Words(s, c) + rest, |s|, c) == s
  {
    if s != [] {
      assert Lossless(c, s[0]);
      var first, more := c.put(s[0]), Words(s[1..], c) + rest;
      assert Words(s, c) + rest == first + more;
      assert (first + more)[..c.width] == first && (first + more)[c.width..] == more;
      WordsBack(s[1..], c, rest);
    }
  }

  // ---------- rows of words ----------

  function RowWords(rows: seq<seq<int>>, c: Codec): seq<byte> {
    if rows == [] then [] else Words(rows[0], c) + RowWords(rows[1..], c)
  }

  function GetRows(b: seq<byte>, n: nat, cols: nat, c: Codec): seq<seq<int>>
    decreases n
  {
    var r := Times(cols, c.width);
    if n == 0 || |b| < r then [] else [GetWords(b, cols, c)] + GetRows(b[r..], n - 1, cols, c)
  }

  /** n rows of cols numbers that fit. */
  ghost predicate Table(rows: seq<seq<int>>, n: nat, cols: nat, c: Codec) {
    |rows| == n && forall i :: 0 <= i < n ==> |rows[i]| == cols && AllLossless(c, rows[i])
  }

  lemma {:induction false} TableSize(rows: seq<seq<int>>, n: nat, cols: nat, c: Codec)
    requires Table(rows, n, cols, c)
    ensures |RowWords(rows, c)| == Times(n, Times(cols, c.width))
  {
    if rows != [] {
      WordsSize(rows[0], c);
      assert Table(rows[1..], n - 1, cols, c);
      TableSize(rows[1..], n - 1, cols, c);
    }
  }

  lemma {:induction false} TableBack(rows: seq<seq<int>>, n: nat, cols: nat, c: Codec, rest: seq<byte>)
    requires Table(rows, n, cols, c)
    ensures GetRows(RowWords(rows, c) + rest, n, cols, c) == rows
  {
    if rows != [] {
      var first, more := Words(rows[0], c), RowWords(rows[1..], c) + rest;
      WordsSize(rows[0], c);
      assert RowWords(rows, c) + rest == first + more;
      assert (first + more)[Times(cols, c.width)..] == more;
      WordsBack(rows[0], c, more);
      assert Table(rows[1..], n - 1, cols, c);
      TableBack(rows[1..], n - 1, cols, c, rest);
    }
  }

  // ---------- the blob ----------

  const MAGIC: seq<byte> := [65, 78, 78, 49]

  function Header(x: IndexData): seq<int> {
    [x.metric, x.dim, x.m, x.efConstruct, |x.chunkIds|, x.entry, 0]
  }

  /** The layout, for any way of storing 4-byte and 8-byte numbers. */
  function Encode(x: IndexData, c4: Codec, c8: Codec): seq<byte> {
    MAGIC + (Words(Header(x), c4) + (Words(x.chunkIds, c8) + (RowWords(x.edges, c4) + RowWords(x.embeddings, c4))))
  }

  datatype Decoded = TooShort | BadMagic | Truncated | Graph(x: IndexData)

  function Decode(b: seq<byte>, c4: Codec, c8: Codec): Decoded {
    if |b| < 32 then TooShort
    else if b[..4] != MAGIC then BadMagic
    else DecodeBody(GetWords(b[4..], 7, c4), b[32..], c4, c8)
  }

  function DecodeBody(h: seq<int>, body: seq<byte>, c4: Codec, c8: Codec): Decoded {
    if |h| != 7 || h[1] < 0 || h[2] < 0 || h[4] < 0 then Truncated
    else DecodeSections(h, body, Times(h[4], 8), Times(h[4], Times(h[2], 4)), Times(h[4], Times(h[1], 4)), c4, c8)
  }

  function DecodeSections(h: seq<int>, body: seq<byte>, ids: nat, edges: nat, embs: nat, c4: Codec, c8: Codec): Decoded
    requires |h| == 7 && h[1] >= 0 && h[2] >= 0 && h[4] >= 0
  {
    if |body| < ids + edges + embs then Truncated
    else Graph(IndexData(h[0], h[1], h[2], h[3], h[5], GetWords(body, h[4], c8),
                         GetRows(body[ids..], h[4], h[2], c4), GetRows(body[ids + edges..], h[4], h[1], c4)))
  }

  /** Every number of x survives being stored. */
  ghost predicate Storable(x: IndexData, c4: Codec, c8: Codec) {
    && c4.width == 4 && c8.width == 8
    && AllLossless(c4, Header(x)) && AllLossless(c8, x.chunkIds)
    && Table(x.edges, |x.chunkIds|, x.m, c4) && Table(x.embeddings, |x.chunkIds|, x.dim, c4)
  }

  // ---------- size and round trip ----------

  lemma SectionSizes(x: IndexData, c4: Codec, c8: Codec)
    requires Storable(x, c4, c8)
    ensures var n := |x.chunkIds|;
      && |Words(Header(x), c4)| == 28 && |Words(x.chunkIds, c8)| == Times(n, 8)
      && |RowWords(x.edges, c4)| == Times(n, Times(x.m, 4)) && |RowWords(x.embeddings, c4)| == Times(n, Times(x.dim, 4))
  {
    WordsSize(Header(x), c4);
    TimesFour(7);
    WordsSize(x.chunkIds, c8);
    TableSize(x.edges, |x.chunkIds|, x.m, c4);
    TableSize(x.embeddings, |x.chunkIds|, x.dim, c4);
  }

  lemma {:induction false} TimesAdds(n: nat, a: nat, b: nat)
    ensures Times(n, a + b) == Times(n, a) + Times(n, b)
  {
    if n > 0 {
      TimesAdds(n - 1, a, b);
    }
  }

  lemma {:induction false} TimesFour(n: nat)
    ensures Times(n, 4) == 4 * n
  {
    if n > 0 {
      TimesFour(n - 1);
    }
  }

  lemma PerNode(n: nat, m: nat, dim: nat)
    ensures Times(n, 8) + Times(n, Times(m, 4)) + Times(n, Times(dim, 4)) == n * (8 + 4 * m + 4 * dim)
  {
    TimesFour(m);
    TimesFour(dim);
    TimesAdds(n, 8, 4 * m);
    TimesAdds(n, 8 + 4 * m, 4 * dim);
    TimesIsProduct(n, 8 + 4 * m + 4 * dim);
  }

  lemma EncodedSize(x: IndexData, c4: Codec, c8: Codec)
    requires Storable(x, c4, c8)
    ensures |Encode(x, c4, c8)| == 32 + |x.chunkIds| * (8 + 4 * x.m + 4 * x.dim)
  {
    SectionSizes(x, c4, c8);
    PerNode(|x.chunkIds|, x.m, x.dim);
  }

  lemma Sections(a: seq<byte>, b: seq<byte>, c: seq<byte>, d: seq<byte>, e: seq<byte>, extra: seq<byte>)
    ensures var whole, body := a + (b + (c + (d + e))) + extra, c + (d + (e + extra));
      && |whole| >= |a| + |b| && whole[..|a|] == a && whole[|a|..] == b + body && whole[|a| + |b|..] == body
      && |body| >= |c| + |d| + |e| && body[|c|..] == d + (e + extra) && body[|c| + |d|..] == e + extra
  {
    assert (d + e) + extra == d + (e + extra);
    assert (c + (d + e)) + extra == c + ((d + e) + extra);
    assert (b + (c + (d + e))) + extra == b + ((c + (d + e)) + extra);
    assert a + (b + (c + (d + e))) + extra == a + (b + (c + (d + (e + extra))));
  }

  lemma DecodesSections(x: IndexData, body: seq<byte>, rest: seq<byte>, last: seq<byte>, ids: nat, edges: nat,
                        embs: nat, c4: Codec, c8: Codec)
    requires |body| >= ids + edges + embs && body[ids..] == rest && body[ids + edges..] == last
    requires GetWords(body, |x.chunkIds|, c8) == x.chunkIds
    requires GetRows(rest, |x.chunkIds|, x.m, c4) == x.edges
    requires GetRows(last, |x.chunkIds|, x.dim, c4) == x.embeddings
    ensures DecodeSections(Header(x), body, ids, edges, embs, c4, c8) == Graph(x)
  {
  }

  lemma DecodesHeader(b: seq<byte>, h: seq<int>, rest: seq<byte>, body: seq<byte>, c4: Codec, c8: Codec)
    requires |b| >= 32 && b[..4] == MAGIC && b[4..] == rest && b[32..] == body && GetWords(rest, 7, c4) == h
    ensures Decode(b, c4, c8) == DecodeBody(h, body, c4, c8)
  {
  }

  lemma BodyBack(x: IndexData, c4: Codec, c8: Codec, ids: seq<byte>, edges: seq<byte>, embs: seq<byte>,
                 extra: seq<byte>)
    requires Storable(x, c4, c8) && ids == Words(x.chunkIds, c8)
    requires edges == RowWords(x.edges, c4) && embs == RowWords(x.embeddings, c4)
    ensures DecodeBody(Header(x), ids + (edges + (embs + extra)), c4, c8) == Graph(x)
  {
    var n, body := |x.chunkIds|, ids + (edges + (embs + extra));
    SectionSizes(x, c4, c8);
    Sections([], [], ids, edges, embs, extra);
    WordsBack(x.chunkIds, c8, edges + (embs + extra));
    TableBack(x.edges, n, x.m, c4, embs + extra);
    TableBack(x.embeddings, n, x.dim, c4, extra);
    DecodesSections(x, body, edges + (embs + extra), embs + extra, |ids|, |edges|, |embs|, c4, c8);
  }

  lemma EncodedBack(x: IndexData, c4: Codec, c8: Codec, extra: seq<byte>)
    requires Storable(x, c4, c8)
    ensures Decode(Encode(x, c4, c8) + extra, c4, c8) == Graph(x)
  {
    var head, ids := Words(Header(x), c4), Words(x.chunkIds, c8);
    var edges, embs := RowWords(x.edges, c4), RowWords(x.embeddings, c4);
    var body := ids + (edges + (embs + extra));
    SectionSizes(x, c4, c8);
    Sections(MAGIC, head, ids, edges, embs, extra);
    WordsBack(Header(x), c4, body);
    DecodesHeader(Encode(x, c4, c8) + extra, Header(x), head + body, body, c4, c8);
    BodyBack(x, c4, c8, ids, edges, embs, extra);
  }

  // ---------- little-endian words ----------

  ghost predicate All32(s: seq<int>) {
    forall i :: 0 <= i < |s| ==> Int32(s[i])
  }

  ghost predicate Rows32(rows: seq<seq<int>>, n: nat, cols: nat) {
    |rows| == n && forall i :: 0 <= i < n ==> |rows[i]| == cols && All32(rows[i])
  }

  /** A graph as the builder holds it: every number fits its field. */
  ghost predicate WellFormed(x: IndexData) {
    && Int32(x.metric) && Int32(x.dim) && Int32(x.m) && Int32(x.efConstruct) && Int32(|x.chunkIds|) && Int32(x.entry)
    && (forall i :: 0 <= i < |x.chunkIds| ==> Int64(x.chunkIds[i]))
    && Rows32(x.edges, |x.chunkIds|, x.m) && Rows32(x.embeddings, |x.chunkIds|, x.dim)
  }

  function EncodeBlob(x: IndexData): seq<byte> {
    Encode(x, Le32(), Le64())
  }

  function DecodeBlob(b: seq<byte>): Decoded {
    Decode(b, Le32(), Le64())
  }

  lemma FitsLossless(s: seq<int>)
    requires All32(s)
    ensures AllLossless(Le32(), s)
  {
    forall i | 0 <= i < |s|
      ensures Lossless(Le32(), s[i])
    {
      WordsAreLossless(s[i]);
    }
  }

  lemma IdsLossless(s: seq<int>)
    requires forall i :: 0 <= i < |s| ==> Int64(s[i])
    ensures AllLossless(Le64(), s)
  {
    forall i | 0 <= i < |s|
      ensures Lossless(Le64(), s[i])
    {
      WordsAreLossless(s[i]);
    }
  }

  lemma RowsTable(rows: seq<seq<int>>, n: nat, cols: nat)
    requires Rows32(rows, n, cols)
    ensures Table(rows, n, cols, Le32())
  {
    forall i | 0 <= i < n
      ensures AllLossless(Le32(), rows[i])
    {
      FitsLossless(rows[i]);
    }
  }

  lemma WellFormedIsStorable(x: IndexData)
    requires WellFormed(x)
    ensures Storable(x, Le32(), Le64())
  {
    FitsLossless(Header(x));
    IdsLossless(x.chunkIds);
    RowsTable(x.edges, |x.chunkIds|, x.m);
    RowsTable(x.embeddings, |x.chunkIds|, x.dim);
  }

  /** The blob has the documented size. */
  lemma BlobSize(x: IndexData)
    requires WellFormed(x)
    ensures |EncodeBlob(x)| == 32 + |x.chunkIds| * (8 + 4 * x.m + 4 * x.dim)
  {
    WellFormedIsStorable(x);
    EncodedSize(x, Le32(), Le64());
  }

  /** Decoding a written blob, even with bytes after it, gives back every field. */
  lemma BlobRoundTrip(x: IndexData, extra: seq<byte>)
    requires WellFormed(x)
    ensures DecodeBlob(EncodeBlob(x) + extra) == Graph(x)
  {
    WellFormedIsStorable(x);
    EncodedBack(x, Le32(), Le64(), extra);
  }

  // ---------- the layout byte by byte ----------

  /** The four bytes at an offset hold x, least significant byte first, in two's complement. */
  ghost predicate Holds32(b: seq<byte>, off: nat, x: int) {
    && off + 4 <= |b|
    && Value32(b[off], b[off + 1], b[off + 2], b[off + 3]) == if x < 0 then x + 0x1_0000_0000 else x
  }

  function Value32(p: int, q: int, r: int, s: int): int {
    p + 0x100 * q + 0x1_0000 * r + 0x100_0000 * s
  }

  /** The same of eight bytes. */
  ghost predicate Holds64(b: seq<byte>, off: nat, x: int) {
    && off + 8 <= |b|
    && Value32(b[off], b[off + 1], b[off + 2], b[off + 3])
       + 0x1_0000_0000 * Value32(b[off + 4], b[off + 5], b[off + 6], b[off + 7])
       == if x < 0 then x + 0x1_0000_0000_0000_0000 else x
  }

  lemma SplitIntoFour(n: nat)
    ensures Value32(n % 256, n / 256 % 256, n / 256 / 256 % 256, n / 256 / 256 / 256 % 256)
      + 0x1_0000_0000 * (n / 256 / 256 / 256 / 256) == n
  {
    var n1, n2, n3 := n / 256, n / 256 / 256, n / 256 / 256 / 256;
    assert n == 256 * n1 + n % 256 && n1 == 256 * n2 + n1 % 256;
    assert n2 == 256 * n3 + n2 % 256 && n3 == 256 * (n3 / 256) + n3 % 256;
  }

  lemma LeNext(n: nat, w: nat)
    requires w > 0
    ensures Le(n, w) == [n % 256] + Le(n / 256, w - 1)
  {
  }

  /** The first four bytes hold what the others do not. */
  lemma LeFour(n: nat, w: nat, b: seq<byte>) returns (high: nat)
    requires w >= 4 && b == Le(n, w)
    ensures b[4..] == Le(high, w - 4) && Value32(b[0], b[1], b[2], b[3]) + 0x1_0000_0000 * high == n
  {
    LeNext(n, w);
    LeNext(n / 256, w - 1);
    LeNext(n / 256 / 256, w - 2);
    LeNext(n / 256 / 256 / 256, w - 3);
    high := n / 256 / 256 / 256 / 256;
    SplitIntoFour(n);
  }

  lemma BytesAreSmall(b: seq<byte>)
    requires |b| >= 4
    ensures 0 <= Value32(b[0], b[1], b[2], b[3]) < 0x1_0000_0000
  {
  }

  lemma FourBytes(n: nat, b: seq<byte>, w: nat)
    requires w == 4 && b == Le(n, w) && n < 0x1_0000_0000
    ensures Value32(b[0], b[1], b[2], b[3]) == n
  {
    var high := LeFour(n, w, b);
    BytesAreSmall(b);
  }

  lemma EightBytes(n: nat, b: seq<byte>, w: nat)
    requires w == 8 && b == Le(n, w) && n < 0x1_0000_0000_0000_0000
    ensures Value32(b[0], b[1], b[2], b[3]) + 0x1_0000_0000 * Value32(b[4], b[5], b[6], b[7]) == n
  {
    var high := LeFour(n, w, b);
    BytesAreSmall(b);
    FourBytes(high, b[4..], w - 4);
  }

  lemma SignedWraps(x: int, w: nat)
    ensures w == 4 && Int32(x) ==> Wrap(x, w) == (if x < 0 then x + 0x1_0000_0000 else x) < 0x1_0000_0000
    ensures w == 8 && Int64(x) ==>
      Wrap(x, w) == (if x < 0 then x + 0x1_0000_0000_0000_0000 else x) < 0x1_0000_0000_0000_0000
  {
    SpanOf();
  }

  /** c stores numbers in four bytes, least significant first. */
  ghost predicate Small(c: Codec) {
    forall x :: Int32(x) ==> |c.put(x)| == 4 && Holds32(c.put(x), 0, x)
  }

  /** c stores numbers in eight bytes, least significant first. */
  ghost predicate Large(c: Codec) {
    forall x :: Int64(x) ==> |c.put(x)| == 8 && Holds64(c.put(x), 0, x)
  }

  lemma WordHolds(b: seq<byte>, x: int, w: nat)
    requires w == 4 && b == Le(Wrap(x, w), w) && Int32(x)
    ensures |b| == 4 && Holds32(b, 0, x)
  {
    SignedWraps(x, w);
    FourBytes(Wrap(x, w), b, w);
  }

  lemma LongHolds(b: seq<byte>, x: int, w: nat)
    requires w == 8 && b == Le(Wrap(x, w), w) && Int64(x)
    ensures |b| == 8 && Holds64(b, 0, x)
  {
    SignedWraps(x, w);
    EightBytes(Wrap(x, w), b, w);
  }

  lemma WordsAreSmall()
    ensures Small(Le32())
  {
    forall x | Int32(x)
      ensures |Le32().put(x)| == 4 && Holds32(Le32().put(x), 0, x)
    {
      WordHolds(Le32().put(x), x, 4);
    }
  }

  lemma LongsAreLarge()
    ensures Large(Le64())
  {
    forall x | Int64(x)
      ensures |Le64().put(x)| == 8 && Holds64(Le64().put(x), 0, x)
    {
      LongHolds(Le64().put(x), x, 8);
    }
  }

  lemma Stored32(b: seq<byte>, off: nat, c: Codec, x: int)
    requires off + 4 <= |b| && Small(c) && Int32(x) && b[off..off + 4] == c.put(x)
    ensures Holds32(b, off, x)
  {
  }

  lemma Stored64(b: seq<byte>, off: nat, c: Codec, x: int)
    requires off + 8 <= |b| && Large(c) && Int64(x) && b[off..off + 8] == c.put(x)
    ensures Holds64(b, off, x)
  {
  }

  /** Word i of a list stands i words into it. */
  lemma {:induction false} WordAt(s: seq<int>, c: Codec, i: nat)
    requires AllLossless(c, s) && i < |s|
    ensures var off := Times(i, c.width);
      off + c.width <= |Words(s, c)| && Words(s, c)[off..off + c.width] == c.put(s[i])
  {
    assert Lossless(c, s[0]);
    WordsSize(s[1..], c);
    if i > 0 {
      var first, more, off := c.put(s[0]), Words(s[1..], c), Times(i - 1, c.width);
      WordAt(s[1..], c, i - 1);
      assert (first + more)[c.width + off..c.width + off + c.width] == more[off..off + c.width];
    }
  }

  /** Number j of row i of a table. */
  lemma CellAt(rows: seq<seq<int>>, n: nat, cols: nat, c: Codec, i: nat, j: nat)
    requires Table(rows, n, cols, c) && i < n && j < cols
    ensures var off := Times(i, Times(cols, c.width)) + Times(j, c.width);
      off + c.width <= |RowWords(rows, c)| && RowWords(rows, c)[off..off + c.width] == c.put(rows[i][j])
  {
    CellsAt(rows, n, cols, c, i, RowWords(rows, c), j, Times(j, c.width));
  }

  lemma {:induction false} CellsAt(rows: seq<seq<int>>, n: nat, cols: nat, c: Codec, i: nat, b: seq<byte>, j: nat,
                                   at: nat)
    requires Table(rows, n, cols, c) && i < n && j < cols && b == RowWords(rows, c) && at == Times(j, c.width)
    ensures var off := Times(i, Times(cols, c.width)) + at;
      off + c.width <= |b| && b[off..off + c.width] == c.put(rows[i][j])
  {
    var first, more, r := Words(rows[0], c), RowWords(rows[1..], c), Times(cols, c.width);
    RowIsLossless(rows, n, cols, c, 0);
    if i == 0 {
      WordAt(rows[0], c, j);
      SliceOfFirst(first, more, at, c.width);
    } else {
      assert Table(rows[1..], n - 1, cols, c);
      CellsAt(rows[1..], n - 1, cols, c, i - 1, more, j, at);
      SliceOfRest(first, more, Times(i - 1, r) + at, c.width);
    }
  }

  lemma SliceOfFirst(first: seq<byte>, more: seq<byte>, at: nat, w: nat)
    requires at + w <= |first|
    ensures (first + more)[at..at + w] == first[at..at + w]
  {
  }

  lemma SliceOfRest(first: seq<byte>, more: seq<byte>, at: nat, w: nat)
    requires at + w <= |more|
    ensures (first + more)[|first| + at..|first| + at + w] == more[at..at + w]
  {
  }

  lemma RowIsLossless(rows: seq<seq<int>>, n: nat, cols: nat, c: Codec, i: nat)
    requires Table(rows, n, cols, c) && i < n
    ensures |rows[i]| == cols && AllLossless(c, rows[i]) && |Words(rows[i], c)| == Times(cols, c.width)
  {
    WordsSize(rows[i], c);
  }

  /** A slice of a part is a slice of the whole, as much further on as the part starts. */
  lemma SliceOfPart(front: seq<byte>, part: seq<byte>, back: seq<byte>, at: nat, w: nat)
    requires at + w <= |part|
    ensures (front + (part + back))[|front| + at..|front| + at + w] == part[at..at + w]
  {
    var whole := front + (part + back);
    assert forall k :: 0 <= k < |part| ==> whole[|front| + k] == part[k];
  }

  /** The five sections, split around each of them. */
  lemma Around(a: seq<byte>, b: seq<byte>, c: seq<byte>, d: seq<byte>, e: seq<byte>)
    ensures a + (b + (c + (d + e))) == (a + b) + (c + (d + e)) == (a + b + c) + (d + e) == (a + b + c + d) + (e + [])
  {
    assert a + (b + (c + (d + e))) == (a + b) + (c + (d + e));
    assert (a + b) + (c + (d + e)) == (a + b + c) + (d + e);
    assert (a + b + c) + (d + e) == (a + b + c + d) + (e + []);
  }

  lemma TimesEight(n: nat)
    ensures Times(n, 8) == 8 * n
  {
    TimesIsProduct(n, 8);
  }

  lemma HeaderAt(x: IndexData, c4: Codec, c8: Codec, k: nat)
    requires Storable(x, c4, c8) && k < 7
    ensures |Encode(x, c4, c8)| >= 32 && Encode(x, c4, c8)[4 + 4 * k..8 + 4 * k] == c4.put(Header(x)[k])
  {
    SectionSizes(x, c4, c8);
    WordAt(Header(x), c4, k);
    TimesFour(k);
    SliceOfPart(MAGIC, Words(Header(x), c4),
                Words(x.chunkIds, c8) + (RowWords(x.edges, c4) + RowWords(x.embeddings, c4)), 4 * k, 4);
  }

  lemma IdAt(x: IndexData, c4: Codec, c8: Codec, i: nat)
    requires Storable(x, c4, c8) && i < |x.chunkIds|
    ensures var off := 32 + 8 * i;
      off + 8 <= |Encode(x, c4, c8)| && Encode(x, c4, c8)[off..off + 8] == c8.put(x.chunkIds[i])
  {
    SectionSizes(x, c4, c8);
    WordAt(x.chunkIds, c8, i);
    TimesEight(i);
    var head, ids := Words(Header(x), c4), Words(x.chunkIds, c8);
    var edges, embs := RowWords(x.edges, c4), RowWords(x.embeddings, c4);
    Around(MAGIC, head, ids, edges, embs);
    SliceOfPart(MAGIC + head, ids, edges + embs, 8 * i, 8);
  }

  /** Where number j of row i stands in rows of cols four-byte words. */
  function Cell(cols: nat, i: nat, j: nat): nat {
    4 * (cols * i + j)
  }

  lemma CellOffset(i: nat, cols: nat, j: nat)
    ensures Times(i, Times(cols, 4)) + Times(j, 4) == Cell(cols, i, j)
  {
    TimesFour(cols);
    TimesFour(j);
    TimesIsProduct(i, 4 * cols);
    assert i * (4 * cols) == 4 * (cols * i);
  }

  lemma EdgeAt(x: IndexData, c4: Codec, c8: Codec, i: nat, j: nat)
    requires Storable(x, c4, c8) && i < |x.chunkIds| && j < x.m
    ensures var off := 32 + 8 * |x.chunkIds| + Cell(x.m, i, j);
      off + 4 <= |Encode(x, c4, c8)| && Encode(x, c4, c8)[off..off + 4] == c4.put(x.edges[i][j])
  {
    SectionSizes(x, c4, c8);
    CellAt(x.edges, |x.chunkIds|, x.m, c4, i, j);
    CellOffset(i, x.m, j);
    TimesEight(|x.chunkIds|);
    var head, ids := Words(Header(x), c4), Words(x.chunkIds, c8);
    var edges, embs := RowWords(x.edges, c4), RowWords(x.embeddings, c4);
    Around(MAGIC, head, ids, edges, embs);
    SliceOfPart(MAGIC + head + ids, edges, embs, Cell(x.m, i, j), 4);
  }

  lemma EmbeddingAt(x: IndexData, c4: Codec, c8: Codec, i: nat, j: nat)
    requires Storable(x, c4, c8) && i < |x.chunkIds| && j < x.dim
    ensures var off := 32 + 8 * |x.chunkIds| + Cell(x.m, |x.chunkIds|, 0) + Cell(x.dim, i, j);
      off + 4 <= |Encode(x, c4, c8)| && Encode(x, c4, c8)[off..off + 4] == c4.put(x.embeddings[i][j])
  {
    SectionSizes(x, c4, c8);
    CellAt(x.embeddings, |x.chunkIds|, x.dim, c4, i, j);
    CellOffset(i, x.dim, j);
    CellOffset(|x.chunkIds|, x.m, 0);
    TimesEight(|x.chunkIds|);
    var head, ids := Words(Header(x), c4), Words(x.chunkIds, c8);
    var edges, embs := RowWords(x.edges, c4), RowWords(x.embeddings, c4);
    Around(MAGIC, head, ids, edges, embs);
    SliceOfPart(MAGIC + head + ids + edges, embs, [], Cell(x.dim, i, j), 4);
  }

  /** The header of every blob, offset by offset: "ANN1" and seven words. */
  lemma BlobHeader(x: IndexData, b: seq<byte>)
    requires WellFormed(x) && b == EncodeBlob(x)
    ensures |b| >= 32 && b[0] == 0x41 && b[1] == 0x4E && b[2] == 0x4E && b[3] == 0x31
    ensures Holds32(b, 4, x.metric) && Holds32(b, 8, x.dim) && Holds32(b, 12, x.m) && Holds32(b, 16, x.efConstruct)
    ensures Holds32(b, 20, |x.chunkIds|) && Holds32(b, 24, x.entry) && Holds32(b, 28, 0)
  {
    WellFormedIsStorable(x);
    WordsAreSmall();
    HeaderWords(x, b, Le32(), Le64());
  }

  lemma HeaderWords(x: IndexData, b: seq<byte>, c4: Codec, c8: Codec)
    requires WellFormed(x) && Storable(x, c4, c8) && Small(c4) && b == Encode(x, c4, c8)
    ensures |b| >= 32 && b[0] == 0x41 && b[1] == 0x4E && b[2] == 0x4E && b[3] == 0x31
    ensures Holds32(b, 4, x.metric) && Holds32(b, 8, x.dim) && Holds32(b, 12, x.m) && Holds32(b, 16, x.efConstruct)
    ensures Holds32(b, 20, |x.chunkIds|) && Holds32(b, 24, x.entry) && Holds32(b, 28, 0)
  {
    HeaderWord(x, b, 0, c4, c8);
    HeaderWord(x, b, 1, c4, c8);
    HeaderWord(x, b, 2, c4, c8);
    HeaderWord(x, b, 3, c4, c8);
    HeaderWord(x, b, 4, c4, c8);
    HeaderWord(x, b, 5, c4, c8);
    HeaderWord(x, b, 6, c4, c8);
  }

  lemma HeaderWord(x: IndexData, b: seq<byte>, k: nat, c4: Codec, c8: Codec)
    requires WellFormed(x) && Storable(x, c4, c8) && Small(c4) && b == Encode(x, c4, c8) && k < 7
    ensures |b| >= 32 && Holds32(b, 4 + 4 * k, Header(x)[k])
  {
    HeaderAt(x, c4, c8, k);
    Stored32(b, 4 + 4 * k, c4, Header(x)[k]);
  }

  /** The sections of every blob, offset by offset: the ids, the rows of edges, the embeddings. */
  lemma BlobSections(x: IndexData, b: seq<byte>, i: nat)
    requires WellFormed(x) && b == EncodeBlob(x) && i < |x.chunkIds|
    ensures Holds64(b, 32 + 8 * i, x.chunkIds[i])
    ensures forall j :: 0 <= j < x.m ==> Holds32(b, 32 + 8 * |x.chunkIds| + Cell(x.m, i, j), x.edges[i][j])
    ensures forall j :: 0 <= j < x.dim ==>
      Holds32(b, 32 + 8 * |x.chunkIds| + Cell(x.m, |x.chunkIds|, 0) + Cell(x.dim, i, j), x.embeddings[i][j])
  {
    WellFormedIsStorable(x);
    WordsAreSmall();
    LongsAreLarge();
    IdHolds(x, b, i, Le32(), Le64());
    forall j: nat | j < x.m
      ensures Holds32(b, 32 + 8 * |x.chunkIds| + Cell(x.m, i, j), x.edges[i][j])
    {
      EdgeHolds(x, b, i, j, Le32(), Le64());
    }
    forall j: nat | j < x.dim
      ensures Holds32(b, 32 + 8 * |x.chunkIds| + Cell(x.m, |x.chunkIds|, 0) + Cell(x.dim, i, j), x.embeddings[i][j])
    {
      EmbeddingHolds(x, b, i, j, Le32(), Le64());
    }
  }

  lemma IdHolds(x: IndexData, b: seq<byte>, i: nat, c4: Codec, c8: Codec)
    requires WellFormed(x) && Storable(x, c4, c8) && Large(c8) && b == Encode(x, c4, c8) && i < |x.chunkIds|
    ensures Holds64(b, 32 + 8 * i, x.chunkIds[i])
  {
    IdAt(x, c4, c8, i);
    Stored64(b, 32 + 8 * i, c8, x.chunkIds[i]);
  }

  lemma EdgeHolds(x: IndexData, b: seq<byte>, i: nat, j: nat, c4: Codec, c8: Codec)
    requires WellFormed(x) && Storable(x, c4, c8) && Small(c4) && b == Encode(x, c4, c8)
    requires i < |x.chunkIds| && j < x.m
    ensures Holds32(b, 32 + 8 * |x.chunkIds| + Cell(x.m, i, j), x.edges[i][j])
  {
    EdgeAt(x, c4, c8, i, j);
    assert All32(x.edges[i]);
    Stored32(b, 32 + 8 * |x.chunkIds| + Cell(x.m, i, j), c4, x.edges[i][j]);
  }

  lemma EmbeddingHolds(x: IndexData, b: seq<byte>, i: nat, j: nat, c4: Codec, c8: Codec)
    requires WellFormed(x) && Storable(x, c4, c8) && Small(c4) && b == Encode(x, c4, c8)
    requires i < |x.chunkIds| && j < x.dim
    ensures Holds32(b, 32 + 8 * |x.chunkIds| + Cell(x.m, |x.chunkIds|, 0) + Cell(x.dim, i, j), x.embeddings[i][j])
  {
    EmbeddingAt(x, c4, c8, i, j);
    assert All32(x.embeddings[i]);
    var off := 32 + 8 * |x.chunkIds| + Cell(x.m, |x.chunkIds|, 0) + Cell(x.dim, i, j);
    Stored32(b, off, c4, x.embeddings[i][j]);
  }
}
