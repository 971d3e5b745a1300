/** The frames of services/maludb-realtimed/src/maludb_realtimed/ws.py against sections 5.2 and 5.3 of RFC 6455. */
module WebSocket {
  import opened Bytes
  import opened Options
  import opened Seqs
  import opened Bitset

  const CLOSE: nat := 8

  // ---------- masking ----------

  /** Exclusive or of the low w bits. */
  function Xor(a: nat, b: nat, w: nat): (r: nat)
    decreases w
  {
    if w == 0 then 0 else 2 * Xor(a / 2, b / 2, w - 1) + Differ(a, b)
  }

  /** Whether the lowest bits differ. */
  function Differ(a: nat, b: nat): nat {
    if a % 2 == b % 2 then 0 else 1
  }

  lemma {:induction false} XorTwice(a: nat, b: nat, w: nat)
    requires a < Pow2(w)
    ensures Xor(Xor(a, b, w), b, w) == a && Xor(a, b, w) < Pow2(w)
    decreases w
  {
    if w > 0 {
      XorTwice(a / 2, b / 2, w - 1);
      var x := Xor(a / 2, b / 2, w - 1);
      var c := Differ(a, b);
      assert Xor(a, b, w) / 2 == x && Xor(a, b, w) % 2 == c;
    }
  }

  /** Bit by bit the result is set where exactly one of the two is. */
  lemma {:induction false} XorBits(a: nat, b: nat, w: nat, i: nat)
    requires i < w
    ensures Bit(Xor(a, b, w), i) <==> Bit(a, i) != Bit(b, i)
    decreases w
  {
    var x := Xor(a, b, w);
    assert x / 2 == Xor(a / 2, b / 2, w - 1) && x % 2 == Differ(a, b);
    if i > 0 {
      XorBits(a / 2, b / 2, w - 1, i - 1);
    }
  }

  lemma ByteIsEightBits()
    ensures Pow2(8) == 256
  {
    assert Pow2(2) == 4;
    assert Pow2(4) == 16;
    assert Pow2(6) == 64;
  }

  function MaskByte(a: byte, m: byte): (r: byte) {
    ByteIsEightBits();
    XorTwice(a, m, 8);
    Xor(a, m, 8)
  }

  lemma MaskTwice(a: byte, m: byte)
    ensures MaskByte(MaskByte(a, m), m) == a
  {
    ByteIsEightBits();
    XorTwice(a, m, 8);
  }

  /** Section 5.3: the masking key is repeated over the payload. */
  function Masked(s: seq<byte>, key: seq<byte>): (r: seq<byte>)
    requires |key| == 4
    ensures |r| == |s|
  {
    seq(|s|, i requires 0 <= i < |s| => MaskByte(s[i], key[i % 4]))
  }

  lemma MaskedTwice(s: seq<byte>, key: seq<byte>)
    requires |key| == 4
    ensures Masked(Masked(s, key), key) == s
  {
    forall i | 0 <= i < |s|
      ensures Masked(Masked(s, key), key)[i] == s[i]
    {
      MaskTwice(s[i], key[i % 4]);
    }
  }

  // ---------- what a receiver makes of the bytes ----------

  /** Truncated stands for the index and unpacking errors of a stream that ends too early. */
  datatype Received = Frame(opcode: nat, payload: seq<byte>) | Unmasked | Fragmented | Truncated

  /** How many bytes of extended length follow a seven-bit length code. */
  function ExtWidth(code: nat): nat {
    if code == 126 then 2 else if code == 127 then 8 else 0
  }

  function LengthOf(code: nat, ext: seq<byte>): nat {
    if ext == [] then code else FromBe(ext)
  }

  function Upto(n: nat, s: seq<byte>): (r: nat)
    ensures r <= n && r <= |s|
  {
    if n < |s| then n else |s|
  }

  /** The rest of a masked frame: key and payload; returns what was consumed of s. */
  function ParseBody(fin: bool, opcode: nat, len: nat, s: seq<byte>): (Received, nat) {
    if len > 0 && |s| < 4 + len then (Truncated, |s|)
    else if !fin then (Fragmented, if len > 0 then 4 + len else Upto(4, s))
    else if len == 0 then (Frame(opcode, []), Upto(4, s))
    else (Frame(opcode, Masked(s[4..4 + len], s[..4])), 4 + len)
  }

  /** A frame after its first two bytes. */
  function ParseFrame(b1: byte, b2: byte, s: seq<byte>): (r: (Received, nat)) {
    var w := ExtWidth(b2 % 128);
    if |s| < w then (Truncated, |s|)
    else if b2 < 128 then (Unmasked, w)
    else
      var (r, n) := ParseBody(b1 >= 128, b1 % 16, LengthOf(b2 % 128, s[..w]), s[w..]);
      (r, w + n)
  }

  /** What recv_frame returns on a stream that holds s, and how many bytes it takes from it. */
  function Parse(s: seq<byte>): (r: (Received, nat)) {
    if s == [] then (Frame(CLOSE, []), 0)
    else if |s| == 1 then (Truncated, 1)
    else
      var (r, n) := ParseFrame(s[0], s[1], s[2..]);
      (r, 2 + n)
  }

  // ---------- client frames ----------

  /** A final, masked frame; code chooses any length form that can hold the payload's size. */
  datatype ClientFrame = ClientFrame(opcode: nat, code: nat, key: seq<byte>, payload: seq<byte>)

  ghost predicate FrameOk(f: ClientFrame) {
    && f.opcode < 16 && f.code < 128 && |f.key| == 4
    && if ExtWidth(f.code) == 0 then f.code == |f.payload| else |f.payload| < Span(ExtWidth(f.code))
  }

  function Extended(code: nat, n: nat): (r: seq<byte>)
    ensures |r| == ExtWidth(code)
  {
    Be(n, ExtWidth(code))
  }

  function Wire(f: ClientFrame): (r: seq<byte>)
    requires FrameOk(f)
  {
    [128 + f.opcode, 128 + f.code] + (Extended(f.code, |f.payload|) + (f.key + Masked(f.payload, f.key)))
  }

  lemma ExtendedBack(code: nat, n: nat)
    requires if ExtWidth(code) == 0 then code == n else n < Span(ExtWidth(code))
    ensures LengthOf(code, Extended(code, n)) == n
  {
    if ExtWidth(code) > 0 {
      BeRoundTrip(n, ExtWidth(code));
    }
  }

  lemma BodyBack(opcode: nat, key: seq<byte>, payload: seq<byte>, rest: seq<byte>)
    requires |key| == 4
    ensures ParseBody(true, opcode, |payload|, key + Masked(payload, key) + rest)
         == (Frame(opcode, payload), 4 + |payload|)
  {
    var s := key + Masked(payload, key) + rest;
    MaskedTwice(payload, key);
    assert s[..4] == key;
    assert s[4..4 + |payload|] == Masked(payload, key);
  }

  lemma HeaderBack(a: byte, b: byte, ext: seq<byte>, body: seq<byte>)
    requires b >= 128 && |ext| == ExtWidth(b % 128)
    ensures var (r, n) := ParseBody(a >= 128, a % 16, LengthOf(b % 128, ext), body);
      Parse([a, b] + ext + body) == (r, 2 + |ext| + n)
  {
    var s := [a, b] + ext + body;
    assert s[2..] == ext + body;
    assert (ext + body)[..|ext|] == ext && (ext + body)[|ext|..] == body;
  }

  lemma PartsBack(opcode: nat, code: nat, ext: seq<byte>, key: seq<byte>, payload: seq<byte>, rest: seq<byte>)
    requires opcode < 16 && code < 128 && |key| == 4 && |ext| == ExtWidth(code) && LengthOf(code, ext) == |payload|
    ensures Parse([128 + opcode, 128 + code] + ext + (key + Masked(payload, key) + rest))
         == (Frame(opcode, payload), 2 + |ext| + 4 + |payload|)
  {
    BodyBack(opcode, key, payload, rest);
    HeaderBack(128 + opcode, 128 + code, ext, key + Masked(payload, key) + rest);
  }

  lemma WireShape(f: ClientFrame, rest: seq<byte>)
    requires FrameOk(f)
    ensures Wire(f) + rest
         == [128 + f.opcode, 128 + f.code] + Extended(f.code, |f.payload|) + (f.key + Masked(f.payload, f.key) + rest)
    ensures |Wire(f)| == 2 + ExtWidth(f.code) + 4 + |f.payload|
  {
    RegroupFive([128 + f.opcode, 128 + f.code], Extended(f.code, |f.payload|), f.key, Masked(f.payload, f.key), rest);
  }

  /** A frame at the front of a stream is received whole, and nothing after it is touched. */
  lemma FrameBack(f: ClientFrame, rest: seq<byte>)
    requires FrameOk(f)
    ensures Parse(Wire(f) + rest) == (Frame(f.opcode, f.payload), |Wire(f)|)
  {
    ExtendedBack(f.code, |f.payload|);
    PartsBack(f.opcode, f.code, Extended(f.code, |f.payload|), f.key, f.payload, rest);
    WireShape(f, rest);
  }

  /** Section 5.3 on the wire: byte i of a received payload is the exclusive or of byte i behind the key with byte
      i modulo 4 of the key, bit by bit. */
  lemma PayloadBits(s: seq<byte>, i: nat, bit: nat)
    requires s != [] && Parse(s).0.Frame? && i < |Parse(s).0.payload| && bit < 8
    ensures |s| >= 2 && HeaderSize(s) + 4 + i < |s|
    ensures var at := HeaderSize(s);
      Bit(Parse(s).0.payload[i], bit) <==> Bit(s[at + 4 + i], bit) != Bit(s[at + i % 4], bit)
  {
    ReceivedHeader(s);
    AfterLength(s);
    var body := s[HeaderSize(s)..];
    var a, m := body[4..4 + Declared(s)][i], body[..4][i % 4];
    assert a == s[HeaderSize(s) + 4 + i] && m == s[HeaderSize(s) + i % 4];
    XorBits(a, m, 8, bit);
  }

  lemma HelloH(a: byte, b: byte, w: nat)
    requires a == 72 && b == 0x37 && w == 8
    ensures Xor(a, b, w) == 0x7f
  {
    assert Xor(0, 0, w - 7) == 0;
    assert Xor(1, 0, w - 6) == 1;
    assert Xor(2, 1, w - 5) == 3;
    assert Xor(4, 3, w - 4) == 7;
    assert Xor(9, 6, w - 3) == 15;
    assert Xor(18, 13, w - 2) == 31;
    assert Xor(36, 27, w - 1) == 63;
  }

  lemma HelloE(a: byte, b: byte, w: nat)
    requires a == 101 && b == 0xfa && w == 8
    ensures Xor(a, b, w) == 0x9f
  {
    assert Xor(0, 1, w - 7) == 1;
    assert Xor(1, 3, w - 6) == 2;
    assert Xor(3, 7, w - 5) == 4;
    assert Xor(6, 15, w - 4) == 9;
    assert Xor(12, 31, w - 3) == 19;
    assert Xor(25, 62, w - 2) == 39;
    assert Xor(50, 125, w - 1) == 79;
  }

  lemma HelloL(a: byte, b: byte, w: nat)
    requires a == 108 && b == 0x21 && w == 8
    ensures Xor(a, b, w) == 0x4d
  {
    assert Xor(0, 0, w - 7) == 0;
    assert Xor(1, 0, w - 6) == 1;
    assert Xor(3, 1, w - 5) == 2;
    assert Xor(6, 2, w - 4) == 4;
    assert Xor(13, 4, w - 3) == 9;
    assert Xor(27, 8, w - 2) == 19;
    assert Xor(54, 16, w - 1) == 38;
  }

  lemma HelloSecondL(a: byte, b: byte, w: nat)
    requires a == 108 && b == 0x3d && w == 8
    ensures Xor(a, b, w) == 0x51
  {
    assert Xor(0, 0, w - 7) == 0;
    assert Xor(1, 0, w - 6) == 1;
    assert Xor(3, 1, w - 5) == 2;
    assert Xor(6, 3, w - 4) == 5;
    assert Xor(13, 7, w - 3) == 10;
    assert Xor(27, 15, w - 2) == 20;
    assert Xor(54, 30, w - 1) == 40;
  }

  lemma HelloO(a: byte, b: byte, w: nat)
    requires a == 111 && b == 0x37 && w == 8
    ensures Xor(a, b, w) == 0x58
  {
    assert Xor(0, 0, w - 7) == 0;
    assert Xor(1, 0, w - 6) == 1;
    assert Xor(3, 1, w - 5) == 2;
    assert Xor(6, 3, w - 4) == 5;
    assert Xor(13, 6, w - 3) == 11;
    assert Xor(27, 13, w - 2) == 22;
    assert Xor(55, 27, w - 1) == 44;
  }

  lemma MaskFive(p: seq<byte>, k: seq<byte>, r: seq<byte>)
    requires |p| == 5 && |k| == 4 && |r| == 5
    requires MaskByte(p[0], k[0]) == r[0] && MaskByte(p[1], k[1]) == r[1] && MaskByte(p[2], k[2]) == r[2]
    requires MaskByte(p[3], k[3]) == r[3] && MaskByte(p[4], k[0]) == r[4]
    ensures Masked(p, k) == r
  {
  }

  lemma HelloMasked(p: seq<byte>, k: seq<byte>)
    requires p == [72, 101, 108, 108, 111] && k == [0x37, 0xfa, 0x21, 0x3d]
    ensures Masked(p, k) == [0x7f, 0x9f, 0x4d, 0x51, 0x58]
  {
    HelloH(p[0], k[0], 8);
    HelloE(p[1], k[1], 8);
    HelloL(p[2], k[2], 8);
    HelloSecondL(p[3], k[3], 8);
    HelloO(p[4], k[0], 8);
    MaskFive(p, k, [0x7f, 0x9f, 0x4d, 0x51, 0x58]);
  }

  /** The masked text frame of section 5.7 of RFC 6455 holds "Hello". */
  lemma MaskedExample(s: seq<byte>)
    requires s == [0x81, 0x85, 0x37, 0xfa, 0x21, 0x3d, 0x7f, 0x9f, 0x4d, 0x51, 0x58]
    ensures Parse(s) == (Frame(1, [72, 101, 108, 108, 111]), 11)
  {
    var key: seq<byte>, payload: seq<byte> := [0x37, 0xfa, 0x21, 0x3d], [72, 101, 108, 108, 111];
    HelloMasked(payload, key);
    PartsBack(1, 5, [], key, payload, []);
    assert s == [128 + 1, 128 + 5] + [] + (key + Masked(payload, key) + []);
  }

  // ---------- streams that end inside a frame ----------

  /** Where the extended length ends. */
  function HeaderSize(s: seq<byte>): nat
    requires |s| >= 2
  {
    2 + ExtWidth(s[1] % 128)
  }

  function Declared(s: seq<byte>): nat
    requires |s| >= 2 && |s| >= HeaderSize(s)
  {
    LengthOf(s[1] % 128, s[2..HeaderSize(s)])
  }

  predicate HeaderCut(s: seq<byte>) {
    s != [] && (|s| == 1 || |s| < HeaderSize(s))
  }

  /** Section 5.2 of RFC 6455: the size of the frame at the front, with its key if it is masked. */
  function FrameSize(s: seq<byte>): nat
    requires |s| >= 2 && |s| >= HeaderSize(s)
  {
    HeaderSize(s) + (if s[1] >= 128 then 4 else 0) + Declared(s)
  }

  predicate EndsInside(s: seq<byte>) {
    s != [] && (HeaderCut(s) || |s| < FrameSize(s))
  }

  /** What recv_frame makes of a stream that ends inside a frame: an index or unpacking error exactly when the header
      is cut or a masked payload is missing, the protocol error for an unmasked frame, and for an empty payload the
      outcome of a complete frame. */
  lemma CutStream(s: seq<byte>)
    requires EndsInside(s)
    ensures Parse(s).0.Truncated? <==> HeaderCut(s) || (s[1] >= 128 && Declared(s) > 0)
    ensures !HeaderCut(s) && s[1] < 128 ==> Parse(s).0 == Unmasked
    ensures !HeaderCut(s) && s[1] >= 128 && Declared(s) == 0 ==>
      Parse(s) == (if s[0] >= 128 then Frame(s[0] % 16, []) else Fragmented, |s|)
  {
    if !HeaderCut(s) {
      AfterLength(s);
    }
  }

  /** On all streams: such an error is raised exactly when the header is cut or the payload of a masked frame is. */
  lemma TruncatedIff(s: seq<byte>)
    ensures Parse(s).0.Truncated?
       <==> HeaderCut(s) || (s != [] && s[1] >= 128 && Declared(s) > 0 && |s| < FrameSize(s))
  {
    if s != [] && !HeaderCut(s) {
      AfterLength(s);
    }
  }

  /** The other outcomes on all streams: an unmasked frame is refused once its header is there, a masked one that is not
      final once its payload is, and the end of the stream is taken for a close frame. */
  lemma RefusedIff(s: seq<byte>)
    ensures s == [] ==> Parse(s) == (Frame(8, []), 0)
    ensures Parse(s).0.Unmasked? <==> s != [] && !HeaderCut(s) && s[1] < 128
    ensures Parse(s).0.Fragmented? <==>
      s != [] && !HeaderCut(s) && s[1] >= 128 && s[0] < 128 && (Declared(s) == 0 || |s| >= FrameSize(s))
  {
    if s != [] && !HeaderCut(s) {
      AfterLength(s);
    }
  }

  lemma AfterLength(s: seq<byte>)
    requires |s| >= 2 && |s| >= HeaderSize(s)
    ensures var at := HeaderSize(s);
      Parse(s) == if s[1] < 128 then (Unmasked, at)
                  else var (r, n) := ParseBody(s[0] >= 128, s[0] % 16, Declared(s), s[at..]); (r, at + n)
  {
    var w := ExtWidth(s[1] % 128);
    assert s[2..][..w] == s[2..2 + w] && s[2..][w..] == s[2 + w..];
  }

  /** The four outcomes at concrete streams: an empty masked frame without its key and with part of it, an unmasked
      frame without its payload, and a masked frame without its payload. */
  lemma CutStreamExamples()
    ensures Parse([129, 128]) == (Frame(1, []), 2)
    ensures Parse([129, 128, 7, 7, 7]) == (Frame(1, []), 5)
    ensures Parse([129, 5]) == (Unmasked, 2)
    ensures Parse([129, 133, 1, 2]) == (Truncated, 4)
  {
    assert LengthOf(0, []) == 0 && LengthOf(5, []) == 5;
  }

  lemma TakeApart(s: seq<byte>, at: nat, len: nat)
    requires 2 <= at && at + 4 + len <= |s|
    ensures s == [s[0], s[1]] + (s[2..at] + (s[at..at + 4] + s[at + 4..at + 4 + len])) + s[at + 4 + len..]
  {
  }

  lemma DeclaredFits(s: seq<byte>)
    requires |s| >= 2 && |s| >= HeaderSize(s)
    ensures Extended(s[1] % 128, Declared(s)) == s[2..HeaderSize(s)]
    ensures var code := s[1] % 128;
      if ExtWidth(code) == 0 then code == Declared(s) else Declared(s) < Span(ExtWidth(code))
  {
    FromBeRoundTrip(s[2..HeaderSize(s)]);
  }

  /** The frame that was received, put together again. */
  lemma Reassembled(s: seq<byte>) returns (f: ClientFrame, rest: seq<byte>)
    requires |s| >= 2 && |s| >= HeaderSize(s) && 128 <= s[0] < 144 && s[1] >= 128 && |s| >= FrameSize(s)
    ensures FrameOk(f) && s == Wire(f) + rest
  {
    var at, len := HeaderSize(s), Declared(s);
    var ext, key, raw := s[2..at], s[at..at + 4], s[at + 4..at + 4 + len];
    f, rest := ClientFrame(s[0] - 128, s[1] - 128, key, Masked(raw, key)), s[at + 4 + len..];
    DeclaredFits(s);
    MaskedTwice(raw, key);
    TakeApart(s, at, len);
  }

  /** A client frame stands at the front of the stream. */
  ghost predicate HoldsFrame(s: seq<byte>) {
    exists f, rest :: FrameOk(f) && s == Wire(f) + rest
  }

  lemma ReceivedHeader(s: seq<byte>)
    requires s != [] && Parse(s).0.Frame?
    ensures |s| >= 2 && |s| >= HeaderSize(s) && s[0] >= 128 && s[1] >= 128
    ensures Declared(s) > 0 ==> |s| >= FrameSize(s)
  {
    assert !HeaderCut(s);
    AfterLength(s);
  }

  lemma SentHeader(f: ClientFrame, rest: seq<byte>, s: seq<byte>)
    requires FrameOk(f) && s == Wire(f) + rest
    ensures |s| >= 2 && s[0] % 128 < 16 && |s| >= HeaderSize(s) + 4
  {
    WireShape(f, rest);
    assert s[0] == 128 + f.opcode && s[1] == 128 + f.code;
  }

  lemma HeldHeader(s: seq<byte>)
    requires HoldsFrame(s)
    ensures |s| >= 2 && s[0] % 128 < 16 && |s| >= HeaderSize(s) + 4
  {
    var f: ClientFrame, rest: seq<byte> :| FrameOk(f) && s == Wire(f) + rest;
    SentHeader(f, rest, s);
  }

  lemma CompleteIsHeld(s: seq<byte>)
    requires |s| >= 2 && |s| >= HeaderSize(s) && 128 <= s[0] < 144 && s[1] >= 128 && |s| >= FrameSize(s)
    ensures HoldsFrame(s)
  {
    var f, rest := Reassembled(s);
  }

  /** The converse of FrameBack: what is received as a frame was one, exactly when the reserved bits are clear and the
      stream did not end before the key of an empty frame. */
  lemma FrameWasSent(s: seq<byte>)
    requires s != [] && Parse(s).0.Frame?
    ensures |s| >= 2 && |s| >= HeaderSize(s)
    ensures HoldsFrame(s) <==> s[0] % 128 < 16 && !(Declared(s) == 0 && |s| < HeaderSize(s) + 4)
  {
    ReceivedHeader(s);
    if s[0] % 128 < 16 && !(Declared(s) == 0 && |s| < HeaderSize(s) + 4) {
      CompleteIsHeld(s);
    }
    if HoldsFrame(s) {
      HeldHeader(s);
    }
  }

  function Stream(fs: seq<ClientFrame>): seq<byte>
    requires forall i :: 0 <= i < |fs| ==> FrameOk(fs[i])
  {
    if fs == [] then [] else Wire(fs[0]) + Stream(fs[1..])
  }

  // ---------- reading ----------

  /** A stream whose reads may return any part of what is asked for. */
  class Reader {
    const data: seq<byte>
    var pos: nat

    ghost predicate Valid()
      reads this
    {
      pos <= |data|
    }

    ghost function Rest(): seq<byte>
      reads this
      requires Valid()
    {
      data[pos..]
    }

    constructor (data: seq<byte>)
      ensures Valid() && Rest() == data
    {
      this.data := data;
      pos := 0;
    }

    method Read(n: nat) returns (buf: seq<byte>)
      requires Valid() && n > 0
      modifies this
      ensures Valid() && old(pos) <= pos && buf == old(Rest())[..pos - old(pos)] && |buf| <= n
      ensures buf == [] <==> old(Rest()) == []
    {
      if pos == |data| {
        return [];
      }
      var k: nat :| 1 <= k <= n && pos + k <= |data|;
      buf := data[pos..pos + k];
      pos := pos + k;
    }
  }

  method ReadExact(rfile: Reader, n: nat) returns (r: seq<byte>)
    requires rfile.Valid()
    modifies rfile
    ensures rfile.Valid()
    ensures r == old(rfile.Rest())[..Upto(n, old(rfile.Rest()))]
    ensures rfile.Rest() == old(rfile.Rest())[|r|..]
  {
    r := [];
    var remaining: nat := n;
    ghost var all := rfile.Rest();
    while remaining > 0
      invariant rfile.Valid() && |r| + remaining == n
      invariant |r| <= |all| && r == all[..|r|] && rfile.Rest() == all[|r|..]
    {
      var buf := rfile.Read(remaining);
      if buf == [] {
        assert |all[|r|..]| == 0;
        return;
      }
      assert all[..|r| + |buf|] == all[..|r|] + all[|r|..][..|buf|];
      assert all[|r| + |buf|..] == all[|r|..][|buf|..];
      r := r + buf;
      remaining := remaining - |buf|;
    }
  }

  // ---------- recv_frame ----------

  /** The extended length, if the stream holds it. */
  method ReadLength(rfile: Reader, code: nat) returns (length: Option<nat>)
    requires rfile.Valid() && code < 128
    modifies rfile
    ensures rfile.Valid()
    ensures length.None? <==> |old(rfile.Rest())| < ExtWidth(code)
    ensures length.None? ==> rfile.Rest() == []
    ensures length.Some? ==> length.value == LengthOf(code, old(rfile.Rest())[..ExtWidth(code)])
    ensures length.Some? ==> rfile.Rest() == old(rfile.Rest())[ExtWidth(code)..]
  {
    if code == 126 || code == 127 {
      var ext := ReadExact(rfile, ExtWidth(code));
      if |ext| < ExtWidth(code) {
        return None;
      }
      return Some(FromBe(ext));
    }
    return Some(code);
  }

  /** Key and payload; the index errors of a short read are Truncated. */
  method ReadBody(rfile: Reader, fin: bool, opcode: nat, length: nat) returns (r: Received, ghost taken: nat)
    requires rfile.Valid()
    modifies rfile
    ensures rfile.Valid() && (r, taken) == ParseBody(fin, opcode, length, old(rfile.Rest()))
    ensures taken <= |old(rfile.Rest())| && rfile.Rest() == old(rfile.Rest())[taken..]
  {
    ghost var all := rfile.Rest();
    var mask := ReadExact(rfile, 4);
    var raw: seq<byte> := [];
    if length > 0 {
      raw := ReadExact(rfile, length);
    }
    taken := |mask| + |raw|;
    assert all[|mask|..][|raw|..] == all[taken..];
    if length > 0 && (|raw| < length || |mask| < 4) {
      return Truncated, taken;
    }
    if length > 0 {
      assert mask == all[..4] && raw == all[4..4 + length];
    }
    var payload := if length > 0 then Masked(raw, mask) else [];
    if !fin {
      return Fragmented, taken;
    }
    return Frame(opcode, payload), taken;
  }

  method AfterHeader(rfile: Reader, b1: byte, b2: byte) returns (r: Received, ghost taken: nat)
    requires rfile.Valid()
    modifies rfile
    ensures rfile.Valid() && (r, taken) == ParseFrame(b1, b2, old(rfile.Rest()))
    ensures taken <= |old(rfile.Rest())| && rfile.Rest() == old(rfile.Rest())[taken..]
  {
    ghost var all := rfile.Rest();
    taken := ExtWidth(b2 % 128);
    var length := ReadLength(rfile, b2 % 128);
    if length.None? {
      return Truncated, |all|;
    }
    if b2 < 128 {
      return Unmasked, taken;
    }
    ghost var n;
    r, n := ReadBody(rfile, b1 >= 128, b1 % 16, length.value);
    assert all[taken..][n..] == all[taken + n..];
    taken := taken + n;
  }

  method RecvFrame(rfile: Reader) returns (r: Received, ghost taken: nat)
    requires rfile.Valid()
    modifies rfile
    ensures rfile.Valid() && (r, taken) == Parse(old(rfile.Rest()))
    ensures taken <= |old(rfile.Rest())| && rfile.Rest() == old(rfile.Rest())[taken..]
  {
    ghost var all := rfile.Rest();
    var hdr := ReadExact(rfile, 2);
    if hdr == [] {
      return Frame(CLOSE, []), 0;
    }
    if |hdr| == 1 {
      return Truncated, 1;
    }
    r, taken := AfterHeader(rfile, hdr[0], hdr[1]);
    assert all[2..][taken..] == all[2 + taken..];
    taken := 2 + taken;
  }

  /** Repeated receiving: whatever way the reads are cut, the frames come back in order and the stream stands right
      after the last of them. */
  method ReceiveAll(rfile: Reader, count: nat, ghost frames: seq<ClientFrame>, ghost tail: seq<byte>)
    returns (rs: seq<Received>)
    requires forall i :: 0 <= i < |frames| ==> FrameOk(frames[i])
    requires rfile.Valid() && count == |frames| && rfile.Rest() == Stream(frames) + tail
    modifies rfile
    ensures rfile.Valid() && rfile.Rest() == tail
    ensures |rs| == count && forall i :: 0 <= i < count ==> rs[i] == Frame(frames[i].opcode, frames[i].payload)
  {
    rs := [];
    while |rs| < count
      invariant rfile.Valid() && |rs| <= count && rfile.Rest() == Stream(frames[|rs|..]) + tail
      invariant forall i :: 0 <= i < |rs| ==> rs[i] == Frame(frames[i].opcode, frames[i].payload)
    {
      ghost var f, left := frames[|rs|], Stream(frames[|rs| + 1..]) + tail;
      StreamNext(frames, |rs|, tail);
      FrameBack(f, left);
      var r, taken := RecvFrame(rfile);
      assert (Wire(f) + left)[taken..] == left;
      rs := rs + [r];
    }
  }

  lemma StreamNext(frames: seq<ClientFrame>, k: nat, tail: seq<byte>)
    requires forall i :: 0 <= i < |frames| ==> FrameOk(frames[i])
    requires k < |frames|
    ensures Stream(frames[k..]) + tail == Wire(frames[k]) + (Stream(frames[k + 1..]) + tail)
  {
    assert frames[k..][0] == frames[k] && frames[k..][1..] == frames[k + 1..];
  }

  // ---------- sending ----------

  /** A reader of unmasked server frames that follows section 5.2: it insists on the shortest length form. */
  function RfcRead(s: seq<byte>): Option<(nat, seq<byte>, nat)> {
    if |s| < 2 || s[0] < 128 || s[0] % 128 >= 16 || s[1] >= 128 then None
    else
      var at := 2 + ExtWidth(s[1]);
      if |s| < at then None
      else
        var len := LengthOf(s[1], s[2..at]);
        if s[1] != ShortestCode(len) || |s| < at + len then None
        else Some((s[0] % 16, s[at..at + len], at + len))
  }

  function ShortestCode(n: nat): (code: byte)
    ensures code < 128
  {
    if n < 126 then n else if n < 0x1_0000 then 126 else 127
  }

  function Sent(opcode: int, payload: seq<byte>): seq<byte> {
    var code := ShortestCode(|payload|);
    [128 + opcode % 16, code] + Extended(code, |payload|) + payload
  }

  lemma ShortestHolds(n: nat)
    requires n < Span(8)
    ensures var code := ShortestCode(n); if ExtWidth(code) == 0 then code == n else n < Span(ExtWidth(code))
  {
    SpanOf();
  }

  lemma SentParts(first: byte, code: byte, ext: seq<byte>, payload: seq<byte>, rest: seq<byte>)
    requires 128 <= first < 144 && code < 128 && |ext| == ExtWidth(code)
    requires LengthOf(code, ext) == |payload| && code == ShortestCode(|payload|)
    ensures RfcRead([first, code] + ext + payload + rest) == Some((first % 16, payload, 2 + |ext| + |payload|))
  {
    var s := [first, code] + ext + payload + rest;
    var at := 2 + |ext|;
    assert s[2..at] == ext && s[at..at + |payload|] == payload;
  }

  /** A standard reader gets back opcode and payload of every frame sent, and stops right behind it. */
  lemma SentIsRead(opcode: int, payload: seq<byte>, rest: seq<byte>)
    requires |payload| < Span(8)
    ensures RfcRead(Sent(opcode, payload) + rest) == Some((opcode % 16, payload, |Sent(opcode, payload)|))
  {
    var n := |payload|;
    ShortestHolds(n);
    ExtendedBack(ShortestCode(n), n);
    SentParts(128 + opcode % 16, ShortestCode(n), Extended(ShortestCode(n), n), payload, rest);
  }

  /** The examples of section 5.7 of RFC 6455: a text frame, and the two extended length forms. */
  lemma SentExamples(payload: seq<byte>)
    ensures Sent(1, [72, 101, 108, 108, 111]) == [0x81, 0x05, 72, 101, 108, 108, 111]
    ensures |payload| == 256 ==> Sent(2, payload) == [0x82, 0x7E, 0x01, 0x00] + payload
    ensures |payload| == 65536 ==> Sent(2, payload) == [0x82, 0x7F, 0, 0, 0, 0, 0, 1, 0, 0] + payload
  {
    assert Be(5, 0) == [];
    assert Be(256, 2) == [1, 0] by { assert Be(1, 1) == [1]; }
    assert Be(65536, 8) == [0, 0, 0, 0, 0, 1, 0, 0] by { LongForm(); }
  }

  lemma LongForm()
    ensures Be(65536, 8) == [0, 0, 0, 0, 0, 1, 0, 0]
  {
    assert Be(0, 5) == [0, 0, 0, 0, 0] by { assert Be(0, 2) == [0, 0]; }
    assert Be(1, 6) == [0, 0, 0, 0, 0, 1];
    assert Be(256, 7) == [0, 0, 0, 0, 0, 1, 0];
  }

  class Writer {
    var data: seq<byte>

    constructor ()
      ensures data == []
    {
      data := [];
    }

    method Write(s: seq<byte>)
      modifies this
      ensures data == old(data) + s
    {
      data := data + s;
    }
  }

  /** Packing fails when the size does not fit eight bytes, before anything is written. */
  method SendFrame(wfile: Writer, opcode: int, payload: seq<byte>) returns (ok: bool)
    modifies wfile
    ensures ok <==> |payload| < Span(8)
    ensures wfile.data == if ok then old(wfile.data) + Sent(opcode, payload) else old(wfile.data)
  {
    SpanOf();
    var header: seq<byte> := [128 + opcode % 16];
    var n := |payload|;
    if n < 126 {
      header := header + [n];
    } else if n <= 0xFFFF {
      header := header + [126];
      header := header + Be(n, 2);
    } else {
      if n >= 0x1_0000_0000_0000_0000 {
        return false;
      }
      header := header + [127];
      header := header + Be(n, 8);
    }
    assert header == [128 + opcode % 16, ShortestCode(n)] + Extended(ShortestCode(n), n);
    wfile.Write(header);
    wfile.Write(payload);
    ok := true;
  }
}
