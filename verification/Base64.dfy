/** b64url_decode of src/maludb_auth.c against the encoding of sections 4 and 5 of RFC 4648. */
module Base64 {
  import opened Bytes
  import opened Letters
  import opened Options

  type digit = d: int | 0 <= d < 64

  // ---------- the alphabet ----------

  predicate Skipped(c: char) {
    c == '=' || c == '\n' || c == '\r'
  }

  /** The value of an alphabet character, and -1 for every other character, as the table has it. */
  function DigitOf(c: char): (d: int)
    ensures -1 <= d < 64
  {
    if 'A' <= c <= 'Z' then c as int - 'A' as int
    else if 'a' <= c <= 'z' then c as int - 'a' as int + 26
    else if '0' <= c <= '9' then c as int - '0' as int + 52
    else if c == '-' then 62
    else if c == '_' then 63
    else -1
  }

  predicate Foreign(c: char) {
    !Skipped(c) && DigitOf(c) < 0
  }

  predicate Clean(s: string) {
    forall i :: 0 <= i < |s| ==> !Foreign(s[i])
  }

  /** The digits of a text, padding and line breaks left out. */
  function Digits(s: string): (r: seq<digit>)
    requires Clean(s)
    ensures |r| <= |s|
  {
    if s == "" then []
    else
      var front := Digits(s[..|s| - 1]);
      if Skipped(s[|s| - 1]) then front else front + [DigitOf(s[|s| - 1])]
  }

  // ---------- what digits mean ----------

  /** The byte that two neighbouring digits make: all of the first with two bits of the second, and so on. */
  function Joined(place: nat, a: digit, b: digit): (r: byte) {
    var x: int := a;
    if place == 1 then 4 * x + b / 16
    else if place == 2 then 16 * (x % 16) + b / 4
    else 64 * (x % 4) + b
  }

  /** Four digits are three bytes; a shorter tail gives the bytes it completes, and its spare bits are dropped. */
  function Grouped<D, B>(join: (nat, D, D) -> B, d: seq<D>): (r: seq<B>) {
    if |d| < 2 then []
    else if |d| == 2 then [join(1, d[0], d[1])]
    else if |d| == 3 then [join(1, d[0], d[1]), join(2, d[1], d[2])]
    else [join(1, d[0], d[1]), join(2, d[1], d[2]), join(3, d[2], d[3])] + Grouped(join, d[4..])
  }

  /** The place of the next digit in its group, after n digits. */
  function Place(n: nat): (p: nat)
    ensures p < 4 && p <= n
  {
    if n < 4 then n else Place(n - 4)
  }

  lemma {:induction false} PlaceNext(n: nat)
    ensures Place(n + 1) == if Place(n) == 3 then 0 else Place(n) + 1
  {
    if n >= 4 {
      PlaceNext(n - 4);
    }
  }

  /** What the last digit of a text completes, by its place in its group. */
  function Completed<D, B>(join: (nat, D, D) -> B, d: seq<D>, x: D): (r: seq<B>) {
    if Place(|d|) == 0 then [] else [join(Place(|d|), d[|d| - 1], x)]
  }

  lemma {:induction false} GroupedShort<D, B>(join: (nat, D, D) -> B, d: seq<D>, x: D)
    requires |d| < 4
    ensures Grouped(join, d + [x]) == Grouped(join, d) + Completed(join, d, x)
  {
    var t := d + [x];
    if |d| == 1 {
      assert Grouped(join, t) == [join(1, d[0], x)];
    } else if |d| == 2 {
      assert Grouped(join, t) == [join(1, d[0], d[1]), join(2, d[1], x)];
    } else if |d| == 3 {
      assert t[4..] == [];
      assert Grouped(join, t) == [join(1, d[0], d[1]), join(2, d[1], d[2]), join(3, d[2], x)];
    }
  }

  lemma {:induction false} GroupedNext<D, B>(join: (nat, D, D) -> B, d: seq<D>, x: D)
    ensures Grouped(join, d + [x]) == Grouped(join, d) + Completed(join, d, x)
  {
    if |d| < 4 {
      GroupedShort(join, d, x);
    } else {
      var e := d[4..];
      GroupedNext(join, e, x);
      assert (d + [x])[4..] == e + [x];
      assert Completed(join, e, x) == Completed(join, d, x);
    }
  }

  lemma {:induction false} GroupedSize<D, B>(join: (nat, D, D) -> B, d: seq<D>)
    ensures |Grouped(join, d)| == 3 * |d| / 4
  {
    if |d| >= 4 {
      GroupedSize(join, d[4..]);
    }
  }

  function Decoded(d: seq<digit>): (r: seq<byte>) {
    Grouped(Joined, d)
  }

  // ---------- the accumulator ----------

  const WORD: nat := 0x1_0000_0000

  /** Shifting a digit in, on 32 bits. */
  function Pushed(buf: nat, d: digit): (r: nat)
    ensures r < WORD
  {
    (64 * buf + d) % WORD
  }

  /** What the wrap-around leaves is the old value without its top bits, followed by the digit. */
  lemma PushedKeepsLow(buf: nat, d: digit) returns (low: nat)
    ensures Pushed(buf, d) == 64 * low + d && low % 64 == buf % 64
  {
    low := buf % 0x400_0000;
    var q := buf / 0x400_0000;
    assert buf == 0x400_0000 * q + low;
    assert 64 * buf + d == WORD * q + (64 * low + d);
    assert low % 64 == buf % 64 by { assert buf == low + 64 * (0x10_0000 * q); }
  }

  lemma FirstByte(low: nat, d: digit)
    ensures ((64 * low + d) / 16) % 256 == 4 * (low % 64) + d / 16
  {
    assert (64 * low + d) / 16 == 4 * low + d / 16;
    assert 4 * low + d / 16 == 256 * (low / 64) + (4 * (low % 64) + d / 16);
  }

  lemma SecondByte(low: nat, d: digit)
    ensures ((64 * low + d) / 4) % 256 == 16 * (low % 16) + d / 4
  {
    assert (64 * low + d) / 4 == 16 * low + d / 4;
    assert 16 * low + d / 4 == 256 * (low / 16) + (16 * (low % 16) + d / 4);
  }

  lemma ThirdByte(low: nat, d: digit)
    ensures (64 * low + d) % 256 == 64 * (low % 4) + d
  {
    assert 64 * low + d == 256 * (low / 4) + (64 * (low % 4) + d);
  }

  lemma LowBits(h: nat, l: nat)
    ensures (64 * h + l) % 16 == l % 16 && (64 * h + l) % 4 == l % 4
  {
    Rest16(4 * h + l / 16, l % 16);
    Rest4(16 * h + l / 4, l % 4);
  }

  lemma Rest16(q: nat, r: nat)
    requires r < 16
    ensures (16 * q + r) % 16 == r
  {
  }

  lemma Rest4(q: nat, r: nat)
    requires r < 4
    ensures (4 * q + r) % 4 == r
  {
  }

  /** The byte that leaves the accumulator is the one the digit completes, wrap-around or not. */
  lemma ShiftedOut(buf: nat, d: digit)
    ensures Pushed(buf, d) % 64 == d
    ensures (Pushed(buf, d) / 16) % 256 == Joined(1, buf % 64, d)
    ensures (Pushed(buf, d) / 4) % 256 == Joined(2, buf % 64, d)
    ensures Pushed(buf, d) % 256 == Joined(3, buf % 64, d)
  {
    var low := PushedKeepsLow(buf, d);
    FirstByte(low, d);
    SecondByte(low, d);
    ThirdByte(low, d);
    LowBits(low / 64, low % 64);
  }

  // ---------- the decoding loop ----------

  /** How many bits are waiting in the accumulator at each place of a group. */
  function Waiting(place: nat): (bits: nat) {
    if place == 0 then 0 else if place == 1 then 6 else if place == 2 then 4 else 2
  }

  lemma DigitsNext(s: string, i: nat)
    requires i < |s| && Clean(s[..i])
    ensures Clean(s[..i + 1]) <==> !Foreign(s[i])
    ensures !Foreign(s[i]) ==>
      Digits(s[..i + 1]) == if Skipped(s[i]) then Digits(s[..i]) else Digits(s[..i]) + [DigitOf(s[i])]
  {
    assert s[..i + 1][..i] == s[..i] && s[..i + 1][i] == s[i];
    assert forall k :: 0 <= k < i ==> s[..i + 1][k] == s[..i][k];
  }

  /** (buf >> bits) & 0xFF for the three shifts that occur. */
  function Shifted(buf: nat, bits: nat): (r: byte) {
    (if bits == 0 then buf else if bits == 2 then buf / 4 else buf / 16) % 256
  }

  /** One digit into the accumulator: what is waiting afterwards, and the byte that is stored. */
  lemma PushStep(d: seq<digit>, buf: nat, x: digit)
    requires d != [] ==> buf % 64 == d[|d| - 1]
    ensures Pushed(buf, x) % 64 == x
    ensures Place(|d|) == 0 ==> Decoded(d + [x]) == Decoded(d)
    ensures Place(|d|) != 0 ==> Decoded(d + [x]) == Decoded(d) + [Shifted(Pushed(buf, x), Waiting(Place(|d| + 1)))]
    ensures Waiting(Place(|d| + 1)) == Waiting(Place(|d|)) + if Place(|d|) == 0 then 6 else -2
  {
    PlaceNext(|d|);
    ShiftedOut(buf, x);
    GroupedNext(Joined, d, x);
  }

  /** The accumulator and the bytes stored so far stand for the digits read. */
  ghost predicate Holds(d: seq<digit>, out: seq<byte>, op: nat, buf: nat, bits: nat) {
    && bits == Waiting(Place(|d|)) && (d != [] ==> buf % 64 == d[|d| - 1])
    && op <= |out| && out[..op] == Decoded(d)
  }

  method Push(out: array<byte>, op: nat, buf: nat, bits: nat, x: digit, ghost d: seq<digit>)
    returns (op': nat, buf': nat, bits': nat)
    requires Holds(d, out[..], op, buf, bits) && |d| * 3 / 4 < out.Length - 3
    modifies out
    ensures Holds(d + [x], out[..], op', buf', bits')
  {
    PushStep(d, buf, x);
    GroupedSize(Joined, d);
    op', buf', bits' := op, Pushed(buf, x), bits + 6;
    if bits' >= 8 {
      bits' := bits' - 8;
      out[op'] := Shifted(buf', bits');
      op' := op' + 1;
    }
  }

  /** Nothing comes back exactly when a foreign character occurs; otherwise the bytes the digits stand for. */
  method B64UrlDecode(src: string) returns (r: Option<seq<byte>>)
    ensures r.None? <==> exists i :: 0 <= i < |src| && Foreign(src[i])
    ensures r.Some? ==> Clean(src) && r.value == Decoded(Digits(src)) && |r.value| == 3 * |Digits(src)| / 4
  {
    var out := new byte[|src| * 3 / 4 + 4];
    var op: nat, buf: nat, bits: nat := 0, 0, 0;
    ghost var d: seq<digit> := [];
    var i: nat := 0;
    while i < |src|
      invariant i <= |src| && Clean(src[..i]) && d == Digits(src[..i]) && Holds(d, out[..], op, buf, bits)
    {
      var c := src[i];
      DigitsNext(src, i);
      if !Skipped(c) {
        if DigitOf(c) < 0 {
          return None;
        }
        op, buf, bits := Push(out, op, buf, bits, DigitOf(c), d);
        d := d + [DigitOf(c)];
      }
      i := i + 1;
    }
    assert src[..i] == src;
    GroupedSize(Joined, d);
    assert out[..][..op] == out[..op];
    return Some(out[..op]);
  }

  // ---------- the encoder ----------

  /** Three bytes are four digits, and a tail of one or two bytes is two or three digits filled up with zero bits. */
  function ToDigits(b: seq<byte>): (d: seq<digit>) {
    if b == [] then []
    else if |b| == 1 then [b[0] / 4, b[0] % 4 * 16]
    else if |b| == 2 then [b[0] / 4, b[0] % 4 * 16 + b[1] / 16, b[1] % 16 * 4]
    else [b[0] / 4, b[0] % 4 * 16 + b[1] / 16, b[1] % 16 * 4 + b[2] / 64, b[2] % 64] + ToDigits(b[3..])
  }

  function CharOf(d: digit): (c: char)
    ensures DigitOf(c) == d && !Skipped(c) && c != '.'
  {
    if d < 26 then ('A' as int + d) as char
    else if d < 52 then ('a' as int + (d - 26)) as char
    else if d < 62 then ('0' as int + (d - 52)) as char
    else if d == 62 then '-' else '_'
  }

  // ---------- the tables of the standard ----------

  /** The alphabet of section 5 of RFC 4648, value by value. */
  lemma AlphabetTable(d: digit)
    ensures CharOf(d) == (UPPER + LOWER + DECIMAL + "-_")[d]
    ensures DigitOf((UPPER + LOWER + DECIMAL + "-_")[d]) == d
  {
    if d < 26 {
      UpperTable(d);
    } else if d < 52 {
      LowerTable(d - 26);
    } else if d < 62 {
      DecimalTable(d - 52);
    }
  }

  /** What makes decoding fail: any character that is neither in the alphabet nor padding nor a line break. */
  lemma ForeignIff(c: char)
    ensures Foreign(c) <==> c !in UPPER + LOWER + DECIMAL + "-_" && c !in {'=', '\n', '\r'}
  {
    var table := UPPER + LOWER + DECIMAL + "-_";
    if c in table {
      var d :| 0 <= d < 64 && table[d] == c;
      AlphabetTable(d);
    }
    if DigitOf(c) >= 0 {
      CharOfDigit(c);
      AlphabetTable(DigitOf(c));
    }
  }

  /** The 24 bits of three bytes. */
  function BytesValue(x: int, y: int, z: int): int {
    0x1_0000 * x + 0x100 * y + z
  }

  /** The 24 bits of four digits. */
  function DigitsValue(p: int, q: int, r: int, s: int): int {
    0x4_0000 * p + 0x1000 * q + 0x40 * r + s
  }

  /** A group of section 4 of RFC 4648: three bytes and their four digits are the same 24 bits, most significant
      first. */
  lemma EncodedGroup(b: seq<byte>, d: seq<digit>)
    requires |b| == 3 && d == ToDigits(b)
    ensures |d| == 4 && DigitsValue(d[0], d[1], d[2], d[3]) == BytesValue(b[0], b[1], b[2])
  {
    FourDigits(b, b[0], b[1], b[2]);
    SplitIntoDigits(b[0], b[1], b[2]);
  }

  lemma FourDigits(b: seq<byte>, x: int, y: int, z: int)
    requires |b| == 3 && b[0] == x && b[1] == y && b[2] == z
    ensures |ToDigits(b)| == 4
    ensures ToDigits(b)[0] == x / 4 && ToDigits(b)[1] == x % 4 * 16 + y / 16
    ensures ToDigits(b)[2] == y % 16 * 4 + z / 64 && ToDigits(b)[3] == z % 64
  {
    assert b[3..] == [];
  }

  lemma SplitIntoDigits(x: int, y: int, z: int)
    ensures DigitsValue(x / 4, x % 4 * 16 + y / 16, y % 16 * 4 + z / 64, z % 64) == BytesValue(x, y, z)
  {
  }

  lemma DecodedGroup(d: seq<digit>, b: seq<byte>)
    requires |d| == 4 && b == Decoded(d)
    ensures |b| == 3 && BytesValue(b[0], b[1], b[2]) == DigitsValue(d[0], d[1], d[2], d[3])
  {
    ThreeBytes(Joined, d);
    SplitIntoBytes(d[0], d[1], d[2], d[3]);
  }

  lemma ThreeBytes<D, B>(join: (nat, D, D) -> B, d: seq<D>)
    requires |d| == 4
    ensures Grouped(join, d) == [join(1, d[0], d[1]), join(2, d[1], d[2]), join(3, d[2], d[3])]
  {
    assert d[4..] == [];
    assert Grouped(join, d[4..]) == [];
  }

  lemma SplitIntoBytes(p: int, q: int, r: int, s: int)
    ensures BytesValue(4 * p + q / 16, 16 * (q % 16) + r / 4, 64 * (r % 4) + s) == DigitsValue(p, q, r, s)
  {
  }

  /** Four of the encodings listed in section 10 of RFC 4648, without padding. */
  lemma StandardExamples()
    ensures Encode([0x66]) == "Zg" && Encode([0x66, 0x6F]) == "Zm8"
    ensures Encode([0x66, 0x6F, 0x6F]) == "Zm9v" && Encode([]) == ""
  {
    assert ToDigits([0x66]) == [25, 32];
    assert ToDigits([0x66, 0x6F]) == [25, 38, 60];
    var b: seq<byte> := [0x66, 0x6F, 0x6F];
    assert b[3..] == [];
    assert ToDigits(b) == [25, 38, 61, 47];
  }

  function Spelled(d: seq<digit>): (s: string)
    ensures |s| == |d| && forall i :: 0 <= i < |d| ==> s[i] == CharOf(d[i])
  {
    seq(|d|, i requires 0 <= i < |d| => CharOf(d[i]))
  }

  function Encode(b: seq<byte>): (s: string) {
    Spelled(ToDigits(b))
  }

  /** A text without its padding and line breaks. */
  function Stripped(s: string): (r: string) {
    if s == "" then ""
    else if Skipped(s[|s| - 1]) then Stripped(s[..|s| - 1])
    else Stripped(s[..|s| - 1]) + [s[|s| - 1]]
  }

  lemma {:induction false} ToDigitsRoundTrip(b: seq<byte>)
    ensures Decoded(ToDigits(b)) == b
  {
    if |b| >= 3 {
      ToDigitsRoundTrip(b[3..]);
      var d := ToDigits(b);
      assert d[4..] == ToDigits(b[3..]);
      TripleRoundTrip(b[0], b[1], b[2]);
      assert b == [b[0], b[1], b[2]] + b[3..];
    } else if b != [] {
      TripleRoundTrip(b[0], if |b| == 2 then b[1] else 0, 0);
    }
  }

  lemma TripleRoundTrip(x: byte, y: byte, z: byte)
    ensures Joined(1, x / 4, x % 4 * 16 + y / 16) == x
    ensures Joined(2, x % 4 * 16 + y / 16, y % 16 * 4 + z / 64) == y
    ensures Joined(3, y % 16 * 4 + z / 64, z % 64) == z
  {
  }

  lemma CharOfDigit(c: char)
    requires DigitOf(c) >= 0
    ensures CharOf(DigitOf(c)) == c
  {
  }

  lemma {:induction false} StrippedIsSpelled(s: string)
    requires Clean(s)
    ensures Stripped(s) == Spelled(Digits(s))
  {
    if s != "" {
      var front, c := s[..|s| - 1], s[|s| - 1];
      StrippedIsSpelled(front);
      if !Skipped(c) {
        CharOfDigit(c);
        assert Spelled(Digits(front) + [DigitOf(c)]) == Spelled(Digits(front)) + [c];
      }
    }
  }

  lemma {:induction false} StrippedIsClean(s: string)
    requires Clean(Stripped(s))
    ensures Clean(s)
  {
    if s != "" {
      var c := s[|s| - 1];
      var t := Stripped(s[..|s| - 1]);
      if !Skipped(c) {
        assert forall i :: 0 <= i < |t| ==> t[i] == (t + [c])[i];
        assert (t + [c])[|t|] == c;
      }
      StrippedIsClean(s[..|s| - 1]);
      assert forall i :: 0 <= i < |s| - 1 ==> s[i] == s[..|s| - 1][i];
    }
  }

  lemma SpelledIsInjective(d: seq<digit>, e: seq<digit>)
    requires Spelled(d) == Spelled(e)
    ensures d == e
  {
    forall i | 0 <= i < |d|
      ensures d[i] == e[i]
    {
      assert DigitOf(Spelled(d)[i]) == d[i] && DigitOf(Spelled(e)[i]) == e[i];
    }
  }

  /** Decoding inverts encoding, with padding and line breaks anywhere in the text. */
  lemma DecodeInvertsEncode(b: seq<byte>, s: string)
    requires Stripped(s) == Encode(b)
    ensures Clean(s) && Decoded(Digits(s)) == b
  {
    StrippedIsClean(s);
    StrippedIsSpelled(s);
    SpelledIsInjective(Digits(s), ToDigits(b));
    ToDigitsRoundTrip(b);
  }

  /** The spare bits of the last digit are zero, and there is no lone digit. */
  predicate Tidy(d: seq<digit>) {
    match Place(|d|)
    case 0 => true
    case 1 => false
    case 2 => d[|d| - 1] % 16 == 0
    case _ => d[|d| - 1] % 4 == 0
  }

  lemma QuadRoundTrip(a: digit, b: digit, c: digit, d: digit)
    ensures Joined(1, a, b) / 4 == a
    ensures Joined(1, a, b) % 4 * 16 == b / 16 * 16
    ensures Joined(1, a, b) % 4 * 16 + Joined(2, b, c) / 16 == b
    ensures Joined(2, b, c) % 16 * 4 == c / 4 * 4
    ensures Joined(2, b, c) % 16 * 4 + Joined(3, c, d) / 64 == c
    ensures Joined(3, c, d) % 64 == d
  {
  }

  lemma {:induction false} TidyShort(d: seq<digit>)
    requires |d| < 4
    ensures ToDigits(Decoded(d)) == d <==> Tidy(d)
  {
    if |d| == 2 {
      QuadRoundTrip(d[0], d[1], 0, 0);
      assert Decoded(d) == [Joined(1, d[0], d[1])];
      assert ToDigits(Decoded(d)) == [d[0], d[1] / 16 * 16];
    } else if |d| == 3 {
      QuadRoundTrip(d[0], d[1], d[2], 0);
      assert Decoded(d) == [Joined(1, d[0], d[1]), Joined(2, d[1], d[2])];
      assert ToDigits(Decoded(d)) == [d[0], d[1], d[2] / 4 * 4];
    }
  }

  lemma {:induction false} TidyDigits(d: seq<digit>)
    ensures ToDigits(Decoded(d)) == d <==> Tidy(d)
  {
    if |d| < 4 {
      TidyShort(d);
    } else {
      var rest := d[4..];
      TidyDigits(rest);
      QuadRoundTrip(d[0], d[1], d[2], d[3]);
      var b := Decoded(d);
      assert b[3..] == Decoded(rest);
      assert ToDigits(b) == [d[0], d[1], d[2], d[3]] + ToDigits(Decoded(rest));
      assert d == [d[0], d[1], d[2], d[3]] + rest;
    }
  }

  /** Decoding forgets nothing but padding and line breaks exactly when the spare bits are zero: otherwise two texts
      decode alike. */
  lemma EncodeInvertsDecode(s: string)
    requires Clean(s)
    ensures Stripped(s) == Encode(Decoded(Digits(s))) <==> Tidy(Digits(s))
  {
    StrippedIsSpelled(s);
    TidyDigits(Digits(s));
    if Spelled(Digits(s)) == Encode(Decoded(Digits(s))) {
      SpelledIsInjective(Digits(s), ToDigits(Decoded(Digits(s))));
    }
  }

  /** The shortest witness: these two texts differ and decode to the same byte. */
  lemma SpareBitsAreIgnored()
    ensures Decoded(Digits("AA")) == Decoded(Digits("AB")) == [0]
  {
    assert Digits("A") == [0] by { assert "A"[..0] == ""; }
    assert Digits("AA") == [0, 0] by { assert "AA"[..1] == "A"; }
    assert Digits("AB") == [0, 1] by { assert "AB"[..1] == "A"; }
  }
}
