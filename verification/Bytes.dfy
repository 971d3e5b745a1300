/** Fixed-width integers on the wire, most or least significant byte first. */
module Bytes {
  type byte = b: int | 0 <= b < 256

  function Pow2(n: nat): (p: nat)
    ensures p > 0
  {
    if n == 0 then 1 else 2 * Pow2(n - 1)
  }

  /** 256 to the power w. */
  function Span(w: nat): (s: nat)
    ensures s > 0
  {
    if w == 0 then 1 else 256 * Span(w - 1)
  }

  function Be(n: nat, w: nat): (s: seq<byte>)
    ensures |s| == w
    decreases w
  {
    if w == 0 then [] else Be(n / 256, w - 1) + [n % 256]
  }

  function FromBe(s: seq<byte>): nat {
    if s == [] then 0 else 256 * FromBe(s[..|s| - 1]) + s[|s| - 1]
  }

  function Le(n: nat, w: nat): (s: seq<byte>)
    ensures |s| == w
    decreases w
  {
    if w == 0 then [] else [n % 256] + Le(n / 256, w - 1)
  }

  function FromLe(s: seq<byte>): nat {
    if s == [] then 0 else s[0] + 256 * FromLe(s[1..])
  }

  lemma DropDigit(n: nat, s: nat)
    requires s > 0 && n < 256 * s
    ensures n / 256 < s
  {
  }

  lemma {:induction false} BeRoundTrip(n: nat, w: nat)
    requires n < Span(w)
    ensures FromBe(Be(n, w)) == n
    decreases w
  {
    if w > 0 {
      DropDigit(n, Span(w - 1));
      BeRoundTrip(n / 256, w - 1);
      var front := Be(n / 256, w - 1);
      assert (front + [n % 256])[..w - 1] == front;
    }
  }

  lemma {:induction false} LeRoundTrip(n: nat, w: nat)
    requires n < Span(w)
    ensures FromLe(Le(n, w)) == n
    decreases w
  {
    if w > 0 {
      DropDigit(n, Span(w - 1));
      LeRoundTrip(n / 256, w - 1);
      var rest := Le(n / 256, w - 1);
      assert ([n % 256] + rest)[1..] == rest;
    }
  }

  lemma {:induction false} FromBeRoundTrip(s: seq<byte>)
    ensures FromBe(s) < Span(|s|) && Be(FromBe(s), |s|) == s
  {
    if s != [] {
      var front, x := s[..|s| - 1], s[|s| - 1];
      FromBeRoundTrip(front);
      assert FromBe(s) == 256 * FromBe(front) + x;
      assert FromBe(s) / 256 == FromBe(front) && FromBe(s) % 256 == x;
    }
  }

  // ---------- which byte stands where ----------

  lemma DivideTwice(n: nat, s: nat)
    requires s > 0
    ensures n / 256 / s == n / (256 * s)
  {
    var q, r := n / 256 / s, n / 256 % s;
    assert n / 256 == s * q + r && n == 256 * (n / 256) + n % 256;
    assert n == (256 * s) * q + (256 * r + n % 256);
    Quotient(n, 256 * s, q, 256 * r + n % 256);
  }

  lemma Quotient(n: nat, d: nat, q: nat, r: nat)
    requires n == d * q + r && r < d
    ensures n / d == q
  {
    var e := n / d - q;
    assert d * (n / d) + n % d == n;
    assert d * e == r - n % d by { assert d * e == d * (n / d) - d * q; }
    Multiple(d, e);
  }

  lemma Multiple(d: int, e: int)
    requires -d < d * e < d
    ensures e == 0
  {
  }

  /** Byte i of the big-endian form counts 256 to the power w - 1 - i. */
  lemma {:induction false} BeByteAt(n: nat, w: nat, i: nat)
    requires i < w
    ensures Be(n, w)[i] == n / Span(w - 1 - i) % 256
    decreases w
  {
    if i < w - 1 {
      BeByteAt(n / 256, w - 1, i);
      DivideTwice(n, Span(w - 2 - i));
    }
  }

  /** Byte i of the little-endian form counts 256 to the power i. */
  lemma {:induction false} LeByteAt(n: nat, w: nat, i: nat)
    requires i < w
    ensures Le(n, w)[i] == n / Span(i) % 256
    decreases w
  {
    if i > 0 {
      LeByteAt(n / 256, w - 1, i - 1);
      DivideTwice(n, Span(i - 1));
    }
  }

  // ---------- two's complement ----------

  function Wrap(x: int, w: nat): (u: nat)
    ensures u < Span(w)
  {
    x % Span(w)
  }

  function Unwrap(u: nat, w: nat): int {
    if 2 * u < Span(w) then u else u - Span(w)
  }

  predicate Int32(x: int) {
    -0x8000_0000 <= x < 0x8000_0000
  }

  predicate Int64(x: int) {
    -0x8000_0000_0000_0000 <= x < 0x8000_0000_0000_0000
  }

  lemma SpanOf()
    ensures Span(1) == 0x100 && Span(2) == 0x1_0000 && Span(4) == 0x1_0000_0000
    ensures Span(8) == 0x1_0000_0000_0000_0000
  {
    assert Span(0) == 1;
    assert Span(3) == 0x100_0000;
    assert Span(5) == 0x100_0000_0000;
    assert Span(6) == 0x1_0000_0000_0000;
    assert Span(7) == 0x100_0000_0000_0000;
  }

  lemma WrapRoundTrip(x: int)
    ensures Int32(x) ==> Unwrap(Wrap(x, 4), 4) == x
    ensures Int64(x) ==> Unwrap(Wrap(x, 8), 8) == x
  {
    SpanOf();
  }
}
