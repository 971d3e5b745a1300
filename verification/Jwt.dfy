/** The compact token of src/maludb_auth.c: jwt_split and the signed input, section 7.1 of RFC 7515. */
module Jwt {
  import opened Bytes
  import opened Options
  import opened Base64

  datatype Parts = Parts(header: string, payload: string, signature: string)

  predicate Piece(s: string) {
    s != "" && '.' !in s
  }

  ghost predicate WellFormed(p: Parts) {
    Piece(p.header) && Piece(p.payload) && Piece(p.signature)
  }

  function Joined3(p: Parts): string {
    p.header + "." + p.payload + "." + p.signature
  }

  // ---------- splitting ----------

  /** The dots among the first i characters, as the loop remembers them. */
  ghost predicate Seen(jwt: string, i: nat, found: nat, dot1: nat, dot2: nat)
    requires i <= |jwt|
  {
    && found <= 2
    && (found >= 1 ==> dot1 < i && jwt[dot1] == '.')
    && (found == 2 ==> dot1 < dot2 < i && jwt[dot2] == '.')
    && forall k :: 0 <= k < i && jwt[k] == '.' ==> (found >= 1 && k == dot1) || (found == 2 && k == dot2)
  }

  lemma JoinedDots(p: Parts)
    requires WellFormed(p)
    ensures var t, a, b := Joined3(p), |p.header|, |p.header| + 1 + |p.payload|;
      && |t| == b + 1 + |p.signature| && t[a] == '.' && t[b] == '.'
      && (forall k :: 0 <= k < |t| && t[k] == '.' ==> k == a || k == b)
      && t[..a] == p.header && t[a + 1..b] == p.payload && t[b + 1..] == p.signature
  {
    var t, a, b := Joined3(p), |p.header|, |p.header| + 1 + |p.payload|;
    forall k | 0 <= k < |t| && k != a && k != b
      ensures t[k] != '.'
    {
      if k < a {
        assert t[k] == p.header[k];
      } else if k < b {
        assert t[k] == p.payload[k - a - 1];
      } else {
        assert t[k] == p.signature[k - b - 1];
      }
    }
  }

  /** Two ways of cutting a token into three pieces are the same. */
  lemma PartsAreUnique(p: Parts, q: Parts)
    requires WellFormed(p) && WellFormed(q) && Joined3(p) == Joined3(q)
    ensures p == q
  {
    JoinedDots(p);
    JoinedDots(q);
  }

  /** Succeeds exactly on the joins of three non-empty dot-free pieces, and returns those pieces. */
  method JwtSplit(jwt: string) returns (r: Option<Parts>)
    ensures r.Some? ==> WellFormed(r.value) && Joined3(r.value) == jwt
    ensures r.None? ==> forall p: Parts :: WellFormed(p) ==> Joined3(p) != jwt
  {
    var dot1: nat, dot2: nat, found: nat := 0, 0, 0;
    var i: nat := 0;
    while i < |jwt|
      invariant i <= |jwt| && Seen(jwt, i, found, dot1, dot2)
    {
      if jwt[i] == '.' {
        if found == 0 {
          dot1, found := i, 1;
        } else if found == 1 {
          dot2, found := i, 2;
        } else {
          ThreeDots(jwt, dot1, dot2, i);
          return None;
        }
      }
      i := i + 1;
    }
    if found != 2 || dot1 == 0 || dot2 <= dot1 + 1 || dot2 == |jwt| - 1 {
      BadDots(jwt, found, dot1, dot2);
      return None;
    }
    return Some(Parts(jwt[..dot1], jwt[dot1 + 1..dot2], jwt[dot2 + 1..]));
  }

  lemma ThreeDots(jwt: string, a: nat, b: nat, c: nat)
    requires a < b < c < |jwt| && jwt[a] == '.' && jwt[b] == '.' && jwt[c] == '.'
    ensures forall p: Parts :: WellFormed(p) ==> Joined3(p) != jwt
  {
    forall p: Parts | WellFormed(p)
      ensures Joined3(p) != jwt
    {
      JoinedDots(p);
    }
  }

  lemma BadDots(jwt: string, found: nat, dot1: nat, dot2: nat)
    requires Seen(jwt, |jwt|, found, dot1, dot2)
    requires found != 2 || dot1 == 0 || dot2 <= dot1 + 1 || dot2 == |jwt| - 1
    ensures forall p: Parts :: WellFormed(p) ==> Joined3(p) != jwt
  {
    forall p: Parts | WellFormed(p)
      ensures Joined3(p) != jwt
    {
      JoinedDots(p);
    }
  }

  // ---------- what is signed ----------

  /** The copy that is signed is the token up to its second dot. */
  method SignedInput(jwt: string, p: Parts) returns (signed: string)
    requires WellFormed(p) && Joined3(p) == jwt
    ensures signed + "." + p.signature == jwt && |signed| == |jwt| - |p.signature| - 1
  {
    signed := p.header + "." + p.payload;
  }

  // ---------- end to end ----------

  lemma EncodedIsPiece(b: seq<byte>)
    requires b != []
    ensures Piece(Encode(b))
  {
    assert |ToDigits(b)| > 0;
    forall i | 0 <= i < |Encode(b)|
      ensures Encode(b)[i] != '.'
    {
      assert Encode(b)[i] == CharOf(ToDigits(b)[i]);
    }
  }

  lemma {:induction false} StrippedSpelling(s: string)
    requires forall i :: 0 <= i < |s| ==> !Skipped(s[i])
    ensures Stripped(s) == s
  {
    if s != "" {
      StrippedSpelling(s[..|s| - 1]);
    }
  }

  /** A token made of three encoded byte strings. */
  function Token(header: seq<byte>, payload: seq<byte>, signature: seq<byte>): Parts {
    Parts(Encode(header), Encode(payload), Encode(signature))
  }

  lemma EncodeDecodes(b: seq<byte>)
    ensures Clean(Encode(b)) && Decoded(Digits(Encode(b))) == b
  {
    StrippedSpelling(Encode(b));
    DecodeInvertsEncode(b, Encode(b));
  }

  /** The pieces of an issued token are its three encodings, and they decode to what went in. */
  lemma IssuedOpens(jwt: string, parts: Parts, h: seq<byte>, p: seq<byte>, s: seq<byte>)
    requires h != [] && p != [] && s != [] && Joined3(Token(h, p, s)) == jwt
    requires WellFormed(parts) && Joined3(parts) == jwt
    ensures Clean(parts.header) && Clean(parts.payload) && Clean(parts.signature)
    ensures Decoded(Digits(parts.header)) == h && Decoded(Digits(parts.payload)) == p
    ensures Decoded(Digits(parts.signature)) == s
  {
    EncodedIsPiece(h);
    EncodedIsPiece(p);
    EncodedIsPiece(s);
    PartsAreUnique(parts, Token(h, p, s));
    EncodeDecodes(h);
    EncodeDecodes(p);
    EncodeDecodes(s);
  }

  ghost predicate Issued(jwt: string, h: seq<byte>, p: seq<byte>, s: seq<byte>) {
    h != [] && p != [] && s != [] && Joined3(Token(h, p, s)) == jwt
  }

  /** The token splits into these parts and all of them decode. */
  ghost predicate Opens(jwt: string, t: Parts) {
    WellFormed(t) && Joined3(t) == jwt && Clean(t.header) && Clean(t.payload) && Clean(t.signature)
  }

  ghost function Contents(t: Parts): (seq<byte>, seq<byte>, seq<byte>)
    requires Clean(t.header) && Clean(t.payload) && Clean(t.signature)
  {
    (Decoded(Digits(t.header)), Decoded(Digits(t.payload)), Decoded(Digits(t.signature)))
  }

  /** Splitting a token and decoding its pieces: every issued token gives back what went in. */
  method OpenToken(jwt: string) returns (r: Option<(seq<byte>, seq<byte>, seq<byte>)>)
    ensures forall h, p, s :: Issued(jwt, h, p, s) ==> r == Some((h, p, s))
    ensures r.Some? <==> exists t: Parts :: Opens(jwt, t)
    ensures forall t: Parts :: Opens(jwt, t) ==> r == Some(Contents(t))
  {
    var split := JwtSplit(jwt);
    if split.None? {
      forall h, p, s | Issued(jwt, h, p, s)
        ensures false
      {
        EncodedIsPiece(h);
        EncodedIsPiece(p);
        EncodedIsPiece(s);
      }
      return None;
    }
    var parts := split.value;
    var header := B64UrlDecode(parts.header);
    var payload := B64UrlDecode(parts.payload);
    var signature := B64UrlDecode(parts.signature);
    forall h, p, s | Issued(jwt, h, p, s)
      ensures header == Some(h) && payload == Some(p) && signature == Some(s)
    {
      IssuedOpens(jwt, parts, h, p, s);
    }
    forall t: Parts | WellFormed(t) && Joined3(t) == jwt
      ensures t == parts
    {
      PartsAreUnique(t, parts);
    }
    if header.None? || payload.None? || signature.None? {
      return None;
    }
    assert Opens(jwt, parts);
    return Some((header.value, payload.value, signature.value));
  }
}
