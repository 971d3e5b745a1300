/** The single-pass _subst of services/mcp-broker/src/mcp_broker/tools.py, and when it agrees with the rescanning
    substitution of mc2dbd/src/exec.c. */
module Broker {
  import opened Letters
  import opened Substitute

  predicate IdStart(c: char) {
    'a' <= c <= 'z' || 'A' <= c <= 'Z' || c == '_'
  }

  predicate IdChar(c: char) {
    IdStart(c) || '0' <= c <= '9'
  }

  predicate Ident(s: string) {
    s != "" && IdStart(s[0]) && forall i :: 0 <= i < |s| ==> IdChar(s[i])
  }

  /** How many identifier characters a text begins with. */
  function Run(s: string): (n: nat)
    ensures n <= |s| && (n < |s| ==> !IdChar(s[n])) && forall i :: 0 <= i < n ==> IdChar(s[i])
  {
    if s != "" && IdChar(s[0]) then 1 + Run(s[1..]) else 0
  }

  /** The key of a marker right at the front, as the pattern matches it. */
  function Mark(text: string): (b: Binding)
    ensures b.Bound? ==> Ident(b.value) && Starts(text, Placeholder(b.value))
  {
    if !Starts(text, "{{") then Unbound
    else
      var rest := text[2..];
      var n := Run(rest);
      if n == 0 || !IdStart(rest[0]) || !Starts(rest[n..], "}}") then Unbound
      else
        assert text[..4 + n] == Placeholder(rest[..n]);
        Bound(rest[..n])
  }

  datatype Outcome = Done(text: string) | Undeclared(key: string) | Missing(key: string)

  function Prefixed(s: string, o: Outcome): Outcome {
    if o.Done? then Done(s + o.text) else o
  }

  /** One pass from the left: markers are looked up, everything else is copied, and the first bad key is an error. */
  function Subst(text: string, props: set<string>, args: Args): Outcome {
    if text == "" then Done("")
    else
      match Mark(text)
      case Unbound => Prefixed([text[0]], Subst(text[1..], props, args))
      case Bound(key) =>
        if key !in props then Undeclared(key)
        else
          match Lookup(args, key)
          case Unbound => Missing(key)
          case Bound(v) => Prefixed(v, Subst(text[|Placeholder(key)|..], props, args))
  }

  // ---------- on templates ----------

  lemma {:induction false} RunOf(key: string, u: string)
    requires forall i :: 0 <= i < |key| ==> IdChar(key[i])
    requires u != "" && !IdChar(u[0])
    ensures Run(key + u) == |key|
  {
    if key == "" {
      assert key + u == u;
    } else {
      RunOf(key[1..], u);
      assert (key + u)[1..] == key[1..] + u;
    }
  }

  lemma {:induction false} MarkHole(key: string, u: string)
    requires Ident(key)
    ensures Mark(Placeholder(key) + u) == Bound(key)
  {
    var text := Placeholder(key) + u;
    var rest := text[2..];
    assert rest == key + ("}}" + u);
    RunOf(key, "}}" + u);
    assert rest[|key|..] == "}}" + u && rest[..|key|] == key;
  }

  /** A brace-free key that is not an identifier is no marker. */
  /** A key the pattern accepts, its characters spelled out. */
  predicate KeySpelled(key: string) {
    && key != "" && key[0] in UPPER + LOWER + "_"
    && forall i :: 0 <= i < |key| ==> key[i] in UPPER + LOWER + "_" + DECIMAL
  }

  /** A marker stands at the front of a text exactly when the text begins with an accepted key in double braces. */
  lemma MarkIff(text: string, key: string)
    ensures Mark(text) == Bound(key) <==> KeySpelled(key) && Starts(text, "{{" + key + "}}")
  {
    KeyIff(key);
    assert "{{" + key + "}}" == Placeholder(key);
    if Ident(key) && Starts(text, Placeholder(key)) {
      var u := text[|Placeholder(key)|..];
      assert text == Placeholder(key) + u;
      MarkHole(key, u);
    }
  }

  lemma KeyIff(key: string)
    ensures Ident(key) <==> KeySpelled(key)
  {
    forall i | 0 <= i < |key|
      ensures IdStart(key[i]) <==> key[i] in UPPER + LOWER + "_"
      ensures IdChar(key[i]) <==> key[i] in UPPER + LOWER + "_" + DECIMAL
    {
      CharIff(key[i]);
    }
  }

  lemma CharIff(c: char)
    ensures IdStart(c) <==> c in UPPER + LOWER + "_"
    ensures IdChar(c) <==> c in UPPER + LOWER + "_" + DECIMAL
  {
    Ranges(c);
    assert c in "_" <==> c == '_';
    InJoined(c, UPPER, LOWER);
    InJoined(c, UPPER + LOWER, "_");
    InJoined(c, UPPER + LOWER + "_", DECIMAL);
  }

  lemma InJoined(c: char, a: string, b: string)
    ensures c in a + b <==> c in a || c in b
  {
  }

  lemma {:induction false} NoMarkHole(key: string, u: string)
    requires NoBrace(key) && !Ident(key)
    ensures Mark(Placeholder(key) + u) == Unbound
  {
    var text := Placeholder(key) + u;
    match Mark(text) {
      case Unbound =>
      case Bound(k) =>
        IdentHasNoBrace(k);
        OtherKey(key, k, u);
        assert false;
    }
  }

  lemma {:induction false} IdentHasNoBrace(k: string)
    requires Ident(k)
    ensures NoBrace(k)
  {
  }

  lemma {:induction false} NoMarkAt(text: string)
    requires text != "" && (text[0] != '{' || |text| < 2 || text[1] != '{')
    ensures Mark(text) == Unbound
  {
    if |text| >= 2 {
      assert text[..2][0] == text[0] && text[..2][1] == text[1];
    }
  }

  lemma {:induction false} PrefixedTwice(a: string, b: string, o: Outcome)
    ensures Prefixed(a, Prefixed(b, o)) == Prefixed(a + b, o)
  {
    if o.Done? {
      assert a + (b + o.text) == a + b + o.text;
    }
  }

  /** Text without a marker is copied. */
  /** No marker starts in the first n characters. */
  ghost predicate NoMarks(text: string, n: nat)
    requires n <= |text|
  {
    forall q :: 0 <= q < n ==> Mark(text[q..]) == Unbound
  }

  lemma MarksShift(text: string, n: nat)
    requires 0 < n <= |text| && NoMarks(text, n)
    ensures Mark(text) == Unbound && NoMarks(text[1..], n - 1)
  {
    assert text[0..] == text;
    forall q | 0 <= q < n - 1
      ensures Mark(text[1..][q..]) == Unbound
    {
      assert text[1..][q..] == text[q + 1..];
    }
  }

  lemma {:induction false} SubstCopies(text: string, n: nat, props: set<string>, args: Args)
    requires n <= |text| && NoMarks(text, n)
    ensures Subst(text, props, args) == Prefixed(text[..n], Subst(text[n..], props, args))
  {
    if n == 0 {
      assert text[0..] == text;
    } else {
      MarksShift(text, n);
      SubstCopies(text[1..], n - 1, props, args);
      assert text[1..][n - 1..] == text[n..] && text[..n] == [text[0]] + text[1..][..n - 1];
      PrefixedTwice([text[0]], text[1..][..n - 1], Subst(text[n..], props, args));
    }
  }

  predicate Marker(p: Piece) {
    p.Hole? && Ident(p.key)
  }

  lemma {:induction false} CopyPiece(p: Piece, u: string, props: set<string>, args: Args)
    requires PieceOk(p) && !Marker(p)
    ensures Subst(PieceText(p) + u, props, args) == Prefixed(PieceText(p), Subst(u, props, args))
  {
    var a := PieceText(p);
    var text := a + u;
    forall q | 0 <= q < |a|
      ensures Mark(text[q..]) == Unbound
    {
      if p.Hole? && q == 0 {
        NoMarkHole(p.key, u);
        assert text[0..] == text;
      } else {
        assert text[q..][0] == a[q];
        if p.Hole? && q == 1 {
          assert text[1..][1] == a[2];
        }
        NoMarkAt(text[q..]);
      }
    }
    SubstCopies(text, |a|, props, args);
    assert text[..|a|] == a && text[|a|..] == u;
  }

  /** What the broker makes of a template, piece by piece. */
  function SubstPieces(t: seq<Piece>, props: set<string>, args: Args): Outcome {
    if t == [] then Done("")
    else if !Marker(t[0]) then Prefixed(PieceText(t[0]), SubstPieces(t[1..], props, args))
    else if t[0].key !in props then Undeclared(t[0].key)
    else
      match Lookup(args, t[0].key)
      case Unbound => Missing(t[0].key)
      case Bound(v) => Prefixed(v, SubstPieces(t[1..], props, args))
  }

  lemma {:induction false} SubstByPieces(t: seq<Piece>, props: set<string>, args: Args)
    requires TemplateOk(t)
    ensures Subst(Text(t), props, args) == SubstPieces(t, props, args)
  {
    if t != [] {
      SubstByPieces(t[1..], props, args);
      var u := Text(t[1..]);
      if Marker(t[0]) {
        MarkHole(t[0].key, u);
        assert (Placeholder(t[0].key) + u)[|Placeholder(t[0].key)|..] == u;
      } else {
        CopyPiece(t[0], u, props, args);
      }
    }
  }

  // ---------- agreement ----------

  predicate Supplied(p: Piece, props: set<string>, args: Args) {
    Marker(p) ==> p.key in props && Lookup(args, p.key).Bound?
  }

  /** The markers filled and every other piece left. */
  function FilledPiece(p: Piece, args: Args): Piece {
    if Marker(p) then SimPiece(p, args) else p
  }

  function Filled(t: seq<Piece>, args: Args): (r: seq<Piece>)
    ensures |r| == |t| && forall i :: 0 <= i < |t| ==> r[i] == FilledPiece(t[i], args)
  {
    seq(|t|, i requires 0 <= i < |t| => FilledPiece(t[i], args))
  }

  /** On templates the broker succeeds exactly when every marker is declared and supplied, and then fills them. */
  lemma {:induction false} SubstOfTemplate(t: seq<Piece>, props: set<string>, args: Args)
    requires TemplateOk(t)
    ensures Subst(Text(t), props, args).Done? <==> forall i :: 0 <= i < |t| ==> Supplied(t[i], props, args)
    ensures Subst(Text(t), props, args).Done? ==> Subst(Text(t), props, args).text == Text(Filled(t, args))
  {
    SubstByPieces(t, props, args);
    PiecesFilled(t, props, args);
  }

  lemma {:induction false} PiecesFilled(t: seq<Piece>, props: set<string>, args: Args)
    ensures SubstPieces(t, props, args).Done? <==> forall i :: 0 <= i < |t| ==> Supplied(t[i], props, args)
    ensures SubstPieces(t, props, args).Done? ==> SubstPieces(t, props, args).text == Text(Filled(t, args))
  {
    if t != [] {
      PiecesFilled(t[1..], props, args);
      assert Filled(t, args)[1..] == Filled(t[1..], args);
      assert forall i :: 0 <= i < |t| - 1 ==> t[1..][i] == t[i + 1];
      assert forall i :: 1 <= i < |t| ==> t[i] == t[1..][i - 1];
    }
  }

  function HoleCount(t: seq<Piece>): nat {
    if t == [] then 0 else (if t[0].Hole? then 1 else 0) + HoleCount(t[1..])
  }

  lemma {:induction false} HolesAreBraces(t: seq<Piece>)
    requires TemplateOk(t)
    ensures Braces(Text(t)) == 4 * HoleCount(t)
  {
    if t != [] {
      HolesAreBraces(t[1..]);
      BracesJoin(PieceText(t[0]), Text(t[1..]));
      match t[0] {
        case Lit(s) => NoBraceCount(s);
        case Hole(k) =>
          NoBraceCount(k);
          PlaceholderBraces(k);
      }
    }
  }

  lemma {:induction false} FewerHoles(a: seq<Piece>, b: seq<Piece>)
    requires |a| == |b| && forall i :: 0 <= i < |a| ==> b[i].Hole? ==> a[i].Hole?
    ensures HoleCount(b) <= HoleCount(a)
    ensures (exists i :: 0 <= i < |a| && a[i].Hole? && !b[i].Hole?) ==> HoleCount(b) < HoleCount(a)
  {
    if a != [] {
      FewerHoles(a[1..], b[1..]);
      if i :| 0 <= i < |a| && a[i].Hole? && !b[i].Hole? {
        if i > 0 {
          assert a[1..][i - 1].Hole? && !b[1..][i - 1].Hole?;
        }
      }
    }
  }

  lemma {:induction false} SimOk(t: seq<Piece>, args: Args)
    requires TemplateOk(t) && BraceFree(args)
    ensures TemplateOk(Simultaneous(t, args)) && TemplateOk(Filled(t, args))
  {
    forall i | 0 <= i < |t|
      ensures PieceOk(SimPiece(t[i], args))
    {
      if t[i].Hole? {
        LookupOk(args, t[i].key);
      }
    }
  }

  lemma {:induction false} LookupOk(args: Args, key: string)
    requires BraceFree(args)
    ensures Lookup(args, key).Bound? ==> NoBrace(Lookup(args, key).value)
  {
    if args != [] {
      LookupOk(args[1..], key);
    }
  }

  /** No other placeholder than a marker is given a value. */
  predicate OnlyMarkersBound(t: seq<Piece>, args: Args) {
    forall i :: 0 <= i < |t| && t[i].Hole? && !Ident(t[i].key) ==> Lookup(args, t[i].key) == Unbound
  }

  lemma {:induction false} FilledIsSimultaneous(t: seq<Piece>, args: Args)
    requires TemplateOk(t) && BraceFree(args)
    ensures Text(Filled(t, args)) == Text(Simultaneous(t, args)) <==> OnlyMarkersBound(t, args)
  {
    var a, b := Filled(t, args), Simultaneous(t, args);
    if OnlyMarkersBound(t, args) {
      assert a == b;
    } else {
      SimOk(t, args);
      HolesAreBraces(a);
      HolesAreBraces(b);
      var i :| 0 <= i < |t| && t[i].Hole? && !Ident(t[i].key) && Lookup(args, t[i].key) != Unbound;
      assert a[i].Hole? && !b[i].Hole?;
      FewerHoles(a, b);
    }
  }

  /** The two programs agree on a template exactly when every marker is declared and supplied and no other
      placeholder has a value. */
  lemma {:induction false} AgreeIff(t: seq<Piece>, props: set<string>, args: Args)
    requires TemplateOk(t) && BraceFree(args)
    ensures Terminating(args)
    ensures Subst(Text(t), props, args) == Done(ExhaustAll(Text(t), args))
       <==> (forall i :: 0 <= i < |t| ==> Supplied(t[i], props, args)) && OnlyMarkersBound(t, args)
  {
    SubstOfTemplate(t, props, args);
    RescanIsSimultaneous(t, args);
    FilledIsSimultaneous(t, args);
  }
}
