/** substitute_placeholders of mc2dbd/src/exec.c, which rescans after every replacement, and the single-pass _subst
    of services/mcp-broker/src/mcp_broker/tools.py. */
module Substitute {
  import opened Seqs

  // ---------- finding and replacing ----------

  function Placeholder(key: string): string {
    "{{" + key + "}}"
  }

  predicate Starts(text: string, word: string) {
    |word| <= |text| && text[..|word|] == word
  }

  /** Where the word first occurs; the length of the text if nowhere. */
  function Find(text: string, word: string): (i: nat)
    ensures i <= |text|
    ensures i < |text| ==> Starts(text[i..], word)
  {
    if text == "" || Starts(text, word) then
      assert text[0..] == text;
      0
    else
      assert text[1 + Find(text[1..], word)..] == text[1..][Find(text[1..], word)..];
      1 + Find(text[1..], word)
  }

  lemma {:induction false} FindIsLeftmost(text: string, word: string, j: nat)
    requires j < Find(text, word)
    ensures !Starts(text[j..], word)
  {
    if j == 0 {
      assert text[0..] == text;
    } else {
      FindIsLeftmost(text[1..], word, j - 1);
      assert text[j..] == text[1..][j - 1..];
    }
  }

  function Replaced(text: string, i: nat, word: string, value: string): string
    requires i + |word| <= |text|
  {
    text[..i] + value + text[i + |word|..]
  }

  /** How many braces a text has. */
  function Braces(s: string): (n: nat) {
    if s == "" then 0 else (if s[0] == '{' || s[0] == '}' then 1 else 0) + Braces(s[1..])
  }

  lemma {:induction false} BracesJoin(a: string, b: string)
    ensures Braces(a + b) == Braces(a) + Braces(b)
  {
    if a == "" {
      assert a + b == b;
    } else {
      BracesJoin(a[1..], b);
      assert (a + b)[1..] == a[1..] + b;
    }
  }

  lemma {:induction false} ReplacedBraces(text: string, i: nat, word: string, value: string)
    requires i <= |text| && Starts(text[i..], word)
    ensures Braces(Replaced(text, i, word, value)) == Braces(text) - Braces(word) + Braces(value)
  {
    var a, b := text[..i], text[i + |word|..];
    assert text == a + (word + b);
    BracesJoin(a, word + b);
    BracesJoin(word, b);
    BracesJoin(a, value + b);
    BracesJoin(value, b);
    assert Replaced(text, i, word, value) == a + (value + b);
  }

  /** Replacing leftmost occurrences until none is left; it stops because every replacement loses braces. */
  function Exhaust(text: string, word: string, value: string): (r: string)
    requires Braces(value) < Braces(word)
    ensures Find(r, word) == |r|
    decreases Braces(text)
  {
    var i := Find(text, word);
    if i == |text| then text
    else
      ReplacedBraces(text, i, word, value);
      Exhaust(Replaced(text, i, word, value), word, value)
  }

  /** The text after n replacements. */
  function Steps(text: string, word: string, value: string, n: nat): string
    decreases n
  {
    var i := Find(text, word);
    if n == 0 || i == |text| then text else Steps(Replaced(text, i, word, value), word, value, n - 1)
  }

  predicate Contains(text: string, word: string) {
    Find(text, word) < |text|
  }

  lemma {:induction false} StepsNext(text: string, next: string, word: string, value: string, n: nat)
    requires Contains(text, word) && next == Replaced(text, Find(text, word), word, value) && n > 0
    ensures Steps(text, word, value, n) == Steps(next, word, value, n - 1)
  {
  }

  lemma {:induction false} StepsDone(text: string, word: string, value: string, n: nat)
    requires !Contains(text, word)
    ensures Steps(text, word, value, n) == text
  {
  }

  lemma {:induction false} StepsStay(text: string, word: string, value: string, n: nat, k: nat)
    requires n <= k && !Contains(Steps(text, word, value, n), word)
    ensures Steps(text, word, value, k) == Steps(text, word, value, n)
    decreases n
  {
    if n == 0 {
      StepsDone(text, word, value, k);
    } else if Contains(text, word) {
      var next := Replaced(text, Find(text, word), word, value);
      StepsNext(text, next, word, value, n);
      StepsNext(text, next, word, value, k);
      StepsStay(next, word, value, n - 1, k - 1);
    } else {
      StepsDone(text, word, value, n);
      StepsDone(text, word, value, k);
    }
  }

  /** The loop stops with r. */
  ghost predicate Ends(text: string, word: string, value: string, r: string) {
    exists n: nat :: Steps(text, word, value, n) == r && !Contains(r, word)
  }

  lemma {:induction false} EndsOnce(text: string, word: string, value: string, r: string, q: string)
    requires Ends(text, word, value, r) && Ends(text, word, value, q)
    ensures r == q
  {
    var n: nat :| Steps(text, word, value, n) == r && !Contains(r, word);
    var k: nat :| Steps(text, word, value, k) == q && !Contains(q, word);
    if n <= k {
      StepsStay(text, word, value, n, k);
    } else {
      StepsStay(text, word, value, k, n);
    }
  }

  /** Fewer braces in the value than in the placeholder are enough for the loop to stop. */
  lemma {:induction false} ExhaustEnds(text: string, word: string, value: string)
    requires Braces(value) < Braces(word)
    ensures Ends(text, word, value, Exhaust(text, word, value))
    decreases Braces(text)
  {
    if Contains(text, word) {
      var i := Find(text, word);
      var next := Replaced(text, i, word, value);
      ReplacedBraces(text, i, word, value);
      ExhaustEnds(next, word, value);
      var n: nat :| Steps(next, word, value, n) == Exhaust(next, word, value);
      StepsNext(text, next, word, value, n + 1);
    } else {
      assert Steps(text, word, value, 0) == text;
    }
  }

  lemma {:induction false} TurnsLeft(text: string, next: string, word: string, value: string, n: nat, final: string)
    requires Contains(text, word) && next == Replaced(text, Find(text, word), word, value)
    requires Steps(text, word, value, n) == final && !Contains(final, word)
    ensures n > 0 && Steps(next, word, value, n - 1) == final
  {
  }

  lemma {:induction false} NoTurnsLeft(text: string, word: string, value: string, n: nat)
    requires !Contains(text, word)
    ensures Steps(text, word, value, n) == text
    ensures forall j :: 0 <= j < |text| ==> !Starts(text[j..], word)
  {
    forall j | 0 <= j < |text|
      ensures !Starts(text[j..], word)
    {
      FindIsLeftmost(text, word, j);
    }
  }

  method ReplaceOne(text: string, hit: nat, word: string, value: string) returns (next: string)
    requires hit + |word| <= |text|
    ensures next == Replaced(text, hit, word, value)
  {
    next := text[..hit] + value + text[hit + |word|..];
  }

  /** The replace loop, on every input on which it stops. */
  method ReplaceAll(text: string, word: string, value: string, ghost final: string) returns (result: string)
    requires Ends(text, word, value, final)
    ensures result == final && forall j :: 0 <= j < |result| ==> !Starts(result[j..], word)
  {
    result := text;
    ghost var n: nat :| Steps(text, word, value, n) == final && !Contains(final, word);
    var hit := Find(result, word);
    while hit < |result|
      invariant hit == Find(result, word) && Steps(result, word, value, n) == final
      decreases n
    {
      var next := ReplaceOne(result, hit, word, value);
      TurnsLeft(result, next, word, value, n, final);
      result, n := next, n - 1;
      hit := Find(result, word);
    }
    NoTurnsLeft(result, word, value, n);
  }

  // ---------- templates ----------

  /** A template: brace-free text and placeholders with brace-free keys. */
  datatype Piece = Lit(text: string) | Hole(key: string)

  predicate NoBrace(s: string) {
    forall i :: 0 <= i < |s| ==> s[i] != '{' && s[i] != '}'
  }

  predicate PieceOk(p: Piece) {
    match p
    case Lit(s) => NoBrace(s)
    case Hole(k) => NoBrace(k)
  }

  predicate TemplateOk(t: seq<Piece>) {
    forall i :: 0 <= i < |t| ==> PieceOk(t[i])
  }

  function PieceText(p: Piece): string {
    match p
    case Lit(s) => s
    case Hole(k) => Placeholder(k)
  }

  function Flat<P, C>(show: P -> seq<C>, t: seq<P>): seq<C> {
    if t == [] then [] else show(t[0]) + Flat(show, t[1..])
  }

  lemma {:induction false} FlatJoin<P, C>(show: P -> seq<C>, a: seq<P>, b: seq<P>)
    ensures Flat(show, a + b) == Flat(show, a) + Flat(show, b)
  {
    if a == [] {
      assert a + b == b;
    } else {
      FlatJoin(show, a[1..], b);
      FlatCons(show, a[0], a[1..] + b);
      assert a + b == [a[0]] + (a[1..] + b);
      Regroup(show(a[0]), Flat(show, a[1..]), Flat(show, b));
    }
  }

  lemma {:induction false} FlatCons<P, C>(show: P -> seq<C>, p: P, t: seq<P>)
    ensures Flat(show, [p] + t) == show(p) + Flat(show, t)
  {
    assert ([p] + t)[1..] == t;
  }

  lemma {:induction false} FlatSplit<P, C>(show: P -> seq<C>, t: seq<P>, i: nat)
    requires i < |t|
    ensures Flat(show, t) == Flat(show, t[..i]) + (show(t[i]) + Flat(show, t[i + 1..]))
  {
    assert t == t[..i] + ([t[i]] + t[i + 1..]);
    FlatCons(show, t[i], t[i + 1..]);
    FlatJoin(show, t[..i], [t[i]] + t[i + 1..]);
  }

  function Text(t: seq<Piece>): string {
    Flat(PieceText, t)
  }

  // ---------- where placeholders occur ----------

  lemma {:induction false} FindSkips(a: string, u: string, word: string)
    requires word != ""
    requires forall q :: 0 <= q < |a| ==> !Starts((a + u)[q..], word)
    ensures Find(a + u, word) == |a| + Find(u, word)
  {
    if a == "" {
      assert a + u == u;
    } else {
      var b := a[1..];
      assert (a + u)[1..] == b + u;
      forall q | 0 <= q < |b|
        ensures !Starts((b + u)[q..], word)
      {
        assert (b + u)[q..] == (a + u)[q + 1..];
      }
      FindSkips(b, u, word);
      assert (a + u)[0..] == a + u;
    }
  }

  lemma {:induction false} NotAtNonBrace(text: string, q: nat, key: string)
    requires q < |text| && text[q] != '{'
    ensures !Starts(text[q..], Placeholder(key))
  {
    assert text[q..][0] != Placeholder(key)[0];
  }

  /** One placeholder does not begin with another. */
  lemma {:induction false} OtherKey(j: string, key: string, u: string)
    requires NoBrace(j) && NoBrace(key) && j != key
    ensures !Starts(Placeholder(j) + u, Placeholder(key))
  {
    var text, word := Placeholder(j) + u, Placeholder(key);
    if |j| < |key| {
      assert text[2 + |j|] == '}' && word[2 + |j|] == key[|j|];
    } else if |key| < |j| {
      assert word[2 + |key|] == '}' && text[2 + |key|] == j[|key|];
    } else {
      var i :| 0 <= i < |j| && j[i] != key[i];
      assert text[2 + i] == j[i] && word[2 + i] == key[i];
    }
  }

  lemma {:induction false} SkipPiece(p: Piece, u: string, key: string)
    requires PieceOk(p) && NoBrace(key) && p != Hole(key)
    ensures Find(PieceText(p) + u, Placeholder(key)) == |PieceText(p)| + Find(u, Placeholder(key))
  {
    var a := PieceText(p);
    var text := a + u;
    forall q | 0 <= q < |a|
      ensures !Starts(text[q..], Placeholder(key))
    {
      if p.Hole? && q == 0 {
        OtherKey(p.key, key, u);
        assert text[0..] == Placeholder(p.key) + u;
      } else if p.Hole? && q == 1 {
        assert text[1..][1] == text[2] && text[2] == a[2] && Placeholder(key)[1] == '{';
      } else {
        assert text[q] == a[q];
        NotAtNonBrace(text, q, key);
      }
    }
    FindSkips(a, u, Placeholder(key));
  }

  lemma {:induction false} FindInTemplate(pre: seq<Piece>, u: string, key: string)
    requires TemplateOk(pre) && NoBrace(key) && Hole(key) !in pre
    ensures Find(Text(pre) + u, Placeholder(key)) == |Text(pre)| + Find(u, Placeholder(key))
  {
    if pre == [] {
      assert Text(pre) + u == u;
    } else {
      var a, b := PieceText(pre[0]), Text(pre[1..]);
      FindInTemplate(pre[1..], u, key);
      SkipPiece(pre[0], b + u, key);
      Regroup(a, b, u);
    }
  }

  // ---------- one key ----------

  function Fill(t: seq<Piece>, key: string, value: string): (r: seq<Piece>)
    ensures |r| == |t|
    ensures forall i :: 0 <= i < |t| ==> r[i] == if t[i] == Hole(key) then Lit(value) else t[i]
  {
    seq(|t|, i requires 0 <= i < |t| => if t[i] == Hole(key) then Lit(value) else t[i])
  }

  lemma {:induction false} NoBraceCount(s: string)
    requires NoBrace(s)
    ensures Braces(s) == 0
  {
    if s != "" {
      NoBraceCount(s[1..]);
    }
  }

  lemma {:induction false} PlaceholderBraces(key: string)
    ensures Braces(Placeholder(key)) == 4 + Braces(key)
  {
    BracesJoin("{{" + key, "}}");
    BracesJoin("{{", key);
    assert "{{"[1..] == "{" && "}}"[1..] == "}";
  }

  /** Where the first placeholder for the key stands among the pieces. */
  function FirstHole(t: seq<Piece>, key: string): (i: nat)
    ensures i <= |t| && (i < |t| ==> t[i] == Hole(key)) && Hole(key) !in t[..i]
  {
    if t == [] || t[0] == Hole(key) then 0
    else
      assert t[..1 + FirstHole(t[1..], key)] == [t[0]] + t[1..][..FirstHole(t[1..], key)];
      1 + FirstHole(t[1..], key)
  }

  lemma {:induction false} ReplacedHere(a: string, word: string, b: string, value: string)
    ensures Replaced(a + (word + b), |a|, word, value) == a + (value + b)
  {
    var text := a + (word + b);
    assert text[..|a|] == a && text[|a| + |word|..] == b;
  }

  lemma {:induction false} ExhaustNext(a: string, word: string, b: string, value: string)
    requires Braces(value) < Braces(word) && Find(a + (word + b), word) == |a| < |a + (word + b)|
    ensures Exhaust(a + (word + b), word, value) == Exhaust(a + (value + b), word, value)
    ensures Braces(a + (value + b)) < Braces(a + (word + b))
  {
    var text := a + (word + b);
    ReplacedBraces(text, |a|, word, value);
    ReplacedHere(a, word, b, value);
  }

  lemma {:induction false} FirstIsThere(t: seq<Piece>, i: nat, key: string)
    requires TemplateOk(t) && NoBrace(key) && i < |t| && t[i] == Hole(key) && Hole(key) !in t[..i]
    ensures Text(t) == Text(t[..i]) + (Placeholder(key) + Text(t[i + 1..]))
    ensures Find(Text(t), Placeholder(key)) == |Text(t[..i])|
  {
    FlatSplit(PieceText, t, i);
    var u := Placeholder(key) + Text(t[i + 1..]);
    FindInTemplate(t[..i], u, key);
    assert Starts(u, Placeholder(key));
  }

  lemma {:induction false} FewerBraces(key: string, value: string)
    requires NoBrace(value)
    ensures Braces(value) < Braces(Placeholder(key))
  {
    NoBraceCount(value);
    PlaceholderBraces(key);
  }

  lemma {:induction false} NoHole(t: seq<Piece>, key: string, value: string)
    requires TemplateOk(t) && NoBrace(key) && NoBrace(value) && Hole(key) !in t
    ensures Braces(value) < Braces(Placeholder(key))
    ensures Exhaust(Text(t), Placeholder(key), value) == Text(t) && Fill(t, key, value) == t
  {
    FewerBraces(key, value);
    FindInTemplate(t, "", key);
    assert Text(t) + "" == Text(t);
  }

  lemma {:induction false} HoleHasPlace(t: seq<Piece>, key: string)
    requires Hole(key) in t
    ensures FirstHole(t, key) < |t|
  {
    assert t[..|t|] == t;
  }

  lemma {:induction false} FillOnward(t: seq<Piece>, i: nat, key: string, value: string)
    requires i < |t| && t[i] == Hole(key)
    ensures Fill(t[i := Lit(value)], key, value) == Fill(t, key, value)
  {
  }

  /** Filling the first placeholder is one turn of the loop. */
  lemma {:induction false} FillFirst(t: seq<Piece>, key: string, value: string) returns (u: seq<Piece>)
    requires TemplateOk(t) && NoBrace(key) && NoBrace(value) && Braces(value) < Braces(Placeholder(key))
    requires Hole(key) in t
    ensures TemplateOk(u) && Fill(u, key, value) == Fill(t, key, value)
    ensures Exhaust(Text(t), Placeholder(key), value) == Exhaust(Text(u), Placeholder(key), value)
    ensures Braces(Text(u)) < Braces(Text(t))
  {
    var i := FirstHole(t, key);
    HoleHasPlace(t, key);
    u := t[i := Lit(value)];
    FillOnward(t, i, key, value);
    FirstIsThere(t, i, key);
    FlatSplit(PieceText, u, i);
    assert u[..i] == t[..i] && u[i + 1..] == t[i + 1..];
    ExhaustNext(Text(t[..i]), Placeholder(key), Text(t[i + 1..]), value);
  }

  /** Rescanning for one key fills exactly its placeholders. */
  lemma {:induction false} ExhaustFills(t: seq<Piece>, key: string, value: string)
    requires TemplateOk(t) && NoBrace(key) && NoBrace(value)
    ensures Braces(value) < Braces(Placeholder(key))
    ensures Exhaust(Text(t), Placeholder(key), value) == Text(Fill(t, key, value))
    decreases Braces(Text(t))
  {
    FewerBraces(key, value);
    if Hole(key) in t {
      var u := FillFirst(t, key, value);
      ExhaustFills(u, key, value);
    } else {
      NoHole(t, key, value);
    }
  }

  // ---------- all keys ----------

  /** The arguments in the order the object is walked, values rendered as text. */
  type Args = seq<(string, string)>

  predicate Terminating(args: Args) {
    forall i :: 0 <= i < |args| ==> Braces(args[i].1) < Braces(Placeholder(args[i].0))
  }

  predicate BraceFree(args: Args) {
    forall i :: 0 <= i < |args| ==> NoBrace(args[i].0) && NoBrace(args[i].1)
  }

  function ExhaustAll(text: string, args: Args): string
    requires Terminating(args)
    decreases |args|
  {
    if args == [] then text
    else ExhaustAll(Exhaust(text, Placeholder(args[0].0), args[0].1), args[1..])
  }

  /** The walk over all keys stops with r. */
  ghost predicate WalkEnds(text: string, args: Args, r: string)
    decreases |args|
  {
    if args == [] then r == text
    else exists mid :: Ends(text, Placeholder(args[0].0), args[0].1, mid) && WalkEnds(mid, args[1..], r)
  }

  lemma {:induction false} ExhaustAllEnds(text: string, args: Args)
    requires Terminating(args)
    ensures WalkEnds(text, args, ExhaustAll(text, args))
    decreases |args|
  {
    if args != [] {
      ExhaustEnds(text, Placeholder(args[0].0), args[0].1);
      ExhaustAllEnds(Exhaust(text, Placeholder(args[0].0), args[0].1), args[1..]);
    }
  }

  /** The walk over the keys, on every input on which it stops. */
  method SubstitutePlaceholders(src: string, args: Args, ghost final: string) returns (result: string)
    requires WalkEnds(src, args, final)
    ensures result == final
  {
    result := src;
    var i := 0;
    while i < |args|
      invariant i <= |args| && WalkEnds(result, args[i..], final)
    {
      var (key, value) := args[i];
      assert args[i..][0] == args[i] && args[i..][1..] == args[i + 1..];
      ghost var mid :| Ends(result, Placeholder(key), value, mid) && WalkEnds(mid, args[i + 1..], final);
      result := ReplaceAll(result, "{{" + key + "}}", value, mid);
      i := i + 1;
    }
  }

  datatype Binding = Unbound | Bound(value: string)

  function Lookup(args: Args, key: string): Binding {
    if args == [] then Unbound else if args[0].0 == key then Bound(args[0].1) else Lookup(args[1..], key)
  }

  /** Every placeholder at once, unknown keys left in place. */
  function SimPiece(p: Piece, args: Args): Piece {
    if p.Lit? then p
    else
      match Lookup(args, p.key)
      case Unbound => p
      case Bound(v) => Lit(v)
  }

  function Simultaneous(t: seq<Piece>, args: Args): (r: seq<Piece>)
    ensures |r| == |t| && forall i :: 0 <= i < |t| ==> r[i] == SimPiece(t[i], args)
  {
    seq(|t|, i requires 0 <= i < |t| => SimPiece(t[i], args))
  }

  lemma {:induction false} BraceFreeTerminates(args: Args)
    requires BraceFree(args)
    ensures Terminating(args)
  {
    forall i | 0 <= i < |args|
      ensures Braces(args[i].1) < Braces(Placeholder(args[i].0))
    {
      FewerBraces(args[i].0, args[i].1);
    }
  }

  /** Rescanning key by key refines the simultaneous substitution, in whatever order the keys come. */
  lemma {:induction false} RescanIsSimultaneous(t: seq<Piece>, args: Args)
    requires TemplateOk(t) && BraceFree(args)
    ensures Terminating(args) && ExhaustAll(Text(t), args) == Text(Simultaneous(t, args))
    decreases |args|
  {
    BraceFreeTerminates(args);
    if args == [] {
      assert Simultaneous(t, args) == t;
    } else {
      var (key, value) := args[0];
      var u := Fill(t, key, value);
      ExhaustFills(t, key, value);
      RescanIsSimultaneous(u, args[1..]);
      assert Simultaneous(u, args[1..]) == Simultaneous(t, args);
    }
  }

  lemma {:induction false} OrderDoesNotMatter(t: seq<Piece>, args: Args, other: Args)
    requires TemplateOk(t) && BraceFree(args) && BraceFree(other)
    requires forall key :: Lookup(args, key) == Lookup(other, key)
    ensures Terminating(args) && Terminating(other) && ExhaustAll(Text(t), args) == ExhaustAll(Text(t), other)
  {
    RescanIsSimultaneous(t, args);
    RescanIsSimultaneous(t, other);
    assert Simultaneous(t, args) == Simultaneous(t, other);
  }

  // ---------- values that hold placeholders ----------

  lemma {:induction false} ContainsHere(text: string, word: string, i: nat)
    requires i < |text| && Starts(text[i..], word)
    ensures Contains(text, word)
  {
    if Find(text, word) == |text| {
      FindIsLeftmost(text, word, i);
    }
  }

  lemma {:induction false} StartsInside(a: string, v: string, b: string, word: string, k: nat)
    requires k <= |v| && Starts(v[k..], word)
    ensures Starts((a + v + b)[|a| + k..], word)
  {
    var r := (a + v + b)[|a| + k..];
    forall i | 0 <= i < |word|
      ensures r[i] == word[i]
    {
      assert word[i] == v[k..][..|word|][i] == v[k + i];
    }
  }

  lemma {:induction false} JoinContains(a: string, v: string, b: string, word: string)
    requires Contains(v, word)
    ensures Contains(a + v + b, word)
  {
    StartsInside(a, v, b, word, Find(v, word));
    ContainsHere(a + v + b, word, |a| + Find(v, word));
  }

  lemma {:induction false} ReplacedContains(text: string, word: string, value: string)
    requires Contains(text, word) && Contains(value, word)
    ensures Contains(Replaced(text, Find(text, word), word, value), word)
  {
    var i := Find(text, word);
    JoinContains(text[..i], value, text[i + |word|..], word);
  }

  /** A value that holds its own placeholder keeps the loop going for ever. */
  lemma {:induction false} NeverStops(text: string, word: string, value: string, n: nat)
    requires Contains(text, word) && Contains(value, word)
    ensures Contains(Steps(text, word, value, n), word)
    decreases n
  {
    if n > 0 {
      ReplacedContains(text, word, value);
      NeverStops(Replaced(text, Find(text, word), word, value), word, value, n - 1);
    }
  }

  function Holes(t: seq<Piece>, key: string): nat {
    if t == [] then 0 else (if t[0] == Hole(key) then 1 else 0) + Holes(t[1..], key)
  }

  lemma {:induction false} HolesJoin(a: seq<Piece>, b: seq<Piece>, key: string)
    ensures Holes(a + b, key) == Holes(a, key) + Holes(b, key)
  {
    if a == [] {
      assert a + b == b;
    } else {
      HolesJoin(a[1..], b, key);
      assert (a + b)[1..] == a[1..] + b;
    }
  }

  lemma {:induction false} NoHoles(t: seq<Piece>, key: string)
    ensures Holes(t, key) == 0 <==> Hole(key) !in t
  {
    if t != [] {
      NoHoles(t[1..], key);
      assert t == [t[0]] + t[1..];
    }
  }

  /** The template after its first placeholder for the key was replaced by a value that is a template itself. */
  function Spliced(t: seq<Piece>, i: nat, v: seq<Piece>): seq<Piece>
    requires i < |t|
  {
    t[..i] + (v + t[i + 1..])
  }

  lemma {:induction false} SplicedText(t: seq<Piece>, i: nat, v: seq<Piece>, key: string)
    requires TemplateOk(t) && NoBrace(key) && i < |t| && t[i] == Hole(key) && Hole(key) !in t[..i]
    ensures Contains(Text(t), Placeholder(key))
    ensures Replaced(Text(t), Find(Text(t), Placeholder(key)), Placeholder(key), Text(v)) == Text(Spliced(t, i, v))
  {
    FirstIsThere(t, i, key);
    FlatJoin(PieceText, v, t[i + 1..]);
    FlatJoin(PieceText, t[..i], v + t[i + 1..]);
    ReplacedHere(Text(t[..i]), Placeholder(key), Text(t[i + 1..]), Text(v));
  }

  lemma {:induction false} SplicedHoles(t: seq<Piece>, i: nat, v: seq<Piece>, key: string)
    requires i < |t| && t[i] == Hole(key) && Hole(key) !in v
    ensures Holes(Spliced(t, i, v), key) == Holes(t, key) - 1
  {
    assert t == t[..i] + ([t[i]] + t[i + 1..]);
    HolesJoin(t[..i], [t[i]] + t[i + 1..], key);
    HolesJoin([t[i]], t[i + 1..], key);
    HolesJoin(t[..i], v + t[i + 1..], key);
    HolesJoin(v, t[i + 1..], key);
    NoHoles(v, key);
  }

  lemma {:induction false} NothingToFind(t: seq<Piece>, key: string)
    requires TemplateOk(t) && NoBrace(key) && Hole(key) !in t
    ensures !Contains(Text(t), Placeholder(key))
  {
    FindInTemplate(t, "", key);
    assert Text(t) + "" == Text(t);
  }

  lemma {:induction false} SplicedOk(t: seq<Piece>, i: nat, v: seq<Piece>)
    requires TemplateOk(t) && TemplateOk(v) && i < |t|
    ensures TemplateOk(Spliced(t, i, v))
  {
  }

  /** Splicing the value into the first placeholder is one turn of the loop. */
  lemma {:induction false} SpliceFirst(t: seq<Piece>, v: seq<Piece>, key: string) returns (u: seq<Piece>, i: nat)
    requires TemplateOk(t) && TemplateOk(v) && NoBrace(key) && Hole(key) !in v && Hole(key) in t
    ensures i < |t| && t[i] == Hole(key) && u == Spliced(t, i, v) && TemplateOk(u)
    ensures Holes(u, key) == Holes(t, key) - 1
    ensures Steps(Text(t), Placeholder(key), Text(v), Holes(t, key))
         == Steps(Text(u), Placeholder(key), Text(v), Holes(u, key))
  {
    i := FirstHole(t, key);
    HoleHasPlace(t, key);
    u := Spliced(t, i, v);
    SplicedOk(t, i, v);
    SplicedHoles(t, i, v, key);
    SplicedText(t, i, v, key);
    StepsNext(Text(t), Text(u), Placeholder(key), Text(v), Holes(t, key));
  }

  lemma {:induction false} StopsAfter(t: seq<Piece>, v: seq<Piece>, key: string)
    requires TemplateOk(t) && TemplateOk(v) && NoBrace(key) && Hole(key) !in v
    ensures !Contains(Steps(Text(t), Placeholder(key), Text(v), Holes(t, key)), Placeholder(key))
    decreases Holes(t, key)
  {
    if Hole(key) !in t {
      NoHoles(t, key);
      NothingToFind(t, key);
    } else {
      var u, i := SpliceFirst(t, v, key);
      StopsAfter(u, v, key);
    }
  }

  lemma {:induction false} HoleIsContained(t: seq<Piece>, key: string)
    requires TemplateOk(t) && NoBrace(key) && Hole(key) in t
    ensures Contains(Text(t), Placeholder(key))
  {
    var i := FirstHole(t, key);
    HoleHasPlace(t, key);
    SplicedText(t, i, [], key);
  }

  /** For values that may hold placeholders too, the loop stops exactly when the template lacks the key or its value
      does not hold its own placeholder. */
  lemma {:induction false} StopsIff(t: seq<Piece>, v: seq<Piece>, key: string)
    requires TemplateOk(t) && TemplateOk(v) && NoBrace(key)
    ensures (exists n :: !Contains(Steps(Text(t), Placeholder(key), Text(v), n), Placeholder(key)))
       <==> Hole(key) !in t || Hole(key) !in v
  {
    if Hole(key) !in v {
      StopsAfter(t, v, key);
    } else if Hole(key) !in t {
      NothingToFind(t, key);
      assert !Contains(Steps(Text(t), Placeholder(key), Text(v), 0), Placeholder(key));
    } else {
      HoleIsContained(t, key);
      HoleIsContained(v, key);
      forall n: nat
        ensures Contains(Steps(Text(t), Placeholder(key), Text(v), n), Placeholder(key))
      {
        NeverStops(Text(t), Placeholder(key), Text(v), n);
      }
    }
  }
}
