/** maludb_vector_in and maludb_vector_out of src/maludb_type.c, over any way of printing and scanning one number. */
module VectorText {

  /** strtod as the parser uses it: how many characters it took, none if there is no number, and the value. */
  datatype Number<F> = Number(taken: nat, value: F)

  datatype Parsed<F> = Vector(elements: seq<F>) | NoOpening | BadNumber | BadSeparator | NoClosing

  predicate Space(c: char) {
    c == ' ' || c as int in {9, 10, 11, 12, 13}
  }

  /** The text after its leading white space. */
  function Skip(t: string): (r: string)
    ensures |r| <= |t|
    ensures r != "" ==> !Space(r[0])
  {
    if t != "" && Space(t[0]) then Skip(t[1..]) else t
  }

  ghost predicate Bounded<F(!new)>(scan: string -> Number<F>) {
    forall t :: scan(t).taken <= |t|
  }

  function Prepend<F>(v: F, p: Parsed<F>): Parsed<F> {
    if p.Vector? then Vector([v] + p.elements) else p
  }

  /** One element and the text at the next one or at the closing bracket, or what is wrong with it. */
  datatype Step<F> = Go(value: F, rest: string) | Stop(error: Parsed<F>)

  function AfterNumber<F>(v: F, u: string): (r: Step<F>)
    ensures r.Go? ==> |r.rest| <= |u|
  {
    if u != "" && u[0] == ',' then Go(v, Skip(u[1..]))
    else if u == "" || u[0] == ']' then Go(v, u)
    else Stop(BadSeparator)
  }

  function Next<F(!new)>(scan: string -> Number<F>, t: string): (r: Step<F>)
    requires Bounded(scan)
    ensures r.Go? ==> |r.rest| < |t|
  {
    var n := scan(t);
    if n.taken == 0 then Stop(BadNumber) else AfterNumber(n.value, Skip(t[n.taken..]))
  }

  /** The loop over the elements, from the text at an element or at the closing bracket. */
  function Elements<F(!new)>(scan: string -> Number<F>, t: string): Parsed<F>
    requires Bounded(scan)
    decreases |t|
  {
    if t == "" then NoClosing
    else if t[0] == ']' then Vector([])
    else
      match Next(scan, t)
      case Stop(e) => e
      case Go(v, rest) => Prepend(v, Elements(scan, rest))
  }

  function Parse<F(!new)>(scan: string -> Number<F>, s: string): Parsed<F>
    requires Bounded(scan)
  {
    var t := Skip(s);
    if t == "" || t[0] != '[' then NoOpening else Elements(scan, Skip(t[1..]))
  }

  // ---------- the parser ----------

  method SkipSpace(s: string, at: nat) returns (p: nat)
    requires at <= |s|
    ensures at <= p <= |s| && s[p..] == Skip(s[at..])
  {
    p := at;
    while p < |s| && Space(s[p])
      invariant at <= p <= |s| && Skip(s[p..]) == Skip(s[at..])
    {
      assert s[p..][1..] == s[p + 1..];
      p := p + 1;
    }
  }

  /** The doubling buffer: every element has its place before it is written. */
  method Store<F(0)>(out: array<F>, count: nat, v: F) returns (grown: array<F>)
    requires 0 < out.Length && count <= out.Length
    modifies out
    ensures grown == out || fresh(grown)
    ensures count < grown.Length && grown[..count + 1] == old(out[..count]) + [v]
  {
    grown := out;
    if count >= out.Length {
      grown := new F[2 * out.Length];
      forall i | 0 <= i < count {
        grown[i] := out[i];
      }
    }
    grown[count] := v;
  }

  lemma Joined<F>(a: seq<F>, v: F, p: Parsed<F>)
    ensures Front(a, Prepend(v, p)) == Front(a + [v], p)
  {
    if p.Vector? {
      assert a + ([v] + p.elements) == a + [v] + p.elements;
    }
  }

  function Front<F>(a: seq<F>, p: Parsed<F>): Parsed<F> {
    if p.Vector? then Vector(a + p.elements) else p
  }

  method VectorIn<F(0, !new)>(scan: string -> Number<F>, s: string) returns (r: Parsed<F>)
    requires Bounded(scan)
    ensures r == Parse(scan, s)
  {
    var p := SkipSpace(s, 0);
    assert s[0..] == s;
    if p == |s| || s[p] != '[' {
      return NoOpening;
    }
    assert s[p..][1..] == s[p + 1..];
    p := SkipSpace(s, p + 1);
    r := Body(scan, s, p);
  }

  /** The separator after a number and the white space around it. */
  method Separator<F>(v: F, s: string, at: nat) returns (r: Step<F>, p: nat)
    requires at <= |s|
    ensures r == AfterNumber(v, Skip(s[at..]))
    ensures r.Go? ==> at <= p <= |s| && r.rest == s[p..]
  {
    p := SkipSpace(s, at);
    if p < |s| && s[p] == ',' {
      assert s[p..][1..] == s[p + 1..];
      p := SkipSpace(s, p + 1);
    } else if p < |s| && s[p] != ']' {
      return Stop(BadSeparator), p;
    }
    r := Go(v, s[p..]);
  }

  /** One turn of the loop without the store: the element and where the next one begins, or what went wrong. */
  method Element<F(!new)>(scan: string -> Number<F>, s: string, at: nat) returns (v: Step<F>, p: nat)
    requires Bounded(scan) && at < |s|
    ensures v == Next(scan, s[at..])
    ensures v.Go? ==> at < p <= |s| && v.rest == s[p..]
  {
    var n := scan(s[at..]);
    if n.taken == 0 {
      return Stop(BadNumber), at;
    }
    assert s[at..][n.taken..] == s[at + n.taken..];
    v, p := Separator(n.value, s, at + n.taken);
  }

  method Body<F(0, !new)>(scan: string -> Number<F>, s: string, at: nat) returns (r: Parsed<F>)
    requires Bounded(scan) && at <= |s|
    ensures r == Elements(scan, s[at..])
  {
    var p: nat := at;
    var count: nat := 0;
    var out := new F[16];
    ghost var whole := Elements(scan, s[at..]);
    while p < |s| && s[p] != ']'
      invariant at <= p <= |s| && 0 < out.Length && count <= out.Length && fresh(out)
      invariant whole == Front(out[..count], Elements(scan, s[p..]))
      decreases |s| - p
    {
      ghost var had := out[..count];
      var v, next := Element(scan, s, p);
      if v.Stop? {
        return v.error;
      }
      Joined(had, v.value, Elements(scan, s[next..]));
      out := Store(out, count, v.value);
      count := count + 1;
      p := next;
    }
    if p == |s| {
      return NoClosing;
    }
    return Vector(out[..count]);
  }

  // ---------- texts of a vector ----------

  /** The white space of the C locale, spelled out. */
  predicate Blank(s: string) {
    forall i :: 0 <= i < |s| ==> s[i] in {' ', '\t', '\n', '\U{0B}', '\U{0C}', '\r'}
  }

  /** A number with the white space around it. */
  datatype Item<F> = Item(value: F, before: string, after: string)

  predicate ItemOk<F>(it: Item<F>) {
    Blank(it.before) && Blank(it.after)
  }

  /** What comes after an element: a comma and the next one, or the closing bracket and anything. */
  function Rest<F>(show: F -> string, items: seq<Item<F>>, tail: string): string
    decreases |items|, 1
  {
    if items == [] then "]" + tail else "," + Laid(show, items, tail)
  }

  function Laid<F>(show: F -> string, items: seq<Item<F>>, tail: string): string
    requires items != []
    decreases |items|, 0
  {
    items[0].before + (show(items[0].value) + (items[0].after + Rest(show, items[1..], tail)))
  }

  function Layout<F>(show: F -> string, lead: string, gap: string, items: seq<Item<F>>, tail: string): string {
    lead + ("[" + if items == [] then gap + ("]" + tail) else Laid(show, items, tail))
  }

  function Values<F>(items: seq<Item<F>>): (r: seq<F>)
    ensures |r| == |items|
  {
    if items == [] then [] else [items[0].value] + Values(items[1..])
  }

  predicate EndsNumber(rest: string) {
    rest != "" && (Space(rest[0]) || rest[0] == ',' || rest[0] == ']')
  }

  /** Printing and scanning are inverse on a single number. */
  ghost predicate Inverse<F(!new)>(show: F -> string, scan: string -> Number<F>) {
    && Bounded(scan)
    && (forall v :: show(v) != "" && !Space(show(v)[0]) && show(v)[0] != ']')
    && forall v, rest :: EndsNumber(rest) ==> scan(show(v) + rest) == Number(|show(v)|, v)
  }

  function ShowBit(b: bool): string {
    if b then "1" else "0"
  }

  function ScanBit(t: string): Number<bool> {
    if t != "" && (t[0] == '0' || t[0] == '1') then Number(1, t[0] == '1') else Number(0, false)
  }

  /** Such pairs exist: one digit is printed and scanned. */
  lemma InverseIsPossible()
    ensures Inverse(ShowBit, ScanBit)
  {
    forall v, rest | EndsNumber(rest)
      ensures ScanBit(ShowBit(v) + rest) == Number(|ShowBit(v)|, v)
    {
      assert (ShowBit(v) + rest)[0] == ShowBit(v)[0];
    }
  }

  lemma {:induction false} SkipBlank(a: string, u: string)
    requires Blank(a) && u != "" && !Space(u[0])
    ensures Skip(a + u) == u
  {
    if a == "" {
      assert a + u == u;
    } else {
      assert (a + u)[1..] == a[1..] + u;
      SkipBlank(a[1..], u);
    }
  }

  lemma {:induction false} NextOfNumber<F(!new)>(show: F -> string, scan: string -> Number<F>, v: F, after: string,
                                                 rest: string)
    requires Inverse(show, scan) && Blank(after) && rest != "" && (rest[0] == ',' || rest[0] == ']')
    ensures Next(scan, show(v) + (after + rest)) == AfterNumber(v, rest)
  {
    var u := after + rest;
    assert EndsNumber(u) by {
      assert after == "" ==> u == rest;
    }
    assert (show(v) + u)[|show(v)|..] == u;
    SkipBlank(after, rest);
  }

  lemma {:induction false} LaidOut<F(!new)>(show: F -> string, scan: string -> Number<F>, items: seq<Item<F>>,
                                            tail: string)
    requires Inverse(show, scan) && items != [] && forall i :: 0 <= i < |items| ==> ItemOk(items[i])
    ensures Elements(scan, Skip(Laid(show, items, tail))) == Vector(Values(items))
    decreases |items|
  {
    var it, rest := items[0], Rest(show, items[1..], tail);
    var t := show(it.value) + (it.after + rest);
    SkipBlank(it.before, t);
    NextOfNumber(show, scan, it.value, it.after, rest);
    if items[1..] == [] {
      assert AfterNumber(it.value, rest) == Go(it.value, rest);
      assert Elements(scan, rest) == Vector([]);
    } else {
      LaidOut(show, scan, items[1..], tail);
      assert rest[1..] == Laid(show, items[1..], tail);
    }
  }

  /** Any layout of a vector is read back: white space around the tokens and anything after the closing bracket make
      no difference. */
  lemma {:induction false} LayoutIsRead<F(!new)>(show: F -> string, scan: string -> Number<F>, lead: string,
                                                 gap: string, items: seq<Item<F>>, tail: string)
    requires Inverse(show, scan) && Blank(lead) && Blank(gap) && forall i :: 0 <= i < |items| ==> ItemOk(items[i])
    ensures Parse(scan, Layout(show, lead, gap, items, tail)) == Vector(Values(items))
  {
    var inner := if items == [] then gap + ("]" + tail) else Laid(show, items, tail);
    SkipBlank(lead, "[" + inner);
    assert ("[" + inner)[1..] == inner;
    if items == [] {
      SkipBlank(gap, "]" + tail);
    } else {
      LaidOut(show, scan, items, tail);
    }
  }

  // ---------- printing ----------

  /** The elements as the printer spaces them. */
  function Spaced<F>(vs: seq<F>, first: bool): (r: seq<Item<F>>)
    ensures |r| == |vs| && forall i :: 0 <= i < |r| ==> ItemOk(r[i])
    ensures Values(r) == vs
  {
    if vs == [] then [] else [Item(vs[0], if first then "" else " ", "")] + Spaced(vs[1..], false)
  }

  /** What is still to be printed from element i on. */
  function Ahead<F>(show: F -> string, vs: seq<F>, i: nat): string
    requires i <= |vs|
    decreases |vs| - i
  {
    if i == |vs| then "]" else (if i > 0 then ", " else "") + show(vs[i]) + Ahead(show, vs, i + 1)
  }

  method VectorOut<F>(show: F -> string, data: seq<F>) returns (text: string)
    ensures text == "[" + Ahead(show, data, 0)
  {
    text := "[";
    for i := 0 to |data|
      invariant text + Ahead(show, data, i) == "[" + Ahead(show, data, 0)
    {
      if i > 0 {
        text := text + ", ";
      }
      text := text + show(data[i]);
    }
    text := text + "]";
  }

  lemma {:induction false} AheadIsLaid<F>(show: F -> string, vs: seq<F>, i: nat)
    requires 0 < i <= |vs|
    ensures Ahead(show, vs, i) == Rest(show, Spaced(vs[i..], false), "")
    decreases |vs| - i
  {
    if i < |vs| {
      AheadIsLaid(show, vs, i + 1);
      assert vs[i..][1..] == vs[i + 1..] && vs[i..][0] == vs[i];
      assert Spaced(vs[i..], false)[1..] == Spaced(vs[i + 1..], false);
      var p, rest := show(vs[i]), Ahead(show, vs, i + 1);
      assert "" + rest == rest;
      assert ", " + p + rest == "," + (" " + (p + rest));
    }
  }

  /** Reading what was printed gives back every vector of every dimension. */
  lemma {:induction false} TextRoundTrip<F(!new)>(show: F -> string, scan: string -> Number<F>, vs: seq<F>)
    requires Inverse(show, scan)
    ensures Parse(scan, "[" + Ahead(show, vs, 0)) == Vector(vs)
  {
    var items := Spaced(vs, true);
    LayoutIsRead(show, scan, "", "", items, "");
    if vs != [] {
      AheadIsLaid(show, vs, 1);
      assert items[1..] == Spaced(vs[1..], false);
      var p, rest := show(vs[0]), Ahead(show, vs, 1);
      assert "" + p + rest == "" + (p + ("" + rest));
    }
    assert Layout(show, "", "", items, "") == "[" + Ahead(show, vs, 0);
  }

  // ---------- which texts are accepted ----------

  /** A number as it stands in the text, the white space after it, and the white space after its comma. */
  datatype Token<F> = Token(text: string, value: F, after: string, gap: string)

  /** Numbers separated by commas, with or without a comma after the last, a closing bracket and anything. */
  function Listed<F>(toks: seq<Token<F>>, comma: bool, tail: string): string {
    if toks == [] then "]" + tail
    else
      var rest := if |toks| == 1 && !comma then "]" + tail else "," + (toks[0].gap + Listed(toks[1..], comma, tail));
      toks[0].text + (toks[0].after + rest)
  }

  /** Each number starts with neither white space nor a bracket and is just what scanning takes there. */
  ghost predicate Scans<F(!new)>(scan: string -> Number<F>, toks: seq<Token<F>>, comma: bool, tail: string) {
    toks != [] ==>
      && toks[0].text != "" && !Space(toks[0].text[0]) && toks[0].text[0] != ']'
      && Blank(toks[0].after) && Blank(toks[0].gap)
      && scan(Listed(toks, comma, tail)) == Number(|toks[0].text|, toks[0].value)
      && Scans(scan, toks[1..], comma, tail)
  }

  function Scanned<F>(toks: seq<Token<F>>): (r: seq<F>)
    ensures |r| == |toks|
  {
    if toks == [] then [] else [toks[0].value] + Scanned(toks[1..])
  }

  /** The text is a list of numbers with these values. */
  ghost predicate IsList<F(!new)>(scan: string -> Number<F>, t: string, vs: seq<F>, toks: seq<Token<F>>, comma: bool,
                                  tail: string) {
    t == Listed(toks, comma, tail) && Scans(scan, toks, comma, tail) && Scanned(toks) == vs
  }

  lemma {:induction false} SkipSplits(t: string) returns (a: string)
    ensures t == a + Skip(t) && Blank(a)
  {
    a := "";
    if t != "" && Space(t[0]) {
      var b := SkipSplits(t[1..]);
      a := [t[0]] + b;
      assert t == [t[0]] + t[1..];
    }
  }

  lemma {:induction false} ListReads<F(!new)>(scan: string -> Number<F>, toks: seq<Token<F>>, comma: bool, tail: string)
    requires Bounded(scan) && Scans(scan, toks, comma, tail)
    ensures Elements(scan, Listed(toks, comma, tail)) == Vector(Scanned(toks))
    ensures Listed(toks, comma, tail) != "" && !Space(Listed(toks, comma, tail)[0])
    decreases |toks|
  {
    if toks != [] {
      var k := toks[0];
      var more := Listed(toks[1..], comma, tail);
      ListReads(scan, toks[1..], comma, tail);
      var rest := if |toks| == 1 && !comma then "]" + tail else "," + (k.gap + more);
      assert Listed(toks, comma, tail)[|k.text|..] == k.after + rest;
      SkipBlank(k.after, rest);
      SkipBlank(k.gap, more);
      assert rest[1..] == if |toks| == 1 && !comma then tail else k.gap + more;
    }
  }

  lemma {:induction false} ReadIsList<F(!new)>(scan: string -> Number<F>, t: string)
    returns (toks: seq<Token<F>>, comma: bool, tail: string)
    requires Bounded(scan) && Elements(scan, t).Vector? && t != "" && !Space(t[0])
    ensures IsList(scan, t, Elements(scan, t).elements, toks, comma, tail)
    decreases |t|
  {
    if t[0] == ']' {
      toks, comma, tail := [], false, t[1..];
    } else {
      var n := scan(t);
      var text, u := t[..n.taken], Skip(t[n.taken..]);
      var after := SkipSplits(t[n.taken..]);
      assert t == text + (after + u);
      if u[0] == ']' {
        toks, comma, tail := [Token(text, n.value, after, "")], false, u[1..];
        assert u == "]" + tail;
      } else {
        var rest := Skip(u[1..]);
        var gap := SkipSplits(u[1..]);
        assert u == "," + (gap + rest);
        toks, comma, tail := ReadIsList(scan, rest);
        comma := comma || toks == [];
        toks := [Token(text, n.value, after, gap)] + toks;
      }
    }
  }

  /** A vector text: white space, the opening bracket, white space and a list. */
  ghost predicate IsText<F(!new)>(scan: string -> Number<F>, s: string, vs: seq<F>, lead: string, gap: string,
                                  toks: seq<Token<F>>, comma: bool, tail: string) {
    && s == lead + ("[" + (gap + Listed(toks, comma, tail))) && Blank(lead) && Blank(gap)
    && Scans(scan, toks, comma, tail) && Scanned(toks) == vs
  }

  lemma TextReads<F(!new)>(scan: string -> Number<F>, s: string, vs: seq<F>, lead: string, gap: string,
                           toks: seq<Token<F>>, comma: bool, tail: string)
    requires Bounded(scan) && IsText(scan, s, vs, lead, gap, toks, comma, tail)
    ensures Parse(scan, s) == Vector(vs)
  {
    var t := Listed(toks, comma, tail);
    ListReads(scan, toks, comma, tail);
    SkipBlank(lead, "[" + (gap + t));
    SkipBlank(gap, t);
    assert ("[" + (gap + t))[1..] == gap + t;
  }

  lemma ReadIsText<F(!new)>(scan: string -> Number<F>, s: string)
    returns (lead: string, gap: string, toks: seq<Token<F>>, comma: bool, tail: string)
    requires Bounded(scan) && Parse(scan, s).Vector?
    ensures IsText(scan, s, Parse(scan, s).elements, lead, gap, toks, comma, tail)
  {
    lead := SkipSplits(s);
    var body := Skip(s)[1..];
    gap := SkipSplits(body);
    toks, comma, tail := ReadIsList(scan, Skip(body));
    assert Skip(s) == "[" + body;
  }

  /** A text is accepted as vs exactly when it is a list of numbers with these values between brackets: nothing else may
      stand between two numbers, but a comma may follow the last. */
  lemma AcceptedIff<F(!new)>(scan: string -> Number<F>, s: string, vs: seq<F>)
    requires Bounded(scan)
    ensures Parse(scan, s) == Vector(vs) <==>
      exists lead, gap, toks, comma, tail :: IsText(scan, s, vs, lead, gap, toks, comma, tail)
  {
    if Parse(scan, s) == Vector(vs) {
      var lead, gap, toks, comma, tail := ReadIsText(scan, s);
    }
    forall lead, gap, toks, comma, tail | IsText(scan, s, vs, lead, gap, toks, comma, tail)
      ensures Parse(scan, s) == Vector(vs)
    {
      TextReads(scan, s, vs, lead, gap, toks, comma, tail);
    }
  }
}
