/** What json_get_string means: on the text of any JSON object, written with any whitespace between tokens, it
    finds the first top-level member with the given key. Sections 2, 4 and 7 of RFC 8259. */
module JsonMeaning {
  import opened Options
  import opened JsonScan

  /** JSON values with the whitespace they are written with. Keys and strings are kept as written between the
      quotes; numbers and literals are kept as their text. */
  datatype Json =
    | Str(raw: string)
    | Atom(text: string)
    | Arr(pad: string, items: seq<Item>)
    | Obj(pad: string, members: seq<Member>)

  datatype Item = Item(before: string, value: Json, after: string)

  datatype Member = Member(before: string, key: string, mid: string, gap: string, value: Json, after: string)

  function Print(v: Json): string
    decreases v, 0
  {
    match v
    case Str(raw) => "\"" + raw + "\""
    case Atom(text) => text
    case Arr(pad, items) => "[" + (if items == [] then pad else PrintItems(items)) + "]"
    case Obj(pad, members) => "{" + (if members == [] then pad else PrintMembers(members)) + "}"
  }

  function PrintItems(s: seq<Item>): string
    decreases s, 2
  {
    if s == [] then "" else s[0].before + (Print(s[0].value) + (s[0].after + MoreItems(s)))
  }

  function MoreItems(s: seq<Item>): string
    requires s != []
    decreases s, 1
  {
    if |s| == 1 then "" else "," + PrintItems(s[1..])
  }

  function PrintMembers(s: seq<Member>): string
    decreases s, 2
  {
    if s == [] then "" else s[0].before + ("\"" + (s[0].key + "\"" + (s[0].mid + (":" + (s[0].gap + ValueAndMore(s))))))
  }

  /** The text from a member's value on. */
  function ValueAndMore(s: seq<Member>): string
    requires s != []
    decreases s, 1
  {
    Print(s[0].value) + (s[0].after + (if |s| == 1 then "" else "," + PrintMembers(s[1..])))
  }

  // ---------- well-formed values ----------

  /** Section 2: space, horizontal tab, line feed and carriage return. */
  predicate Blank(s: string) {
    forall i :: 0 <= i < |s| ==> s[i] in {' ', '\t', '\n', '\r'}
  }

  /** No unescaped quote, and every backslash escapes a character. */
  predicate RawOk(s: string) {
    s == "" || (s[0] != '"' && if s[0] == '\\' then |s| >= 2 && RawOk(s[2..]) else RawOk(s[1..]))
  }

  /** Numbers and literals hold no whitespace, quotes or brackets. */
  predicate AtomOk(s: string) {
    s != "" && forall i :: 0 <= i < |s| ==> s[i] !in {' ', '\t', '\n', '\r', '"', '{', '}', '[', ']'}
  }

  predicate Ok(v: Json)
    decreases v, 0
  {
    match v
    case Str(raw) => RawOk(raw)
    case Atom(text) => AtomOk(text)
    case Arr(pad, items) => Blank(pad) && ItemsOk(items)
    case Obj(pad, members) => Blank(pad) && MembersOk(members)
  }

  predicate ItemsOk(s: seq<Item>)
    decreases s, 0
  {
    s == [] || (Blank(s[0].before) && Ok(s[0].value) && Blank(s[0].after) && ItemsOk(s[1..]))
  }

  predicate MembersOk(s: seq<Member>)
    decreases s, 0
  {
    s == [] || (Blank(s[0].before) && RawOk(s[0].key) && Blank(s[0].mid) && Blank(s[0].gap)
                && Ok(s[0].value) && Blank(s[0].after) && MembersOk(s[1..]))
  }

  /** The string value of the first member with this key. */
  function Lookup(s: seq<Member>, field: string): Option<string> {
    if s == [] then None
    else if s[0].key == field then (if s[0].value.Str? then Some(s[0].value.raw) else None)
    else Lookup(s[1..], field)
  }

  // ---------- scanning pieces of text ----------

  lemma {:induction false} BlankWs(s: string, rest: string)
    requires Blank(s) && (rest != "" ==> !IsWs(rest[0]))
    ensures Ws(s + rest) == |s| && (s + rest)[|s|..] == rest
  {
    if s == "" {
      assert s + rest == rest;
    } else {
      assert (s + rest)[1..] == s[1..] + rest;
      BlankWs(s[1..], rest);
    }
  }

  lemma {:induction false} RawCloses(s: string, rest: string)
    requires RawOk(s)
    ensures CloseQuote(s + "\"" + rest) == |s|
  {
    var t := s + "\"" + rest;
    if s != "" {
      if s[0] == '\\' {
        assert t[2..] == s[2..] + "\"" + rest;
        RawCloses(s[2..], rest);
      } else {
        assert t[1..] == s[1..] + "\"" + rest;
        RawCloses(s[1..], rest);
      }
    }
  }

  /** Characters that are neither quotes nor brackets do not matter. */
  lemma {:induction false} SkipPlain(s: string, rest: string, field: string, depth: int)
    requires forall i :: 0 <= i < |s| ==> s[i] !in {'"', '{', '}', '[', ']'}
    ensures Scan(s + rest, field, depth) == Scan(rest, field, depth)
  {
    if s == "" {
      assert s + rest == rest;
    } else {
      assert (s + rest)[1..] == s[1..] + rest;
      SkipPlain(s[1..], rest, field, depth);
    }
  }

  lemma SkipBlank(s: string, rest: string, field: string, depth: int)
    requires Blank(s)
    ensures Scan(s + rest, field, depth) == Scan(rest, field, depth)
  {
    SkipPlain(s, rest, field, depth);
  }

  lemma SkipOne(c: char, rest: string, field: string, depth: int)
    requires c != '"'
    ensures Scan([c] + rest, field, depth) == Scan(rest, field, DepthAfter(depth, c))
  {
    assert ([c] + rest)[1..] == rest;
  }

  /** A string body as the scanner takes it apart. */
  lemma BodySplits(raw: string, mid: string, rest: string)
    requires RawOk(raw) && Blank(mid) && (rest != "" ==> !IsWs(rest[0]))
    ensures var body := raw + "\"" + (mid + rest);
      CloseQuote(body) == |raw| < |body| && body[..|raw|] == raw && AfterString(body, |raw|) == rest
  {
    var body := raw + "\"" + (mid + rest);
    RawCloses(raw, mid + rest);
    BlankWs(mid, rest);
    assert body[|raw| + 1..] == mid + rest;
  }

  lemma {:induction false} ScanQuote(body: string, field: string, depth: int, rest: string)
    requires KeyStep(body, field, depth) == Continue(rest)
    ensures Scan("\"" + body, field, depth) == Scan(rest, field, depth)
  {
    assert ("\"" + body)[1..] == body;
  }

  /** A string that no colon follows is passed over. */
  lemma {:induction false} SkipString(raw: string, after: string, c: char, rest: string, field: string, depth: int)
    requires RawOk(raw) && Blank(after) && !IsWs(c) && c != ':'
    ensures Scan("\"" + raw + "\"" + (after + ([c] + rest)), field, depth) == Scan([c] + rest, field, depth)
  {
    var body := raw + "\"" + (after + ([c] + rest));
    BodySplits(raw, after, [c] + rest);
    ScanQuote(body, field, depth, [c] + rest);
    assert "\"" + raw + "\"" + (after + ([c] + rest)) == "\"" + body;
  }

  lemma GapSkipped(gap: string, rest: string)
    requires Blank(gap) && (rest != "" ==> !IsWs(rest[0]))
    ensures var u := ":" + (gap + rest); u[1..][Ws(u[1..])..] == rest
  {
    var u := ":" + (gap + rest);
    assert u[1..] == gap + rest;
    BlankWs(gap, rest);
  }

  /** A key that is not the one looked for is passed over with its colon; a matching key yields the value. */
  lemma KeyScan(key: string, mid: string, gap: string, rest: string, field: string, depth: int)
    requires RawOk(key) && Blank(mid) && Blank(gap) && rest != "" && !IsWs(rest[0])
    ensures Scan("\"" + (key + "\"" + (mid + (":" + (gap + rest)))), field, depth)
      == if depth == 1 && key == field then ValueHere(rest) else Scan(rest, field, depth)
  {
    var body := key + "\"" + (mid + (":" + (gap + rest)));
    BodySplits(key, mid, ":" + (gap + rest));
    GapSkipped(gap, rest);
    assert ("\"" + body)[1..] == body;
  }

  // ---------- scanning whole values ----------

  lemma Rebracket(a: string, b: string, c: string, d: string, rest: string)
    ensures a + (b + (c + d)) + rest == a + (b + (c + (d + rest)))
  {
    assert (c + d) + rest == c + (d + rest);
    assert (b + (c + d)) + rest == b + ((c + d) + rest);
  }

  /** What follows a value inside a list: a comma and more, or the closing bracket. */
  ghost predicate Follows(tail: string) {
    tail != "" && !IsWs(tail[0]) && tail[0] != ':'
  }

  lemma {:induction false} SkipLeaf(v: Json, after: string, tail: string, field: string, depth: int)
    requires Ok(v) && Blank(after) && Follows(tail) && (v.Str? || v.Atom?)
    ensures Scan(Print(v) + (after + tail), field, depth) == Scan(tail, field, depth)
  {
    match v
    case Str(raw) =>
      SkipString(raw, after, tail[0], tail[1..], field, depth);
      assert tail == [tail[0]] + tail[1..];
    case Atom(text) =>
      SkipPlain(text, after + tail, field, depth);
      SkipBlank(after, tail, field, depth);
  }

  /** Below the top level nothing matches: every value is passed over, and the depth comes back. */
  lemma {:induction false} SkipValue(v: Json, after: string, tail: string, field: string, depth: int)
    requires Ok(v) && Blank(after) && Follows(tail) && depth >= 1
    ensures Scan(Print(v) + (after + tail), field, depth) == Scan(tail, field, depth)
    decreases v, 1
  {
    if v.Arr? {
      SkipArray(v, after, tail, field, depth);
    } else if v.Obj? {
      SkipObject(v, after, tail, field, depth);
    } else {
      SkipLeaf(v, after, tail, field, depth);
    }
  }

  lemma {:induction false} SkipArray(v: Json, after: string, tail: string, field: string, depth: int)
    requires v.Arr? && Ok(v) && Blank(after) && depth >= 1
    ensures Scan(Print(v) + (after + tail), field, depth) == Scan(tail, field, depth)
    decreases v, 0
  {
    if v.items == [] {
      SkipBlank(v.pad, "]" + (after + tail), field, depth + 1);
      SkipInner(v, v.pad, '[', ']', after, tail, field, depth);
    } else {
      SkipItems(v.items, after + tail, field, depth + 1);
      SkipInner(v, PrintItems(v.items), '[', ']', after, tail, field, depth);
    }
  }

  lemma {:induction false} SkipObject(v: Json, after: string, tail: string, field: string, depth: int)
    requires v.Obj? && Ok(v) && Blank(after) && depth >= 1
    ensures Scan(Print(v) + (after + tail), field, depth) == Scan(tail, field, depth)
    decreases v, 0
  {
    if v.members == [] {
      SkipBlank(v.pad, "}" + (after + tail), field, depth + 1);
      SkipInner(v, v.pad, '{', '}', after, tail, field, depth);
    } else {
      SkipMembers(v.members, after + tail, field, depth + 1);
      SkipInner(v, PrintMembers(v.members), '{', '}', after, tail, field, depth);
    }
  }

  lemma {:induction false} SkipInner(v: Json, inner: string, open: char, close: char, after: string, tail: string,
                                     field: string, depth: int)
    requires Print(v) == [open] + inner + [close] && Blank(after)
    requires (open == '[' && close == ']') || (open == '{' && close == '}')
    requires Scan(inner + ([close] + (after + tail)), field, depth + 1)
          == Scan([close] + (after + tail), field, depth + 1)
    ensures Scan(Print(v) + (after + tail), field, depth) == Scan(tail, field, depth)
  {
    SkipList(v, inner, open, close, after + tail, field, depth);
    SkipBlank(after, tail, field, depth);
  }

  /** The brackets around a list go one level down and back. */
  lemma SkipList(v: Json, inner: string, open: char, close: char, rest: string, field: string, depth: int)
    requires Print(v) == [open] + inner + [close]
    requires (open == '[' && close == ']') || (open == '{' && close == '}')
    ensures Scan(Print(v) + rest, field, depth) == Scan(inner + ([close] + rest), field, depth + 1)
    ensures Scan([close] + rest, field, depth + 1) == Scan(rest, field, depth)
  {
    assert Print(v) + rest == [open] + (inner + ([close] + rest));
    SkipOne(open, inner + ([close] + rest), field, depth);
    SkipOne(close, rest, field, depth + 1);
  }

  /** What follows the first item. */
  function ItemTail(s: seq<Item>, rest: string): string
    requires s != []
  {
    if |s| == 1 then "]" + rest else [','] + (PrintItems(s[1..]) + ("]" + rest))
  }

  lemma {:induction false} ItemSpells(s: seq<Item>, rest: string)
    requires s != []
    ensures PrintItems(s) + ("]" + rest) == s[0].before + (Print(s[0].value) + (s[0].after + ItemTail(s, rest)))
  {
    Rebracket(s[0].before, Print(s[0].value), s[0].after, MoreItems(s), "]" + rest);
    assert MoreItems(s) + ("]" + rest) == ItemTail(s, rest);
  }

  lemma {:induction false} SkipItems(s: seq<Item>, rest: string, field: string, depth: int)
    requires s != [] && ItemsOk(s) && depth >= 2
    ensures Scan(PrintItems(s) + ("]" + rest), field, depth) == Scan("]" + rest, field, depth)
    decreases s, 1
  {
    var tail := ItemTail(s, rest);
    ItemSpells(s, rest);
    SkipBlank(s[0].before, Print(s[0].value) + (s[0].after + tail), field, depth);
    SkipValue(s[0].value, s[0].after, tail, field, depth);
    if |s| > 1 {
      SkipOne(',', PrintItems(s[1..]) + ("]" + rest), field, depth);
      SkipItems(s[1..], rest, field, depth);
    }
  }

  lemma {:induction false} SkipMembers(s: seq<Member>, rest: string, field: string, depth: int)
    requires s != [] && MembersOk(s) && depth >= 2
    ensures Scan(PrintMembers(s) + ("}" + rest), field, depth) == Scan("}" + rest, field, depth)
    decreases s, 1
  {
    var tail := MemberTail(s, rest);
    MemberText(s, rest, field, depth);
    SkipValue(s[0].value, s[0].after, tail, field, depth);
    if |s| > 1 {
      SkipOne(',', PrintMembers(s[1..]) + ("}" + rest), field, depth);
      SkipMembers(s[1..], rest, field, depth);
    }
  }

  /** What follows the first member. */
  function MemberTail(s: seq<Member>, rest: string): string
    requires s != []
  {
    if |s| == 1 then "}" + rest else [','] + (PrintMembers(s[1..]) + ("}" + rest))
  }

  /** The scan of a member up to its value. */
  lemma MemberText(s: seq<Member>, rest: string, field: string, depth: int)
    requires s != [] && MembersOk(s)
    ensures var value := Print(s[0].value) + (s[0].after + MemberTail(s, rest));
      Scan(PrintMembers(s) + ("}" + rest), field, depth)
      == if depth == 1 && s[0].key == field then ValueHere(value) else Scan(value, field, depth)
  {
    var m := s[0];
    var value := Print(m.value) + (m.after + MemberTail(s, rest));
    MemberSpells(s, rest);
    PrintStarts(m.value, m.after + MemberTail(s, rest));
    SkipBlank(m.before, "\"" + (m.key + "\"" + (m.mid + (":" + (m.gap + value)))), field, depth);
    KeyScan(m.key, m.mid, m.gap, value, field, depth);
  }

  lemma MemberSpells(s: seq<Member>, rest: string)
    requires s != []
    ensures var m := s[0];
      PrintMembers(s) + ("}" + rest) == m.before + ("\"" + (m.key + "\"" + (m.mid + (":" + (m.gap
        + (Print(m.value) + (m.after + MemberTail(s, rest))))))))
  {
    var m := s[0];
    ValueSpells(s, rest);
    SpellOut(m.before, m.key, m.mid, m.gap, ValueAndMore(s), "}" + rest);
  }

  lemma ValueSpells(s: seq<Member>, rest: string)
    requires s != []
    ensures ValueAndMore(s) + ("}" + rest) == Print(s[0].value) + (s[0].after + MemberTail(s, rest))
  {
    var more := if |s| == 1 then "" else "," + PrintMembers(s[1..]);
    assert more + ("}" + rest) == MemberTail(s, rest);
    Rebracket("", Print(s[0].value), s[0].after, more, "}" + rest);
  }

  lemma SpellOut(before: string, key: string, mid: string, gap: string, v: string, end: string)
    ensures before + ("\"" + (key + "\"" + (mid + (":" + (gap + v))))) + end
      == before + ("\"" + (key + "\"" + (mid + (":" + (gap + (v + end))))))
  {
    var w := mid + (":" + (gap + v));
    assert w + end == mid + (":" + (gap + (v + end)));
    assert (key + "\"" + w) + end == key + "\"" + (w + end);
  }

  /** The first character of a printed value: a quote exactly for strings, and never whitespace. */
  lemma PrintStarts(v: Json, rest: string)
    requires Ok(v)
    ensures var t := Print(v) + rest; t != "" && !IsWs(t[0]) && (t[0] == '"' <==> v.Str?)
  {
  }

  // ---------- the top level ----------

  lemma ValueOf(v: Json, rest: string)
    requires Ok(v)
    ensures ValueHere(Print(v) + rest) == if v.Str? then Some(v.raw) else None
  {
    var t := Print(v) + rest;
    PrintStarts(v, rest);
    if v.Str? {
      assert t[1..] == v.raw + "\"" + rest;
      RawCloses(v.raw, rest);
      assert t[1..|v.raw| + 1] == v.raw;
    }
  }

  /** At the top level the scan answers the lookup. */
  lemma {:induction false} ScanMembers(s: seq<Member>, trail: string, field: string)
    requires s != [] && MembersOk(s) && Blank(trail)
    ensures Scan(PrintMembers(s) + ("}" + trail), field, 1) == Lookup(s, field)
  {
    var tail := MemberTail(s, trail);
    MemberText(s, trail, field, 1);
    if s[0].key == field {
      ValueOf(s[0].value, s[0].after + tail);
    } else {
      SkipValue(s[0].value, s[0].after, tail, field, 1);
      if |s| > 1 {
        SkipOne(',', PrintMembers(s[1..]) + ("}" + trail), field, 1);
        ScanMembers(s[1..], trail, field);
      } else {
        ScanEnd(trail, field);
        assert s[1..] == [];
      }
    }
  }

  lemma ScanEnd(trail: string, field: string)
    requires Blank(trail)
    ensures Scan("}" + trail, field, 1) == None
  {
    SkipOne('}', trail, field, 1);
    SkipBlank(trail, "", field, 0);
    assert trail + "" == trail;
  }

  /** For every object, however it is spaced, the scanner returns the string of the first top-level member with
      the given key, and nothing when there is no such member or its value is not a string. */
  lemma ScannerMeetsMeaning(lead: string, pad: string, members: seq<Member>, trail: string, field: string)
    requires Blank(lead) && Blank(trail) && Ok(Obj(pad, members))
    ensures Scan(lead + Print(Obj(pad, members)) + trail, field, 0) == Lookup(members, field)
  {
    var v := Obj(pad, members);
    assert lead + Print(v) + trail == lead + (Print(v) + trail);
    SkipBlank(lead, Print(v) + trail, field, 0);
    SkipList(v, if members == [] then pad else PrintMembers(members), '{', '}', trail, field, 0);
    if members == [] {
      SkipBlank(pad, "}" + trail, field, 1);
      ScanEnd(trail, field);
    } else {
      ScanMembers(members, trail, field);
    }
  }
}
