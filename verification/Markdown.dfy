/** markdown_parser.py of maludb-pageindexd: headers outside fenced code become outline entries whose line
    ranges follow from the levels; builder.py slices the text by those ranges. */
module Markdown {
  import opened Options
  import opened Seqs
  import opened Outline

  // ---------- recognising fences and headers ----------

  /** The whitespace that can occur inside one line. */
  predicate IsSpace(c: char) {
    c == ' ' || c == '\t' || c == '\U{1F}' || c == '\U{A0}' || c == '\U{1680}' || '\U{2000}' <= c <= '\U{200A}'
    || c == '\U{202F}' || c == '\U{205F}' || c == '\U{3000}'
  }

  function Indent(line: string): (n: nat)
    ensures n <= |line|
  {
    if line != "" && IsSpace(line[0]) then 1 + Indent(line[1..]) else 0
  }

  function Hashes(line: string): (n: nat)
    ensures n <= |line|
  {
    if line != "" && line[0] == '#' then 1 + Hashes(line[1..]) else 0
  }

  function TrimRight(s: string): string {
    if s != "" && IsSpace(s[|s| - 1]) then TrimRight(s[..|s| - 1]) else s
  }

  function Trim(s: string): string {
    TrimRight(s[Indent(s)..])
  }

  /** The fence marker of a line: three backquotes or tildes after at most three spaces. */
  function FenceOf(line: string): (r: Option<string>)
    ensures r.Some? ==> |r.value| == 3 && r.value <= line[Indent(line)..]
  {
    var s := line[Indent(line)..];
    if Indent(line) <= 3 && |s| >= 3 && (s[..3] == "```" || s[..3] == "~~~") then Some(s[..3]) else None
  }

  /** The level and title of a header line: one to six hashes and a space. */
  function HeaderOf(line: string): Option<(nat, string)> {
    var h := Hashes(line);
    if 1 <= h <= 6 && h < |line| && IsSpace(line[h]) then Some((h - 1, Trim(line[h..]))) else None
  }

  // ---------- what a fence and a header look like ----------

  /** The spaces a line can hold, spelled out: space, tab, unit separator and the space separators of Unicode. */
  predicate Gap(s: string) {
    forall i :: 0 <= i < |s| ==> s[i] in {
      ' ', '\t', '\U{1F}', '\U{A0}', '\U{1680}', '\U{2000}', '\U{2001}', '\U{2002}', '\U{2003}', '\U{2004}',
      '\U{2005}', '\U{2006}', '\U{2007}', '\U{2008}', '\U{2009}', '\U{200A}', '\U{202F}', '\U{205F}', '\U{3000}'}
  }

  /** Nothing to trim. */
  predicate Tight(s: string) {
    s == "" || (!IsSpace(s[0]) && !IsSpace(s[|s| - 1]))
  }

  lemma GapIff(s: string)
    ensures Gap(s) <==> forall i :: 0 <= i < |s| ==> IsSpace(s[i])
  {
  }

  lemma {:induction false} IndentIs(line: string, n: nat)
    requires n <= |line| && (forall i :: 0 <= i < n ==> IsSpace(line[i])) && (n < |line| ==> !IsSpace(line[n]))
    ensures Indent(line) == n
    decreases n
  {
    if n > 0 {
      IndentIs(line[1..], n - 1);
    }
  }

  lemma {:induction false} IndentStops(line: string)
    ensures forall i :: 0 <= i < Indent(line) ==> IsSpace(line[i])
    ensures Indent(line) < |line| ==> !IsSpace(line[Indent(line)])
    decreases |line|
  {
    if line != "" && IsSpace(line[0]) {
      IndentStops(line[1..]);
    }
  }

  lemma {:induction false} HashesIs(line: string, n: nat)
    requires n <= |line| && (forall i :: 0 <= i < n ==> line[i] == '#') && (n < |line| ==> line[n] != '#')
    ensures Hashes(line) == n
    decreases n
  {
    if n > 0 {
      HashesIs(line[1..], n - 1);
    }
  }

  lemma {:induction false} HashesStops(line: string)
    ensures forall i :: 0 <= i < Hashes(line) ==> line[i] == '#'
    ensures Hashes(line) < |line| ==> line[Hashes(line)] != '#'
    decreases |line|
  {
    if line != "" && line[0] == '#' {
      HashesStops(line[1..]);
    }
  }

  lemma {:induction false} TrimRightIs(body: string, tail: string)
    requires (body != "" ==> !IsSpace(body[|body| - 1])) && forall i :: 0 <= i < |tail| ==> IsSpace(tail[i])
    ensures TrimRight(body + tail) == body
    decreases |tail|
  {
    if tail == "" {
      assert body + tail == body;
    } else {
      assert (body + tail)[..|body + tail| - 1] == body + tail[..|tail| - 1];
      TrimRightIs(body, tail[..|tail| - 1]);
    }
  }

  lemma {:induction false} TrimRightStops(s: string) returns (tail: string)
    ensures s == TrimRight(s) + tail && forall i :: 0 <= i < |tail| ==> IsSpace(tail[i])
    ensures TrimRight(s) != "" ==> !IsSpace(TrimRight(s)[|TrimRight(s)| - 1])
    decreases |s|
  {
    if s != "" && IsSpace(s[|s| - 1]) {
      var inner := TrimRightStops(s[..|s| - 1]);
      var last := [s[|s| - 1]];
      tail := inner + last;
      assert TrimRight(s) == TrimRight(s[..|s| - 1]);
      assert s == s[..|s| - 1] + last == TrimRight(s) + inner + last == TrimRight(s) + tail;
    } else {
      tail := "";
    }
  }

  /** The fence marker of a line, as the pattern of the source reads: at most three spaces and then the marker. */
  ghost predicate FenceSpelled(line: string, marker: string, k: nat) {
    k <= 3 && k + 3 <= |line| && Gap(line[..k]) && line[k..k + 3] == marker && (marker == "```" || marker == "~~~")
  }

  /** A line is a fence exactly when it is spelled as one. */
  lemma FenceIff(line: string, marker: string)
    ensures FenceOf(line) == Some(marker) <==> exists k :: FenceSpelled(line, marker, k)
  {
    if FenceOf(line) == Some(marker) {
      FenceSpells(line);
    }
    forall k | FenceSpelled(line, marker, k)
      ensures FenceOf(line) == Some(marker)
    {
      SpelledFence(line, marker, k);
    }
  }

  lemma FenceSpells(line: string)
    requires FenceOf(line).Some?
    ensures FenceSpelled(line, FenceOf(line).value, Indent(line))
  {
    var k := Indent(line);
    IndentStops(line);
    GapIff(line[..k]);
    assert line[k..k + 3] == line[k..][..3];
  }

  lemma SpelledFence(line: string, marker: string, k: nat)
    requires FenceSpelled(line, marker, k)
    ensures FenceOf(line) == Some(marker)
  {
    GapIff(line[..k]);
    assert forall i :: 0 <= i < k ==> line[i] == line[..k][i];
    assert line[k] == line[k..k + 3][0] == marker[0];
    IndentIs(line, k);
    assert line[k..k + 3] == line[k..][..3];
  }

  /** A header line, as the pattern of the source reads: hashes, a gap, the title and perhaps spaces after it. */
  ghost predicate HeaderSpelled(line: string, level: nat, title: string, gap: string, tail: string) {
    && level < 6 && |gap| >= 1 && Gap(gap) && Gap(tail) && Tight(title)
    && line == "######"[..level + 1] + gap + title + tail
  }

  /** A line is a header with this level and title exactly when it is spelled as one. */
  lemma HeaderIff(line: string, level: nat, title: string)
    ensures HeaderOf(line) == Some((level, title)) <==>
      exists gap, tail :: HeaderSpelled(line, level, title, gap, tail)
  {
    if HeaderOf(line) == Some((level, title)) {
      var gap, tail := HeaderSpells(line);
    }
    forall gap, tail | HeaderSpelled(line, level, title, gap, tail)
      ensures HeaderOf(line) == Some((level, title))
    {
      SpelledHeader(line, level, title, gap, tail);
    }
  }

  lemma HeaderSpells(line: string) returns (gap: string, tail: string)
    requires HeaderOf(line).Some?
    ensures HeaderSpelled(line, HeaderOf(line).value.0, HeaderOf(line).value.1, gap, tail)
  {
    var h := Hashes(line);
    gap, tail := TrimSpells(line[h..]);
    HashesSpell(line, h);
    Joined(line, h, gap, Trim(line[h..]), tail);
  }

  lemma Joined(line: string, h: nat, gap: string, title: string, tail: string)
    requires h <= |line| && line[h..] == gap + title + tail
    ensures line == line[..h] + gap + title + tail
  {
    assert line == line[..h] + line[h..];
  }

  lemma HashesSpell(line: string, h: nat)
    requires h == Hashes(line) <= 6
    ensures line[..h] == "######"[..h]
  {
    HashesStops(line);
  }

  lemma TrimSpells(rest: string) returns (gap: string, tail: string)
    requires rest != "" && IsSpace(rest[0])
    ensures |gap| >= 1 && Gap(gap) && Gap(tail) && Tight(Trim(rest)) && rest == gap + Trim(rest) + tail
  {
    var n := Indent(rest);
    IndentStops(rest);
    gap := rest[..n];
    var body := rest[n..];
    tail := TrimRightStops(body);
    GapIff(gap);
    GapIff(tail);
    assert Trim(rest) == TrimRight(body);
    assert Trim(rest) != "" ==> Trim(rest)[0] == body[0] == rest[n];
    assert rest == gap + body;
  }

  lemma SpelledHeader(line: string, level: nat, title: string, gap: string, tail: string)
    requires HeaderSpelled(line, level, title, gap, tail)
    ensures HeaderOf(line) == Some((level, title))
  {
    var h := level + 1;
    var rest := gap + title + tail;
    assert line == "######"[..h] + rest;
    assert line[h..] == rest && line[h] == rest[0] == gap[0];
    GapIff(gap);
    GapIff(tail);
    HashesIs(line, h);
    TrimIs(gap, title, tail);
  }

  lemma TrimIs(gap: string, title: string, tail: string)
    requires Tight(title)
    requires (forall i :: 0 <= i < |gap| ==> IsSpace(gap[i])) && (forall i :: 0 <= i < |tail| ==> IsSpace(tail[i]))
    ensures Trim(gap + title + tail) == title
  {
    var s := gap + title + tail;
    if title == "" {
      IndentIs(s, |s|);
    } else {
      assert s[|gap|] == title[0];
      IndentIs(s, |gap|);
      assert s[|gap|..] == title + tail;
      TrimRightIs(title, tail);
    }
  }

  datatype Head = Head(line: nat, level: nat, title: string)

  // ---------- the line scan ----------

  /** The fence state after a line. */
  function NextFence(fence: Option<string>, line: string): Option<string> {
    match FenceOf(line)
    case None => fence
    case Some(marker) => if fence.None? then Some(marker) else if marker == fence.value then None else fence
  }

  /** The fence open when line i (from 0) is reached. */
  function FenceAt(lines: seq<string>, i: nat): (r: Option<string>)
    requires i <= |lines|
    ensures r.Some? ==> |r.value| == 3
  {
    if i == 0 then None else NextFence(FenceAt(lines, i - 1), lines[i - 1])
  }

  /** Line o opens a fence with this marker that no line before line i closes. */
  ghost predicate OpensAt(lines: seq<string>, o: nat, marker: string, i: nat)
    requires i <= |lines|
  {
    && o < i && FenceAt(lines, o).None? && FenceOf(lines[o]) == Some(marker)
    && forall k :: o < k < i ==> FenceOf(lines[k]) != Some(marker)
  }

  /** A fence is open at line i exactly when an earlier line, itself outside fences, opened it and none after that
      line carries the same marker; a line with the other marker changes nothing. */
  lemma {:induction false} FenceOpenIff(lines: seq<string>, i: nat, marker: string)
    requires i <= |lines|
    ensures FenceAt(lines, i) == Some(marker) <==> exists o :: OpensAt(lines, o, marker, i)
  {
    if FenceAt(lines, i) == Some(marker) {
      var o := OpenerOf(lines, i, marker);
    }
    forall o | OpensAt(lines, o, marker, i)
      ensures FenceAt(lines, i) == Some(marker)
    {
      StaysOpen(lines, o, marker, i);
    }
  }

  lemma {:induction false} OpenerOf(lines: seq<string>, i: nat, marker: string) returns (o: nat)
    requires i <= |lines| && FenceAt(lines, i) == Some(marker)
    ensures OpensAt(lines, o, marker, i)
  {
    if FenceAt(lines, i - 1).None? {
      o := i - 1;
    } else {
      o := OpenerOf(lines, i - 1, marker);
    }
  }

  lemma {:induction false} StaysOpen(lines: seq<string>, o: nat, marker: string, i: nat)
    requires i <= |lines| && OpensAt(lines, o, marker, i)
    ensures FenceAt(lines, i) == Some(marker)
  {
    if o + 1 < i {
      assert OpensAt(lines, o, marker, i - 1);
      StaysOpen(lines, o, marker, i - 1);
    }
  }

  /** Line i is a header of the document: it looks like one, no fence is open, and it is not a fence itself. */
  ghost predicate IsHeader(lines: seq<string>, i: nat, level: nat, title: string)
    requires i < |lines|
  {
    FenceAt(lines, i).None? && FenceOf(lines[i]).None? && HeaderOf(lines[i]) == Some((level, title))
  }

  ghost predicate Climbs(s: seq<Head>) {
    forall a, b :: 0 <= a < b < |s| ==> s[a].line < s[b].line
  }

  /** heads lists exactly the headers of the first n lines, in order. */
  ghost predicate ListsHeaders(lines: seq<string>, n: nat, heads: seq<Head>)
    requires n <= |lines|
  {
    && Climbs(heads)
    && (forall a :: 0 <= a < |heads| ==> Lists(lines, n, heads[a]))
    && (forall h :: Lists(lines, n, h) ==> h in heads)
  }

  /** h is a header among the first n lines. */
  ghost predicate Lists(lines: seq<string>, n: nat, h: Head)
    requires n <= |lines|
  {
    1 <= h.line <= n && IsHeader(lines, h.line - 1, h.level, h.title)
  }

  lemma NoHeaderHere(lines: seq<string>, i: nat, heads: seq<Head>)
    requires i < |lines| && ListsHeaders(lines, i, heads)
    requires forall level, title :: !IsHeader(lines, i, level, title)
    ensures ListsHeaders(lines, i + 1, heads)
  {
    forall h | Lists(lines, i + 1, h)
      ensures h in heads
    {
      assert Lists(lines, i, h);
    }
    forall a | 0 <= a < |heads|
      ensures Lists(lines, i + 1, heads[a])
    {
      assert Lists(lines, i, heads[a]);
    }
  }

  lemma HeaderHere(lines: seq<string>, i: nat, heads: seq<Head>, level: nat, title: string)
    requires i < |lines| && ListsHeaders(lines, i, heads) && IsHeader(lines, i, level, title)
    ensures ListsHeaders(lines, i + 1, heads + [Head(i + 1, level, title)])
  {
    var more := heads + [Head(i + 1, level, title)];
    forall h | Lists(lines, i + 1, h)
      ensures h in more
    {
      if h.line <= i {
        assert Lists(lines, i, h);
        assert h in heads;
      } else {
        assert h == more[|heads|];
      }
    }
    forall a | 0 <= a < |more|
      ensures Lists(lines, i + 1, more[a])
    {
      if a < |heads| {
        assert Lists(lines, i, heads[a]);
      }
    }
    forall a, b | 0 <= a < b < |more|
      ensures more[a].line < more[b].line
    {
      assert Lists(lines, i, heads[a]);
    }
  }

  lemma MarkerMatches(line: string, marker: string)
    requires FenceOf(line).Some? && |marker| == 3
    ensures marker <= line[Indent(line)..] <==> FenceOf(line).value == marker
  {
  }

  method ScanHeaders(lines: seq<string>) returns (heads: seq<Head>)
    ensures ListsHeaders(lines, |lines|, heads)
  {
    heads := [];
    var inFence, marker := false, "";
    for idx := 0 to |lines|
      invariant FenceAt(lines, idx) == if inFence then Some(marker) else None
      invariant ListsHeaders(lines, idx, heads)
    {
      var line := lines[idx];
      var fence := FenceOf(line);
      if fence.Some? {
        NoHeaderHere(lines, idx, heads);
        if !inFence {
          inFence, marker := true, fence.value;
        } else {
          MarkerMatches(line, marker);
          if marker <= line[Indent(line)..] {
            inFence := false;
          }
        }
        continue;
      }
      if inFence {
        NoHeaderHere(lines, idx, heads);
        continue;
      }
      var h := HeaderOf(line);
      if h.Some? {
        HeaderHere(lines, idx, heads, h.value.0, h.value.1);
        heads := heads + [Head(idx + 1, h.value.0, h.value.1)];
      } else {
        NoHeaderHere(lines, idx, heads);
      }
    }
  }

  // ---------- line ranges ----------

  /** Header lines ascend within a document of so many lines. */
  ghost predicate Ascending(heads: seq<Head>, total: nat) {
    && (forall a :: 0 <= a < |heads| ==> 1 <= heads[a].line <= total)
    && Climbs(heads)
  }

  function HeadLevels(heads: seq<Head>): seq<nat> {
    Map((h: Head) => h.level, heads)
  }

  /** The last line before the next header from j on that is no deeper, or the last line. */
  function EndLine(heads: seq<Head>, level: nat, j: nat, total: nat): int
    requires j <= |heads|
    decreases |heads| - j
  {
    if j == |heads| then total
    else if heads[j].level <= level then heads[j].line - 1
    else EndLine(heads, level, j + 1, total)
  }

  function LastLine(heads: seq<Head>, i: nat, total: nat): int
    requires i < |heads|
  {
    var end := EndLine(heads, heads[i].level, i + 1, total);
    if end < heads[i].line then heads[i].line else end
  }

  function EntryOf(heads: seq<Head>, i: nat, total: nat): OutlineEntry
    requires i < |heads|
  {
    OutlineEntry(heads[i].title, heads[i].level, heads[i].line, LastLine(heads, i, total), i)
  }

  /** One entry per header, or one for the whole document when there is none. */
  ghost predicate Outlines(heads: seq<Head>, total: nat, filename: string, entries: seq<OutlineEntry>) {
    if heads == [] then
      var title := if filename == "" then "Document" else filename;
      entries == [OutlineEntry(title, 0, 1, if total < 1 then 1 else total, 0)]
    else |entries| == |heads| && forall i :: 0 <= i < |heads| ==> entries[i] == EntryOf(heads, i, total)
  }

  /** extract_outline: the entries of the document, or one entry for all of it when it has no header. */
  method ExtractOutline(lines: seq<string>, filename: string) returns (entries: seq<OutlineEntry>)
    ensures exists heads :: ListsHeaders(lines, |lines|, heads) && Outlines(heads, |lines|, filename, entries)
  {
    var heads := ScanHeaders(lines);
    if heads == [] {
      var title := if filename == "" then "Document" else filename;
      entries := [OutlineEntry(title, 0, 1, if |lines| < 1 then 1 else |lines|, 0)];
    } else {
      entries := EntriesOf(heads, |lines|);
    }
    assert Outlines(heads, |lines|, filename, entries);
  }

  lemma IndexIn(a: seq<Head>, b: seq<Head>, i: nat) returns (j: nat)
    requires Climbs(a) && (forall h :: h in a ==> h in b) && i < |a|
    requires i <= |b| && a[..i] == b[..i]
    ensures i <= j < |b| && b[j] == a[i]
  {
    assert a[i] in b;
    j :| 0 <= j < |b| && b[j] == a[i];
    assert forall k :: 0 <= k < i ==> b[..i][k].line < a[i].line;
  }

  lemma {:induction false} SameHeads(a: seq<Head>, b: seq<Head>, n: nat)
    requires Climbs(a) && Climbs(b) && (forall h :: h in a <==> h in b) && n <= |a|
    ensures n <= |b| && a[..n] == b[..n]
  {
    if n > 0 {
      SameHeads(a, b, n - 1);
      var j := IndexIn(a, b, n - 1);
      var k := IndexIn(b, a, n - 1);
      assert b[n - 1].line <= b[j].line && a[n - 1].line <= a[k].line;
      assert j == n - 1;
      assert a[..n] == a[..n - 1] + [a[n - 1]] && b[..n] == b[..n - 1] + [b[n - 1]];
    }
  }

  /** The list of headers of a document is unique. */
  lemma HeadersAreUnique(lines: seq<string>, heads: seq<Head>, other: seq<Head>)
    requires ListsHeaders(lines, |lines|, heads) && ListsHeaders(lines, |lines|, other)
    ensures heads == other
  {
    forall h: Head
      ensures h in heads <==> h in other
    {
      assert h in heads <==> Lists(lines, |lines|, h);
      assert h in other <==> Lists(lines, |lines|, h);
    }
    SameHeads(heads, other, |heads|);
    SameHeads(other, heads, |other|);
  }

  method EntriesOf(heads: seq<Head>, total: nat) returns (entries: seq<OutlineEntry>)
    ensures |entries| == |heads| && forall i :: 0 <= i < |heads| ==> entries[i] == EntryOf(heads, i, total)
  {
    entries := [];
    for i := 0 to |heads|
      invariant |entries| == i && forall k :: 0 <= k < i ==> entries[k] == EntryOf(heads, k, total)
    {
      var endLine := FindEnd(heads, i, total);
      var last := if endLine < heads[i].line then heads[i].line else endLine;
      entries := entries + [OutlineEntry(heads[i].title, heads[i].level, heads[i].line, last, i)];
    }
  }

  method FindEnd(heads: seq<Head>, i: nat, total: nat) returns (endLine: int)
    requires i < |heads|
    ensures endLine == EndLine(heads, heads[i].level, i + 1, total)
  {
    endLine := total;
    var j := i + 1;
    while j < |heads|
      invariant i < j <= |heads| && endLine == total
      invariant EndLine(heads, heads[i].level, i + 1, total) == EndLine(heads, heads[i].level, j, total)
    {
      if heads[j].level <= heads[i].level {
        endLine := heads[j].line - 1;
        break;
      }
      j := j + 1;
    }
  }

  // ---------- ranges agree with the tree ----------

  /** EndLine stops at the first header that is not enclosed. */
  lemma {:induction false} EndLineIs(heads: seq<Head>, i: nat, j: nat, total: nat) returns (stop: nat)
    requires i < j <= |heads| && forall k :: i < k < j ==> heads[k].level > heads[i].level
    ensures j <= stop <= |heads| && (stop < |heads| ==> heads[stop].level <= heads[i].level)
    ensures forall k :: i < k < stop ==> heads[k].level > heads[i].level
    ensures EndLine(heads, heads[i].level, j, total) == if stop < |heads| then heads[stop].line - 1 else total
    decreases |heads| - j
  {
    if j == |heads| || heads[j].level <= heads[i].level {
      stop := j;
    } else {
      stop := EndLineIs(heads, i, j + 1, total);
    }
  }

  /** For any document, a later entry's lines lie inside an earlier entry's when the earlier one encloses it, and
      start after its end otherwise. So any two ranges are nested or disjoint. */
  lemma RangesAreLaminar(heads: seq<Head>, i: nat, j: nat, total: nat)
    requires Ascending(heads, total) && i < j < |heads|
    ensures Encloses(HeadLevels(heads), i, j) ==>
      heads[i].line < heads[j].line && LastLine(heads, j, total) <= LastLine(heads, i, total)
    ensures !Encloses(HeadLevels(heads), i, j) ==> LastLine(heads, i, total) < heads[j].line
    ensures heads[i].line <= LastLine(heads, i, total) <= total
  {
    var si := EndLineIs(heads, i, i + 1, total);
    var sj := EndLineIs(heads, j, j + 1, total);
    if Encloses(HeadLevels(heads), i, j) {
      assert si > j;
      assert sj <= si;
    } else {
      assert si <= j;
    }
  }

  /** _extract_anchor_text for a line range. */
  function ExtractLines(lines: seq<string>, e: OutlineEntry): seq<string>
    requires 1 <= e.first <= e.last <= |lines|
  {
    lines[e.first - 1..e.last]
  }

  predicate InDocument(lines: seq<string>, e: OutlineEntry) {
    1 <= e.first <= e.last <= |lines|
  }

  /** The lines extracted for the inner entry stand as one block below the first line of the outer one's. */
  predicate HoldsBlock(lines: seq<string>, outer: OutlineEntry, inner: OutlineEntry)
    requires InDocument(lines, outer) && InDocument(lines, inner)
  {
    var out, block, off := ExtractLines(lines, outer), ExtractLines(lines, inner), inner.first - outer.first;
    0 < off && off + |block| <= |out| && out[off..off + |block|] == block
  }

  lemma HeadersAscend(lines: seq<string>, heads: seq<Head>)
    requires ListsHeaders(lines, |lines|, heads)
    ensures Ascending(heads, |lines|)
  {
    forall a | 0 <= a < |heads|
      ensures 1 <= heads[a].line <= |lines|
    {
      assert Lists(lines, |lines|, heads[a]);
    }
  }

  lemma RangeIsInDocument(heads: seq<Head>, i: nat, total: nat)
    requires Ascending(heads, total) && i < |heads|
    ensures 1 <= heads[i].line <= LastLine(heads, i, total) <= total
  {
    var s := EndLineIs(heads, i, i + 1, total);
  }

  /** When no level is skipped, the lines extracted for an entry stand as one block in those of its parent. */
  lemma ParentTextContainsChild(lines: seq<string>, heads: seq<Head>, c: nat, p: nat)
    requires Ascending(heads, |lines|) && c < |heads| && Gentle(HeadLevels(heads))
    requires Parent(HeadLevels(heads), c) == Some(p)
    ensures p < c && 1 <= heads[c].line <= LastLine(heads, c, |lines|) <= |lines|
    ensures 1 <= heads[p].line <= LastLine(heads, p, |lines|) <= |lines|
    ensures HoldsBlock(lines, EntryOf(heads, p, |lines|), EntryOf(heads, c, |lines|))
  {
    GentleParent(HeadLevels(heads), c);
    RangesAreLaminar(heads, p, c, |lines|);
    RangeIsInDocument(heads, p, |lines|);
    RangeIsInDocument(heads, c, |lines|);
    SliceOfSlice(lines, heads[p].line - 1, LastLine(heads, p, |lines|), heads[c].line - 1, LastLine(heads, c, |lines|));
  }

  lemma SliceOfSlice<T>(s: seq<T>, a: int, b: int, c: int, d: int)
    requires 0 <= a <= c <= d <= b <= |s|
    ensures s[a..b][c - a..d - a] == s[c..d]
  {
    var outer := s[a..b];
    var inner := outer[c - a..d - a];
    forall i | 0 <= i < d - c
      ensures inner[i] == s[c..d][i]
    {
      assert inner[i] == outer[c - a + i] == s[c + i];
    }
  }

  /** When no level is skipped, the builder's parent is the entry with the smallest range around this one, and it
      has none exactly when no range does. */
  lemma ParentHasTightestRange(heads: seq<Head>, c: nat, i: nat, total: nat)
    requires Ascending(heads, total) && c < |heads| && Gentle(HeadLevels(heads)) && i < c
    requires LastLine(heads, c, total) <= LastLine(heads, i, total)
    ensures var p := Parent(HeadLevels(heads), c);
      && p.Some? && i <= p.value < c
      && LastLine(heads, c, total) <= LastLine(heads, p.value, total) <= LastLine(heads, i, total)
  {
    GentleParent(HeadLevels(heads), c);
    RangesAreLaminar(heads, i, c, total);
    RangeIsInDocument(heads, c, total);
    var p := Parent(HeadLevels(heads), c);
    RangesAreLaminar(heads, p.value, c, total);
    if i < p.value {
      RangesAreLaminar(heads, i, p.value, total);
      RangeIsInDocument(heads, p.value, total);
    }
  }

  // ---------- the same of documents ----------

  lemma DocumentHeads(lines: seq<string>, heads: seq<Head>, filename: string, entries: seq<OutlineEntry>)
    requires ListsHeaders(lines, |lines|, heads) && Outlines(heads, |lines|, filename, entries)
    ensures Ascending(heads, |lines|) && (heads != [] ==> Levels(entries) == HeadLevels(heads) && Numbered(entries))
  {
    HeadersAscend(lines, heads);
  }

  /** For every document: any two ranges of its outline are nested, when one entry encloses the other, or disjoint. */
  lemma DocumentIsLaminar(lines: seq<string>, heads: seq<Head>, filename: string, entries: seq<OutlineEntry>,
                          i: nat, j: nat)
    requires ListsHeaders(lines, |lines|, heads) && Outlines(heads, |lines|, filename, entries) && i < j < |entries|
    ensures InDocument(lines, entries[i]) && InDocument(lines, entries[j])
    ensures Encloses(Levels(entries), i, j) ==>
      entries[i].first < entries[j].first && entries[j].last <= entries[i].last
    ensures !Encloses(Levels(entries), i, j) ==> entries[i].last < entries[j].first
  {
    DocumentHeads(lines, heads, filename, entries);
    RangesAreLaminar(heads, i, j, |lines|);
    RangeIsInDocument(heads, i, |lines|);
    RangeIsInDocument(heads, j, |lines|);
  }

  /** For every document that skips no level, the text of an entry's parent holds the entry's as one block. */
  lemma DocumentTextNests(lines: seq<string>, heads: seq<Head>, filename: string, entries: seq<OutlineEntry>,
                          c: nat, p: nat)
    requires ListsHeaders(lines, |lines|, heads) && Outlines(heads, |lines|, filename, entries)
    requires Gentle(Levels(entries)) && c < |entries|
    requires Parent(Levels(entries), c) == Some(p)
    ensures p < c && InDocument(lines, entries[p]) && InDocument(lines, entries[c])
    ensures HoldsBlock(lines, entries[p], entries[c])
  {
    DocumentHeads(lines, heads, filename, entries);
    assert heads != [];
    ParentTextContainsChild(lines, heads, c, p);
  }

  /** For every document that skips no level, the parent has the smallest range around an entry, and a leaf is an
      entry nobody has as parent. */
  lemma DocumentAgreesWithTree(lines: seq<string>, heads: seq<Head>, filename: string, entries: seq<OutlineEntry>,
                               c: nat)
    requires ListsHeaders(lines, |lines|, heads) && Outlines(heads, |lines|, filename, entries)
    requires Gentle(Levels(entries)) && c < |entries|
    ensures forall i :: 0 <= i < c && entries[c].last <= entries[i].last ==>
      var p := Parent(Levels(entries), c); p.Some? && i <= p.value < c && entries[p.value].last <= entries[i].last
    ensures IsLeaf(Levels(entries), c) <==> forall d :: 0 <= d < |entries| ==> Parent(Levels(entries), d) != Some(c)
  {
    LeafMeansChildless(Levels(entries), c);
    DocumentHeads(lines, heads, filename, entries);
    forall i | 0 <= i < c && entries[c].last <= entries[i].last
      ensures var p := Parent(Levels(entries), c);
        p.Some? && i <= p.value < c && entries[p.value].last <= entries[i].last
    {
      ParentHasTightestRange(heads, c, i, |lines|);
    }
  }

  // ---------- where a range ends ----------

  /** A header at this level or a shallower one stands on line n (from 1). */
  ghost predicate HeaderWithin(lines: seq<string>, n: nat, level: nat) {
    exists h :: Lists(lines, |lines|, h) && h.line == n && h.level <= level
  }

  /** The range of an entry read off the document alone: it starts at the entry's header, holds no other header at its
      level or a shallower one, and ends with the document or right before such a header. */
  ghost predicate RangeOf(lines: seq<string>, e: OutlineEntry) {
    && InDocument(lines, e)
    && Lists(lines, |lines|, Head(e.first, e.level, e.title))
    && (forall n :: e.first < n <= e.last ==> !HeaderWithin(lines, n, e.level))
    && (e.last == |lines| || HeaderWithin(lines, e.last + 1, e.level))
  }

  lemma IndexOfHeader(lines: seq<string>, heads: seq<Head>, h: Head) returns (k: nat)
    requires ListsHeaders(lines, |lines|, heads) && Lists(lines, |lines|, h)
    ensures k < |heads| && heads[k] == h
  {
    assert h in heads;
    k :| 0 <= k < |heads| && heads[k] == h;
  }

  lemma NoHeaderBetween(lines: seq<string>, heads: seq<Head>, i: nat, stop: nat, n: nat)
    requires ListsHeaders(lines, |lines|, heads) && i < stop <= |heads|
    requires forall k :: i < k < stop ==> heads[k].level > heads[i].level
    requires heads[i].line < n && (stop < |heads| ==> n < heads[stop].line)
    ensures !HeaderWithin(lines, n, heads[i].level)
  {
    forall h | Lists(lines, |lines|, h) && h.line == n
      ensures h.level > heads[i].level
    {
      var k := IndexOfHeader(lines, heads, h);
      StandsBetween(heads, i, stop, k);
    }
  }

  lemma StandsBetween(heads: seq<Head>, i: nat, stop: nat, k: nat)
    requires Climbs(heads) && i < stop <= |heads| && k < |heads|
    requires heads[i].line < heads[k].line && (stop < |heads| ==> heads[k].line < heads[stop].line)
    ensures i < k < stop
  {
  }

  lemma HeaderListed(lines: seq<string>, heads: seq<Head>, k: nat)
    requires ListsHeaders(lines, |lines|, heads) && k < |heads|
    ensures Lists(lines, |lines|, heads[k])
  {
  }

  lemma RangeOfHead(lines: seq<string>, heads: seq<Head>, i: nat)
    requires ListsHeaders(lines, |lines|, heads) && i < |heads|
    ensures RangeOf(lines, EntryOf(heads, i, |lines|))
  {
    HeadersAscend(lines, heads);
    RangeIsInDocument(heads, i, |lines|);
    HeaderListed(lines, heads, i);
    var e := EntryOf(heads, i, |lines|);
    assert Head(e.first, e.level, e.title) == heads[i];
    EndsRight(lines, heads, i, e.last);
  }

  lemma LastLineIs(heads: seq<Head>, i: nat, total: nat) returns (stop: nat)
    requires Ascending(heads, total) && i < |heads|
    ensures i < stop <= |heads| && (forall k :: i < k < stop ==> heads[k].level > heads[i].level)
    ensures stop < |heads| ==> heads[stop].level <= heads[i].level
    ensures LastLine(heads, i, total) == if stop < |heads| then heads[stop].line - 1 else total
  {
    stop := EndLineIs(heads, i, i + 1, total);
  }

  lemma EndsRight(lines: seq<string>, heads: seq<Head>, i: nat, last: nat)
    requires ListsHeaders(lines, |lines|, heads) && i < |heads|
    requires Ascending(heads, |lines|) && last == LastLine(heads, i, |lines|)
    ensures forall n :: heads[i].line < n <= last ==> !HeaderWithin(lines, n, heads[i].level)
    ensures last == |lines| || HeaderWithin(lines, last + 1, heads[i].level)
  {
    var stop := LastLineIs(heads, i, |lines|);
    NoneWithin(lines, heads, i, stop, last);
    if stop < |heads| {
      HeaderListed(lines, heads, stop);
      StandsAt(lines, heads[stop], heads[i].level);
    }
  }

  lemma NoneWithin(lines: seq<string>, heads: seq<Head>, i: nat, stop: nat, last: int)
    requires ListsHeaders(lines, |lines|, heads) && i < stop <= |heads|
    requires forall k :: i < k < stop ==> heads[k].level > heads[i].level
    requires stop < |heads| && heads[i].line < last ==> last < heads[stop].line
    ensures forall n :: heads[i].line < n <= last ==> !HeaderWithin(lines, n, heads[i].level)
  {
    forall n: nat | heads[i].line < n <= last
      ensures !HeaderWithin(lines, n, heads[i].level)
    {
      NoHeaderBetween(lines, heads, i, stop, n);
    }
  }

  lemma StandsAt(lines: seq<string>, h: Head, level: nat)
    requires Lists(lines, |lines|, h) && h.level <= level
    ensures HeaderWithin(lines, h.line, level)
  {
  }

  /** For every document, the range of every entry of its outline is the one read off the document. */
  lemma RangesReachTheirEnd(lines: seq<string>, heads: seq<Head>, filename: string, entries: seq<OutlineEntry>, i: nat)
    requires ListsHeaders(lines, |lines|, heads) && Outlines(heads, |lines|, filename, entries)
    requires heads != [] && i < |entries|
    ensures RangeOf(lines, entries[i])
  {
    RangeOfHead(lines, heads, i);
  }

  /** The document and the header line leave one choice of range, level and title. */
  lemma RangeIsDetermined(lines: seq<string>, e: OutlineEntry, f: OutlineEntry)
    requires RangeOf(lines, e) && RangeOf(lines, f) && e.first == f.first
    ensures e.last == f.last && e.level == f.level && e.title == f.title
  {
  }

  /** The entries are those of the headers: every header of the document has its entry, and a document without one has
      a single entry for all its lines. */
  lemma EveryHeaderHasItsEntry(lines: seq<string>, heads: seq<Head>, filename: string, entries: seq<OutlineEntry>)
    requires ListsHeaders(lines, |lines|, heads) && Outlines(heads, |lines|, filename, entries)
    ensures forall h :: Lists(lines, |lines|, h) ==> exists i :: 0 <= i < |entries| && entries[i].first == h.line
    ensures heads == [] <==> forall h :: !Lists(lines, |lines|, h)
    ensures heads == [] ==>
      |entries| == 1 && entries[0].first == 1 && entries[0].last == if lines == [] then 1 else |lines|
  {
    forall h | Lists(lines, |lines|, h)
      ensures heads != [] && exists i :: 0 <= i < |entries| && entries[i].first == h.line
    {
      var i := IndexOfHeader(lines, heads, h);
      assert entries[i].first == h.line;
    }
    if heads != [] {
      HeaderListed(lines, heads, 0);
    }
  }

  lemma {:induction false} LastUpTo(heads: seq<Head>, n: int, k: nat) returns (i: nat)
    requires Climbs(heads) && 0 < k <= |heads| && heads[0].line <= n && (k < |heads| ==> n < heads[k].line)
    ensures i < k && heads[i].line <= n && (i + 1 < |heads| ==> n < heads[i + 1].line)
  {
    if heads[k - 1].line <= n {
      i := k - 1;
    } else {
      i := LastUpTo(heads, n, k - 1);
    }
  }

  lemma ReachesTo(heads: seq<Head>, i: nat, n: nat, total: nat)
    requires Ascending(heads, total) && i < |heads|
    requires heads[i].line <= n <= total && (i + 1 < |heads| ==> n < heads[i + 1].line)
    ensures n <= LastLine(heads, i, total)
  {
    var stop := EndLineIs(heads, i, i + 1, total);
  }

  /** Every line from the first header on lies in the range of the nearest header at or before it. */
  lemma EveryLineIsCovered(lines: seq<string>, heads: seq<Head>, filename: string, entries: seq<OutlineEntry>, n: nat)
    returns (i: nat)
    requires ListsHeaders(lines, |lines|, heads) && Outlines(heads, |lines|, filename, entries)
    requires heads != [] && entries[0].first <= n <= |lines|
    ensures i < |entries| && entries[i].first <= n <= entries[i].last
    ensures forall h :: Lists(lines, |lines|, h) && h.line <= n ==> h.line <= entries[i].first
  {
    HeadersAscend(lines, heads);
    i := LastUpTo(heads, n, |heads|);
    ReachesTo(heads, i, n, |lines|);
    forall h | Lists(lines, |lines|, h) && h.line <= n
      ensures h.line <= heads[i].line
    {
      var k := IndexOfHeader(lines, heads, h);
    }
  }

  // ---------- one document ----------

  /** Lines "# A", "text", "# B": the first entry covers lines 1 and 2, the second line 3. */
  lemma OutlineExample(lines: seq<string>, heads: seq<Head>, filename: string, entries: seq<OutlineEntry>)
    requires lines == ["# A", "text", "# B"]
    requires ListsHeaders(lines, 3, heads) && Outlines(heads, 3, filename, entries)
    ensures entries == [OutlineEntry("A", 0, 1, 2, 0), OutlineEntry("B", 0, 3, 3, 1)]
  {
    HeaderExample('A', lines[0], "A");
    HeaderExample('B', lines[2], "B");
    PlainExample(lines[1]);
    SectionsExample(lines, "A", "B", heads, filename, entries);
  }

  lemma SectionsExample(lines: seq<string>, a: string, b: string, heads: seq<Head>, filename: string,
                        entries: seq<OutlineEntry>)
    requires |lines| == 3 && forall i :: 0 <= i < 3 ==> FenceOf(lines[i]).None?
    requires HeaderOf(lines[0]) == Some((0, a)) && HeaderOf(lines[1]).None? && HeaderOf(lines[2]) == Some((0, b))
    requires ListsHeaders(lines, 3, heads) && Outlines(heads, 3, filename, entries)
    ensures entries == [OutlineEntry(a, 0, 1, 2, 0), OutlineEntry(b, 0, 3, 3, 1)]
  {
    HeadsExample(lines, a, b);
    HeadersAreUnique(lines, heads, [Head(1, 0, a), Head(3, 0, b)]);
    TwoEntries(a, b, filename, entries);
  }

  lemma TwoEntries(a: string, b: string, filename: string, entries: seq<OutlineEntry>)
    requires Outlines([Head(1, 0, a), Head(3, 0, b)], 3, filename, entries)
    ensures entries == [OutlineEntry(a, 0, 1, 2, 0), OutlineEntry(b, 0, 3, 3, 1)]
  {
    var heads := [Head(1, 0, a), Head(3, 0, b)];
    assert EntryOf(heads, 0, 3) == OutlineEntry(a, 0, 1, 2, 0);
    assert EntryOf(heads, 1, 3) == OutlineEntry(b, 0, 3, 3, 1);
  }

  lemma HeadsExample(lines: seq<string>, a: string, b: string)
    requires |lines| == 3 && forall i :: 0 <= i < 3 ==> FenceOf(lines[i]).None?
    requires HeaderOf(lines[0]) == Some((0, a)) && HeaderOf(lines[1]).None? && HeaderOf(lines[2]) == Some((0, b))
    ensures ListsHeaders(lines, 3, [Head(1, 0, a), Head(3, 0, b)])
  {
    FenceExample(lines);
    var one := [Head(1, 0, a)];
    HeaderFirst(lines, one[0]);
    NoHeaderHere(lines, 1, one);
    HeaderHere(lines, 2, one, 0, b);
    assert one + [Head(3, 0, b)] == [Head(1, 0, a), Head(3, 0, b)];
  }

  lemma HeaderFirst(lines: seq<string>, h: Head)
    requires lines != [] && h.line == 1 && IsHeader(lines, 0, h.level, h.title)
    ensures ListsHeaders(lines, 1, [h])
  {
  }

  lemma HeaderExample(c: char, line: string, title: string)
    requires !IsSpace(c) && line == ['#', ' ', c] && title == [c]
    ensures HeaderOf(line) == Some((0, title)) && FenceOf(line).None?
  {
    assert line == "######"[..1] + " " + [c] + "";
    SpelledHeader(line, 0, [c], " ", "");
    IndentIs(line, 0);
  }

  lemma PlainExample(line: string)
    requires line == "text"
    ensures HeaderOf(line).None? && FenceOf(line).None?
  {
    HashesIs(line, 0);
    IndentIs(line, 0);
  }

  lemma FenceExample(lines: seq<string>)
    requires |lines| == 3 && forall i :: 0 <= i < 3 ==> FenceOf(lines[i]).None?
    ensures forall i :: 0 <= i < 3 ==> FenceAt(lines, i).None?
  {
    assert FenceAt(lines, 0).None?;
    assert FenceAt(lines, 1).None?;
    assert FenceAt(lines, 2).None?;
  }
}
