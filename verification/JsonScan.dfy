/** json_get_string of src/maludb_auth.c: a hand-written scanner that finds a top-level string field. */
module JsonScan {
  import opened Options

  // ---------- the scanner on what is left of the text ----------

  predicate IsWs(c: char) {
    c == ' ' || c == '\t' || c == '\n' || c == '\r'
  }

  /** How many of the first characters are whitespace. */
  function Ws(t: string): (n: nat)
    ensures n <= |t|
    ensures n < |t| ==> !IsWs(t[n])
  {
    if t != "" && IsWs(t[0]) then 1 + Ws(t[1..]) else 0
  }

  /** Where the string body t ends: its first unescaped quote, or the end of the text. */
  function CloseQuote(t: string): (n: nat)
    ensures n <= |t|
    ensures n < |t| ==> t[n] == '"'
  {
    if t == "" || t[0] == '"' then 0
    else if t[0] == '\\' then (if |t| < 2 then 1 else 2 + CloseQuote(t[2..]))
    else 1 + CloseQuote(t[1..])
  }

  function DepthAfter(depth: int, c: char): int {
    if c == '{' || c == '[' then depth + 1 else if c == '}' || c == ']' then depth - 1 else depth
  }

  /** What follows a string body that ends at n: the text after the quote and any whitespace. */
  function AfterString(t: string, n: nat): (r: string)
    requires n < |t|
    ensures |r| < |t|
  {
    var u := t[n + 1..];
    u[Ws(u)..]
  }

  /** The value of a matched field: a complete string right here, or nothing. */
  function ValueHere(t: string): Option<string> {
    if t == "" || t[0] != '"' then None
    else
      var n := CloseQuote(t[1..]);
      if n == |t| - 1 then None else Some(t[1..n + 1])
  }

  /** How the scan goes on after a string: it ends, or continues with what is left. */
  datatype Step = End(result: Option<string>) | Continue(rest: string)

  /** What the scanner does with a string body: it is a key when a colon follows its closing quote. */
  function KeyStep(body: string, field: string, depth: int): (r: Step)
    ensures r.Continue? ==> |r.rest| < |body|
  {
    var n := CloseQuote(body);
    if n == |body| then End(None)
    else
      var u := AfterString(body, n);
      if u == "" || u[0] != ':' then Continue(u)
      else
        var v := u[1..][Ws(u[1..])..];
        if depth == 1 && body[..n] == field then End(ValueHere(v)) else Continue(v)
  }

  /** The scan of t at a nesting depth. */
  function Scan(t: string, field: string, depth: int): Option<string>
    decreases |t|
  {
    if t == "" then None
    else if t[0] == '"' then
      match KeyStep(t[1..], field, depth)
      case End(result) => result
      case Continue(rest) => Scan(rest, field, depth)
    else Scan(t[1..], field, DepthAfter(depth, t[0]))
  }

  // ---------- the loops ----------

  method SkipWs(json: string, start: nat) returns (i: nat)
    requires start <= |json|
    ensures start <= i <= |json| && i == start + Ws(json[start..])
  {
    i := start;
    while i < |json| && (json[i] == ' ' || json[i] == '\t' || json[i] == '\n' || json[i] == '\r')
      invariant start <= i <= |json| && start + Ws(json[start..]) == i + Ws(json[i..])
    {
      assert json[i..][1..] == json[i + 1..];
      i := i + 1;
    }
  }

  /** The key loop, with its escape flag. */
  method EndOfKey(json: string, start: nat) returns (j: nat)
    requires start <= |json|
    ensures j == start + CloseQuote(json[start..])
  {
    j := start;
    var esc := false;
    while j < |json|
      invariant start <= j <= |json|
      invariant !esc ==> start + CloseQuote(json[start..]) == j + CloseQuote(json[j..])
      invariant esc ==> start + CloseQuote(json[start..]) == if j < |json| then j + 1 + CloseQuote(json[j + 1..]) else j
    {
      var c := json[j];
      if esc {
        esc := false;
      } else if c == '\\' {
        esc := true;
        assert j + 2 <= |json| ==> json[j..][2..] == json[j + 2..];
      } else if c == '"' {
        break;
      } else {
        assert json[j..][1..] == json[j + 1..];
      }
      j := j + 1;
    }
  }

  /** The value loop, which steps over two characters at a backslash. */
  method EndOfValue(json: string, start: nat) returns (i: nat)
    requires start <= |json|
    ensures i < |json| ==> i == start + CloseQuote(json[start..])
    ensures i >= |json| ==> start + CloseQuote(json[start..]) == |json|
  {
    i := start;
    while i < |json|
      invariant start <= i <= |json| + 1
      invariant i <= |json| ==> start + CloseQuote(json[start..]) == i + CloseQuote(json[i..])
      invariant i > |json| ==> start + CloseQuote(json[start..]) == |json|
    {
      var c := json[i];
      if c == '\\' {
        assert i + 2 <= |json| ==> json[i..][2..] == json[i + 2..];
        i := i + 2;
        continue;
      }
      if c == '"' { break; }
      assert json[i..][1..] == json[i + 1..];
      i := i + 1;
    }
  }

  /** The value of a matched field at i. */
  method ReadValue(json: string, i: nat) returns (r: Option<string>)
    requires i <= |json|
    ensures r == ValueHere(json[i..])
  {
    if i >= |json| || json[i] != '"' { return None; }
    ghost var v := json[i..];
    var vstart := i + 1;
    assert v[1..] == json[vstart..];
    var end := EndOfValue(json, vstart);
    if end >= |json| { return None; }
    assert v[1..end - vstart + 1] == json[vstart..end];
    return Some(json[vstart..end]);
  }

  /** What the scanner does with a string whose body ends at j: the rest of key handling. */
  method AfterKey(json: string, j: nat, isField: bool, ghost body: string, ghost field: string, ghost depth: int)
    returns (done: bool, r: Option<string>, next: nat)
    requires j < |json| && |body| <= |json| && json[|json| - |body|..] == body
    requires j == |json| - |body| + CloseQuote(body)
    requires isField == (depth == 1 && body[..CloseQuote(body)] == field)
    ensures done ==> KeyStep(body, field, depth) == End(r)
    ensures !done ==> j < next <= |json| && KeyStep(body, field, depth) == Continue(json[next..])
  {
    done, r := false, None;
    var k := AfterBody(json, j, body);
    next := k;
    if k >= |json| || json[k] != ':' { return; }
    next := AfterColon(json, k);
    if isField {
      done := true;
      r := ReadValue(json, next);
    }
  }

  method AfterBody(json: string, j: nat, ghost body: string) returns (k: nat)
    requires j < |json| && |body| <= |json| && json[|json| - |body|..] == body
    requires j == |json| - |body| + CloseQuote(body)
    ensures j < k <= |json| && CloseQuote(body) < |body|
    ensures var u := AfterString(body, CloseQuote(body));
      u == json[k..] && (u == "" <==> k == |json|) && (k < |json| ==> u[0] == json[k])
  {
    k := SkipWs(json, j + 1);
    AfterStringAt(json, |json| - |body|, j, k);
  }

  method AfterColon(json: string, k: nat) returns (next: nat)
    requires k < |json|
    ensures k < next <= |json| && json[k..][1..][Ws(json[k..][1..])..] == json[next..]
  {
    next := SkipWs(json, k + 1);
    AfterColonAt(json, k, next);
  }

  lemma AfterStringAt(json: string, start: nat, j: nat, k: nat)
    requires start <= j < |json| && k == j + 1 + Ws(json[j + 1..])
    ensures var body := json[start..];
      |body| > j - start && body[..j - start] == json[start..j] && AfterString(body, j - start) == json[k..]
  {
    BodyAt(json, start, j);
    AfterWs(json, j + 1);
  }

  lemma AfterColonAt(json: string, k: nat, next: nat)
    requires k < |json| && next == k + 1 + Ws(json[k + 1..])
    ensures var u := json[k..]; u != "" && u[0] == json[k] && u[1..][Ws(u[1..])..] == json[next..]
  {
    assert json[k..][1..] == json[k + 1..];
    AfterWs(json, k + 1);
  }

  lemma BodyAt(json: string, start: nat, j: nat)
    requires start <= j < |json|
    ensures json[start..][..j - start] == json[start..j] && json[start..][j - start + 1..] == json[j + 1..]
    ensures |json[start..]| == |json| - start && json[start..][j - start] == json[j]
  {
  }

  lemma AfterWs(json: string, i: nat)
    requires i <= |json|
    ensures json[i..][Ws(json[i..])..] == json[i + Ws(json[i..])..]
  {
  }

  method JsonGetString(json: string, field: string) returns (r: Option<string>)
    ensures r == Scan(json, field, 0)
  {
    var i, depth := 0, 0;
    r := None;
    assert json[0..] == json;
    while i < |json|
      invariant i <= |json| && r == None && Scan(json, field, 0) == Scan(json[i..], field, depth)
      decreases |json| - i
    {
      var c := json[i];
      assert json[i..][1..] == json[i + 1..];
      if c == '"' {
        var start := i + 1;
        var j := EndOfKey(json, start);
        if j >= |json| { return None; }
        var done;
        ghost var body := json[start..];
        BodyAt(json, start, j);
        done, r, i := AfterKey(json, j, depth == 1 && json[start..j] == field, body, field, depth);
        if done { return; }
        r := None;
        continue;
      }
      if c == '{' || c == '[' { depth := depth + 1; }
      if c == '}' || c == ']' { depth := depth - 1; }
      i := i + 1;
    }
  }
}
