/** The rescanning substitution of mc2dbd/src/exec.c on values that hold placeholders themselves: when the whole walk
    over the keys stops, and with what. */
module Rescan {
  import opened Seqs
  import opened Substitute

  /** Arguments whose values are templates. */
  type Values = seq<(string, seq<Piece>)>

  predicate ValuesOk(vs: Values) {
    forall i :: 0 <= i < |vs| ==> NoBrace(vs[i].0) && TemplateOk(vs[i].1)
  }

  function Rendered(vs: Values): (r: Args)
    ensures |r| == |vs| && forall i :: 0 <= i < |vs| ==> r[i] == (vs[i].0, Text(vs[i].1))
  {
    seq(|vs|, i requires 0 <= i < |vs| => (vs[i].0, Text(vs[i].1)))
  }

  // ---------- one key ----------

  /** Every placeholder for the key replaced by the pieces of the value, at once. */
  function Expand(t: seq<Piece>, key: string, v: seq<Piece>): seq<Piece> {
    if t == [] then [] else (if t[0] == Hole(key) then v else [t[0]]) + Expand(t[1..], key, v)
  }

  lemma {:induction false} ExpandJoin(a: seq<Piece>, b: seq<Piece>, key: string, v: seq<Piece>)
    ensures Expand(a + b, key, v) == Expand(a, key, v) + Expand(b, key, v)
  {
    if a == [] {
      assert a + b == b;
    } else {
      ExpandJoin(a[1..], b, key, v);
      assert (a + b)[1..] == a[1..] + b;
      Regroup(if a[0] == Hole(key) then v else [a[0]], Expand(a[1..], key, v), Expand(b, key, v));
    }
  }

  lemma {:induction false} ExpandWithout(t: seq<Piece>, key: string, v: seq<Piece>)
    requires Hole(key) !in t
    ensures Expand(t, key, v) == t
  {
    if t != [] {
      ExpandWithout(t[1..], key, v);
      assert t == [t[0]] + t[1..];
    }
  }

  lemma {:induction false} ExpandOk(t: seq<Piece>, key: string, v: seq<Piece>)
    requires TemplateOk(t) && TemplateOk(v)
    ensures TemplateOk(Expand(t, key, v))
  {
    if t != [] {
      ExpandOk(t[1..], key, v);
    }
  }

  lemma {:induction false} ExpandSpliced(t: seq<Piece>, i: nat, key: string, v: seq<Piece>)
    requires i < |t| && t[i] == Hole(key) && Hole(key) !in v
    ensures Expand(Spliced(t, i, v), key, v) == Expand(t, key, v)
  {
    var a, b := t[..i], t[i + 1..];
    assert t == a + ([t[i]] + b);
    ExpandJoin(a, [t[i]] + b, key, v);
    assert ([t[i]] + b)[1..] == b;
    ExpandJoin(a, v + b, key, v);
    ExpandJoin(v, b, key, v);
    ExpandWithout(v, key, v);
  }

  /** Rescanning one key ends with all its placeholders replaced at once, when the value does not hold it. */
  lemma {:induction false} StepsExpand(t: seq<Piece>, key: string, v: seq<Piece>)
    requires TemplateOk(t) && TemplateOk(v) && NoBrace(key) && Hole(key) !in v
    ensures Steps(Text(t), Placeholder(key), Text(v), Holes(t, key)) == Text(Expand(t, key, v))
    decreases Holes(t, key)
  {
    if Hole(key) !in t {
      NoHoles(t, key);
      ExpandWithout(t, key, v);
    } else {
      var u, i := SpliceFirst(t, v, key);
      StepsExpand(u, key, v);
      ExpandSpliced(t, i, key, v);
    }
  }

  lemma {:induction false} EndsExpanded(t: seq<Piece>, key: string, v: seq<Piece>)
    requires TemplateOk(t) && TemplateOk(v) && NoBrace(key) && (Hole(key) !in t || Hole(key) !in v)
    ensures Ends(Text(t), Placeholder(key), Text(v), Text(Expand(t, key, v)))
  {
    if Hole(key) !in v {
      StepsExpand(t, key, v);
      StopsAfter(t, v, key);
    } else {
      NothingToFind(t, key);
      ExpandWithout(t, key, v);
      assert Steps(Text(t), Placeholder(key), Text(v), 0) == Text(t);
    }
  }

  /** The loop for one key stops with r exactly when it stops at all and r has every placeholder replaced. */
  lemma {:induction false} EndsIff(t: seq<Piece>, key: string, v: seq<Piece>, r: string)
    requires TemplateOk(t) && TemplateOk(v) && NoBrace(key)
    ensures Ends(Text(t), Placeholder(key), Text(v), r)
       <==> (Hole(key) !in t || Hole(key) !in v) && r == Text(Expand(t, key, v))
  {
    if Hole(key) !in t || Hole(key) !in v {
      EndsExpanded(t, key, v);
      if Ends(Text(t), Placeholder(key), Text(v), r) {
        EndsOnce(Text(t), Placeholder(key), Text(v), r, Text(Expand(t, key, v)));
      }
    } else if Ends(Text(t), Placeholder(key), Text(v), r) {
      var n: nat :| Steps(Text(t), Placeholder(key), Text(v), n) == r && !Contains(r, Placeholder(key));
      HoleIsContained(t, key);
      HoleIsContained(v, key);
      NeverStops(Text(t), Placeholder(key), Text(v), n);
      assert false;
    }
  }

  // ---------- the walk over all keys ----------

  function Keys(t: seq<Piece>): set<string> {
    set p | p in t && p.Hole? :: p.key
  }

  lemma {:induction false} KeysOfExpand(t: seq<Piece>, key: string, v: seq<Piece>)
    requires key in Keys(t) ==> key !in Keys(v)
    ensures Keys(Expand(t, key, v)) == if key in Keys(t) then Keys(t) - {key} + Keys(v) else Keys(t)
  {
    if t != [] {
      var p, rest := t[0], t[1..];
      KeysOfExpand(rest, key, v);
      KeysJoin([p], rest);
      assert t == [p] + rest;
      KeysJoin(if p == Hole(key) then v else [p], Expand(rest, key, v));
      assert Keys([p]) == if p.Hole? then {p.key} else {};
    }
  }

  lemma {:induction false} KeysJoin(a: seq<Piece>, b: seq<Piece>)
    ensures Keys(a + b) == Keys(a) + Keys(b)
  {
    forall k
      ensures k in Keys(a + b) <==> k in Keys(a) + Keys(b)
    {
      assert k in Keys(a + b) <==> Hole(k) in a + b;
      assert k in Keys(a) <==> Hole(k) in a;
      assert k in Keys(b) <==> Hole(k) in b;
    }
  }

  /** What a caller can check beforehand: walking the keys in order with the set of keys in play, no key in play has a
      value that holds the key itself. A key comes into play with the template or with an earlier value. */
  predicate Settles(live: set<string>, vs: Values)
    decreases |vs|
  {
    vs == [] ||
    var (key, v) := vs[0];
    if key in live then key !in Keys(v) && Settles(live - {key} + Keys(v), vs[1..]) else Settles(live, vs[1..])
  }

  function ExpandAll(t: seq<Piece>, vs: Values): seq<Piece>
    decreases |vs|
  {
    if vs == [] then t else ExpandAll(Expand(t, vs[0].0, vs[0].1), vs[1..])
  }

  /** The whole walk stops exactly when the keys settle, and then with the expansion of all of them in order. */
  lemma {:induction false} WalkIff(t: seq<Piece>, vs: Values, r: string)
    requires TemplateOk(t) && ValuesOk(vs)
    ensures WalkEnds(Text(t), Rendered(vs), r) <==> Settles(Keys(t), vs) && r == Text(ExpandAll(t, vs))
    decreases |vs|
  {
    if vs != [] {
      var (key, v) := vs[0];
      var u := Expand(t, key, v);
      assert Rendered(vs)[1..] == Rendered(vs[1..]);
      assert key in Keys(t) <==> Hole(key) in t;
      assert key in Keys(v) <==> Hole(key) in v;
      forall mid
        ensures Ends(Text(t), Placeholder(key), Text(v), mid)
           <==> (Hole(key) !in t || Hole(key) !in v) && mid == Text(u)
      {
        EndsIff(t, key, v, mid);
      }
      if Hole(key) !in t || Hole(key) !in v {
        KeysOfExpand(t, key, v);
        ExpandOk(t, key, v);
        WalkIff(u, vs[1..], r);
      }
    }
  }

  /** A key that is not in the template comes into play through an earlier value and then never settles. */
  lemma LateKeyExample()
    ensures !Settles(Keys([Hole("a")]), [("a", [Hole("b")]), ("b", [Hole("b")])])
    ensures Settles(Keys([Hole("a")]), [("b", [Hole("b")]), ("a", [Hole("b")])])
  {
    assert Keys([Hole("a")]) == {"a"} && Keys([Hole("b")]) == {"b"};
  }
}
