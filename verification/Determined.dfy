/** With distinct distances nothing about a search or a build of src/maludb_ann.c is left open: which nodes are
    expanded, in which order, where the search stops and what it answers. */
module Determined {
  import opened Selection
  import opened Beam
  import opened Nsw
  import opened BuildSpec
  import opened AnnTheorems

  ghost predicate Distinct(d: int -> real, n: nat) {
    forall a, b :: 0 <= a < b < n ==> d(a) != d(b)
  }

  /** A finished search with its order of expansion. */
  ghost predicate Ran(g: Graph, d: int -> real, n: nat, entry: nat, ef: nat, res: set<nat>, order: seq<nat>) {
    && DueOrder(g, d, entry, ef, order)
    && 0 < |res| <= ef && res <= Elements(order) && res <= Frontier(g, entry, order)
    && Outside(d, ef, Frontier(g, entry, order), res)
    && forall v :: v in Frontier(g, entry, order) ==> v < n
  }

  lemma StoppedRan(g: Graph, d: int -> real, n: nat, entry: nat, ef: nat, res: set<nat>, visited: set<nat>,
                   expanded: set<nat>)
    returns (order: seq<nat>)
    requires Stopped(g, d, n, entry, ef, res, visited, expanded)
    ensures Ran(g, d, n, entry, ef, res, order)
  {
    order :| DueOrder(g, d, entry, ef, order) && Elements(order) == expanded && visited <= Frontier(g, entry, order);
    SeenAtRest(g, entry, visited, expanded, order);
  }

  lemma SameNext(g: Graph, d: int -> real, n: nat, entry: nat, ef: nat, a: seq<nat>, b: seq<nat>, k: nat)
    requires k < |a| && k < |b| && a[..k] == b[..k] && Distinct(d, n)
    requires DueOrder(g, d, entry, ef, a) && DueOrder(g, d, entry, ef, b)
    requires forall v :: v in Frontier(g, entry, a) ==> v < n
    ensures a[..k + 1] == b[..k + 1]
  {
    assert Due(g, d, entry, ef, a, k) && Due(g, d, entry, ef, b, k);
    SeenLater(g, entry, a, k);
    assert a[k] == b[k];
    OneMore(a, b, k);
  }

  lemma OneMore(a: seq<nat>, b: seq<nat>, k: nat)
    requires k < |a| && k < |b| && a[..k] == b[..k] && a[k] == b[k]
    ensures a[..k + 1] == b[..k + 1]
  {
    assert a[..k + 1] == a[..k] + [a[k]] && b[..k + 1] == b[..k] + [b[k]];
  }

  /** Two searches expand the same nodes in the same order, as long as both go on. */
  lemma {:induction false} SamePrefix(g: Graph, d: int -> real, n: nat, entry: nat, ef: nat, a: seq<nat>, b: seq<nat>,
                                      k: nat)
    requires DueOrder(g, d, entry, ef, a) && DueOrder(g, d, entry, ef, b) && Distinct(d, n)
    requires forall v :: v in Frontier(g, entry, a) ==> v < n
    requires k <= |a| && k <= |b|
    ensures a[..k] == b[..k]
  {
    if k > 0 {
      SamePrefix(g, d, n, entry, ef, a, b, k - 1);
      SameNext(g, d, n, entry, ef, a, b, k - 1);
    }
  }

  lemma SeenLater(g: Graph, entry: nat, order: seq<nat>, k: nat)
    requires k <= |order|
    ensures Frontier(g, entry, order[..k]) <= Frontier(g, entry, order)
  {
    assert forall x :: x in order[..k] ==> x in order;
  }

  /** A search that stops leaves nothing that another one would still expand. */
  lemma SameStop(g: Graph, d: int -> real, n: nat, entry: nat, ef: nat,
                 resA: set<nat>, a: seq<nat>, resB: set<nat>, b: seq<nat>)
    requires Ran(g, d, n, entry, ef, resA, a) && Ran(g, d, n, entry, ef, resB, b) && Distinct(d, n)
    ensures |b| <= |a|
  {
    if |a| < |b| {
      SamePrefix(g, d, n, entry, ef, a, b, |a|);
      assert a[..|a|] == a;
      assert Due(g, d, entry, ef, b, |a|);
      StillDue(g, d, n, entry, ef, resA, a, b[|a|]);
      assert false;
    }
  }

  lemma StillDue(g: Graph, d: int -> real, n: nat, entry: nat, ef: nat, res: set<nat>, order: seq<nat>, c: nat)
    requires Ran(g, d, n, entry, ef, res, order) && Distinct(d, n) && c in Frontier(g, entry, order) && c !in order
    ensures |NearerThan(d, Frontier(g, entry, order), c)| >= ef
  {
    assert c !in Elements(order);
    var r :| r in res;
    assert |res| == ef;
    SizeOfSubset(res, NearerThan(d, Frontier(g, entry, order), c));
  }

  lemma SameOrder(g: Graph, d: int -> real, n: nat, entry: nat, ef: nat,
                  resA: set<nat>, a: seq<nat>, resB: set<nat>, b: seq<nat>)
    requires Ran(g, d, n, entry, ef, resA, a) && Ran(g, d, n, entry, ef, resB, b) && Distinct(d, n)
    ensures a == b
  {
    SameStop(g, d, n, entry, ef, resA, a, resB, b);
    SameStop(g, d, n, entry, ef, resB, b, resA, a);
    SamePrefix(g, d, n, entry, ef, a, b, |a|);
    assert a[..|a|] == a && b[..|b|] == b;
  }

  lemma ResultsWithin(d: int -> real, n: nat, ef: nat, visited: set<nat>, a: set<nat>, b: set<nat>, r: nat)
    requires Distinct(d, n) && (forall v :: v in visited ==> v < n) && a <= visited && b <= visited
    requires Outside(d, ef, visited, a) && Outside(d, ef, visited, b) && 0 < |a| <= ef && 0 < |b| <= ef && r in a
    ensures r in b
  {
    if r !in b {
      forall q | q in b
        ensures q in a - {r}
      {
        assert d(q) <= d(r);
      }
      SizeOfSubset(b, a - {r});
      var q :| q in b;
      assert false;
    }
  }

  lemma SameResults(g: Graph, d: int -> real, n: nat, entry: nat, ef: nat, a: set<nat>, b: set<nat>, order: seq<nat>)
    requires Ran(g, d, n, entry, ef, a, order) && Ran(g, d, n, entry, ef, b, order) && Distinct(d, n)
    ensures a == b
  {
    forall r: nat
      ensures r in a <==> r in b
    {
      if r in a {
        ResultsWithin(d, n, ef, Frontier(g, entry, order), a, b, r);
      }
      if r in b {
        ResultsWithin(d, n, ef, Frontier(g, entry, order), b, a, r);
      }
    }
  }

  /** With distinct distances there is one answer to a search. */
  lemma SearchIsDetermined(g: Graph, d: int -> real, n: nat, entry: nat, ef: nat, k: nat, out: seq<Cand>,
                           other: seq<Cand>)
    requires Found(g, d, n, entry, ef, k, out) && Found(g, d, n, entry, ef, k, other) && Distinct(d, n)
    ensures out == other
  {
    var a: set<nat>, visitedA: set<nat>, expandedA: set<nat> :|
      Stopped(g, d, n, entry, ef, a, visitedA, expandedA) && ListsFirst(d, a, k, out);
    var b: set<nat>, visitedB: set<nat>, expandedB: set<nat> :|
      Stopped(g, d, n, entry, ef, b, visitedB, expandedB) && ListsFirst(d, b, k, other);
    var orderA := StoppedRan(g, d, n, entry, ef, a, visitedA, expandedA);
    var orderB := StoppedRan(g, d, n, entry, ef, b, visitedB, expandedB);
    SameOrder(g, d, n, entry, ef, a, orderA, b, orderB);
    SameResults(g, d, n, entry, ef, a, b, orderA);
    ListedOnce(d, a, k, out, other);
  }

  lemma ListedOnce(d: int -> real, res: set<nat>, k: nat, out: seq<Cand>, other: seq<Cand>)
    requires ListsFirst(d, res, k, out) && ListsFirst(d, res, k, other)
    ensures out == other
  {
    var f: seq<Cand> :| Sorted(f) && multiset(f) == Hits(d, res) && out == f[..Min(k, |f|)];
    var g: seq<Cand> :| Sorted(g) && multiset(g) == Hits(d, res) && other == g[..Min(k, |g|)];
    SortedIsUnique(d, res, f, g);
  }

  lemma SameStep(D: (int, int) -> real, n: nat, m: nat, ef: nat, run: Run, other: Run, i: nat)
    requires 0 < i < |run.log| == |run.states| && i < |other.log| == |other.states|
    requires StepOk(D, n, m, ef, run, i) && StepOk(D, n, m, ef, other, i) && Distinct(From(D, i), i)
    requires run.states[i - 1] == other.states[i - 1]
    ensures run.log[i] == other.log[i] && run.states[i] == other.states[i]
  {
    SearchIsDetermined(Adj(run.states[i - 1]), From(D, i), i, 0, Width(m, ef, ef + 1), m, run.log[i], other.log[i]);
  }

  lemma SameInsertion(D: (int, int) -> real, n: nat, m: nat, ef: nat, run: Run, other: Run, i: nat)
    requires IsRun(D, n, m, ef, run) && IsRun(D, n, m, ef, other) && 0 < i < |run.log| && i < |other.log|
    requires Distinct(From(D, i), i) && run.states[i - 1] == other.states[i - 1]
    ensures run.log[i] == other.log[i] && run.states[i] == other.states[i]
  {
    assert StepOk(D, n, m, ef, run, i);
    assert StepOk(D, n, m, ef, other, i);
    SameStep(D, n, m, ef, run, other, i);
  }

  /** Two runs begin alike, up to and with insertion i. */
  ghost predicate Alike(run: Run, other: Run, i: nat) {
    i < |run.log| == |run.states| && i < |other.log| == |other.states|
    && run.log[i] == other.log[i] && run.states[i] == other.states[i]
  }

  /** With distinct distances from every node there is one build run. */
  lemma {:induction false} BuildIsDetermined(D: (int, int) -> real, n: nat, m: nat, ef: nat,
                                             run: Run, other: Run, i: nat)
    requires IsRun(D, n, m, ef, run) && IsRun(D, n, m, ef, other) && i < |run.log| && i < |other.log|
    requires forall q :: 0 < q < n ==> Distinct(From(D, q), q)
    ensures Alike(run, other, i)
  {
    if i > 0 {
      BuildIsDetermined(D, n, m, ef, run, other, i - 1);
      SameInsertion(D, n, m, ef, run, other, i);
    }
  }

  // ---------- a search that stops early ----------

  /** Four nodes at distances 53, 61, 29 and 50 from a query. */
  function FarBehind(i: int): real {
    if i == 0 then 53.0 else if i == 1 then 61.0 else if i == 2 then 29.0 else 50.0
  }

  const HIDDEN: Graph := [{1, 3}, {0, 2}, {0, 1}, {0, 1}]

  lemma HiddenFrontiers()
    ensures Frontier(HIDDEN, 0, []) == {0} && Frontier(HIDDEN, 0, [0]) == {0, 1, 3}
    ensures Frontier(HIDDEN, 0, [0, 3]) == {0, 1, 3}
  {
    assert HIDDEN[0] == {1, 3} && HIDDEN[3] == {0, 1};
  }

  lemma HiddenOrder()
    ensures DueOrder(HIDDEN, FarBehind, 0, 2, [0, 3])
  {
    HiddenFrontiers();
    var order := [0, 3];
    assert order[..0] == [] && order[..1] == [0];
    assert NearerThan(FarBehind, {0}, 0) == {} && NearerThan(FarBehind, {0, 1, 3}, 3) == {};
    assert Due(HIDDEN, FarBehind, 0, 2, order, 0) && Due(HIDDEN, FarBehind, 0, 2, order, 1);
  }

  lemma HiddenReach()
    ensures Reachable(HIDDEN, 0, 0) && Reachable(HIDDEN, 0, 1) && Reachable(HIDDEN, 0, 3)
  {
    assert HIDDEN[0] == {1, 3};
    EdgeReachable(HIDDEN, 0, 0, 1);
    EdgeReachable(HIDDEN, 0, 0, 3);
  }

  lemma HiddenExplored()
    ensures Exploring(HIDDEN, FarBehind, 0, 2, {0, 1, 3}, {0, 3})
  {
    HiddenFrontiers();
    HiddenOrder();
    assert Elements([0, 3]) == {0, 3};
  }

  lemma HiddenStop()
    ensures Stopped(HIDDEN, FarBehind, 4, 0, 2, {0, 3}, {0, 1, 3}, {0, 3})
  {
    HiddenReach();
    HiddenExplored();
    assert HIDDEN[0] == {1, 3} && HIDDEN[3] == {0, 1};
  }

  lemma PairHits(d: int -> real, a: nat, b: nat)
    requires a != b
    ensures Hits(d, {a, b}) == multiset{CandOf(d, a), CandOf(d, b)}
  {
    HitsAdd(d, {}, a);
    HitsAdd(d, {a}, b);
    HitsSize(d, {});
    assert {} + {a} == {a} && {a} + {b} == {a, b};
  }

  lemma PairListed(d: int -> real, a: nat, b: nat)
    requires a != b && d(a) < d(b)
    ensures ListsFirst(d, {a, b}, 2, [CandOf(d, a), CandOf(d, b)])
  {
    var full: seq<Cand> := [CandOf(d, a), CandOf(d, b)];
    PairHits(d, a, b);
    assert full == full[..Min(2, |full|)];
  }

  lemma HiddenIsFound(g: Graph, d: int -> real)
    requires g == HIDDEN && d == FarBehind
    ensures Found(g, d, 4, 0, 2, 2, [CandOf(d, 3), CandOf(d, 0)])
  {
    HiddenStop();
    PairListed(d, 3, 0);
    assert {3, 0} == {0, 3};
  }

  lemma OnlyAnswer(g: Graph, d: int -> real, n: nat, entry: nat, ef: nat, k: nat, answer: seq<Cand>)
    requires Found(g, d, n, entry, ef, k, answer) && Distinct(d, n)
    ensures forall out :: Found(g, d, n, entry, ef, k, out) ==> out == answer
  {
    forall out | Found(g, d, n, entry, ef, k, out)
      ensures out == answer
    {
      SearchIsDetermined(g, d, n, entry, ef, k, out, answer);
    }
  }

  /** Node 2 is nearest to the query, but it lies behind node 1, which is farther than two nodes seen: the search stops
      before it and answers 3 and 0. */
  lemma EarlyStopExample(g: Graph, d: int -> real)
    requires g == HIDDEN && d == FarBehind
    ensures forall out :: Found(g, d, 4, 0, 2, 2, out) ==> out == [CandOf(d, 3), CandOf(d, 0)]
  {
    HiddenIsFound(g, d);
    HiddenDistances(d);
    OnlyAnswer(g, d, 4, 0, 2, 2, [CandOf(d, 3), CandOf(d, 0)]);
  }

  lemma HiddenDistances(d: int -> real)
    requires d == FarBehind
    ensures Distinct(d, 4)
  {
  }
}
