/** The beam search of src/maludb_ann.c on values: what each step of the loop keeps, and what holds
    when the loop stops. A graph is the set of out-neighbours of each node. */
module Beam {
  import opened Selection
  import opened Heaps

  type Graph = seq<set<nat>>

  type Cand = Entry<()>

  function CandOf(d: int -> real, i: int): Cand {
    Entry(i, d(i), ())
  }

  /** The nodes of s with their true distances, each once. */
  ghost function Hits(d: int -> real, s: set<nat>): multiset<Cand> {
    multiset(set i | i in s :: CandOf(d, i))
  }

  ghost predicate ValidGraph(g: Graph, n: nat) {
    n <= |g| && forall a, b :: 0 <= a < n && b in g[a] ==> 0 <= b < n
  }

  ghost predicate Closed(g: Graph, s: set<nat>) {
    forall a, b :: a in s && 0 <= a < |g| && b in g[a] ==> b in s
  }

  /** v lies in every set that holds the entry and is closed under following edges. */
  ghost predicate Reachable(g: Graph, entry: nat, v: nat) {
    forall s: set<nat> {:trigger Closed(g, s)} :: entry in s && Closed(g, s) ==> v in s
  }

  // ---------- bags of hits ----------

  lemma HitsMember(d: int -> real, s: set<nat>, e: Cand)
    ensures e in Hits(d, s) <==> e.id in s && e == CandOf(d, e.id)
    ensures Hits(d, s)[e] <= 1
  {
    if e in Hits(d, s) {
      assert e in (set i | i in s :: CandOf(d, i));
    }
    if e.id in s && e == CandOf(d, e.id) {
      assert e in (set i | i in s :: CandOf(d, i));
    }
  }

  lemma HitsAdd(d: int -> real, s: set<nat>, x: nat)
    requires x !in s
    ensures Hits(d, s + {x}) == Hits(d, s) + multiset{CandOf(d, x)}
  {
    forall e
      ensures Hits(d, s + {x})[e] == (Hits(d, s) + multiset{CandOf(d, x)})[e]
    {
      HitsMember(d, s, e);
      HitsMember(d, s + {x}, e);
    }
  }

  lemma HitsRemove(d: int -> real, s: set<nat>, x: nat)
    requires x in s
    ensures Hits(d, s - {x}) == Hits(d, s) - multiset{CandOf(d, x)}
    ensures Hits(d, s) == Hits(d, s - {x}) + multiset{CandOf(d, x)}
  {
    assert s - {x} + {x} == s;
    HitsAdd(d, s - {x}, x);
  }

  lemma {:induction false} HitsSize(d: int -> real, s: set<nat>)
    ensures |Hits(d, s)| == |s|
  {
    if s == {} {
      assert (set i | i in s :: CandOf(d, i)) == {};
    } else {
      var x :| x in s;
      HitsSize(d, s - {x});
      HitsRemove(d, s, x);
    }
  }

  lemma HitsMonotone(d: int -> real, s: set<nat>, t: set<nat>)
    requires s <= t
    ensures Hits(d, s) <= Hits(d, t)
  {
    forall e
      ensures Hits(d, s)[e] <= Hits(d, t)[e]
    {
      HitsMember(d, s, e);
      HitsMember(d, t, e);
    }
  }

  // ---------- the order of expansion ----------

  /** What has been seen once these nodes were expanded. */
  ghost function Frontier(g: Graph, entry: nat, order: seq<nat>): set<nat> {
    {entry} + set x, y | x in order && x < |g| && y in g[x] :: y
  }

  ghost function NearerThan(d: int -> real, s: set<nat>, c: nat): set<nat> {
    set u | u in s && d(u) < d(c)
  }

  /** The i-th node was due: of those seen and not yet expanded none was nearer, and fewer than ef of all seen. */
  ghost predicate Due(g: Graph, d: int -> real, entry: nat, ef: nat, order: seq<nat>, i: nat)
    requires i < |order|
  {
    var seen := Frontier(g, entry, order[..i]);
    && order[i] in seen && order[i] !in order[..i]
    && (forall u :: u in seen && u !in order[..i] ==> d(order[i]) <= d(u))
    && |NearerThan(d, seen, order[i])| < ef
  }

  ghost predicate DueOrder(g: Graph, d: int -> real, entry: nat, ef: nat, order: seq<nat>) {
    forall i {:trigger Due(g, d, entry, ef, order, i)} :: 0 <= i < |order| ==> Due(g, d, entry, ef, order, i)
  }

  ghost function Elements(order: seq<nat>): set<nat> {
    set x | x in order
  }

  /** The expanded nodes, with the one being expanded, were taken as they were due. */
  ghost predicate Exploring(g: Graph, d: int -> real, entry: nat, ef: nat, visited: set<nat>, expanded: set<nat>) {
    exists order ::
      DueOrder(g, d, entry, ef, order) && Elements(order) == expanded && visited <= Frontier(g, entry, order)
  }

  lemma DueLonger(g: Graph, d: int -> real, entry: nat, ef: nat, order: seq<nat>, c: nat)
    requires DueOrder(g, d, entry, ef, order)
    requires c in Frontier(g, entry, order) && c !in order
    requires forall u :: u in Frontier(g, entry, order) && u !in order ==> d(c) <= d(u)
    requires |NearerThan(d, Frontier(g, entry, order), c)| < ef
    ensures DueOrder(g, d, entry, ef, order + [c])
  {
    var longer := order + [c];
    forall i | 0 <= i < |longer|
      ensures Due(g, d, entry, ef, longer, i)
    {
      if i < |order| {
        assert Due(g, d, entry, ef, order, i);
        assert longer[..i] == order[..i];
      } else {
        assert longer[..i] == order;
      }
    }
  }

  // ---------- the loop ----------

  /** The sets behind the loop's variables; busy holds the node being expanded, if any. */
  datatype State = State(visited: set<nat>, cand: set<nat>, res: set<nat>, expanded: set<nat>, busy: set<nat>)

  ghost predicate Inv(g: Graph, d: int -> real, n: nat, entry: nat, ef: nat, s: State) {
    Sound(g, d, n, entry, ef, s) && Exploring(g, d, entry, ef, s.visited, s.expanded + s.busy)
  }

  ghost predicate Sound(g: Graph, d: int -> real, n: nat, entry: nat, ef: nat, s: State) {
    && ValidGraph(g, n) && ef > 0
    && entry in s.visited && s.res <= s.visited && s.cand <= s.visited
    && s.expanded <= s.visited && s.busy <= s.visited
    && s.cand !! s.expanded && s.cand !! s.busy
    && (forall v :: v in s.visited ==> 0 <= v < n && Reachable(g, entry, v))
    && 0 < |s.res| <= ef
    && s.res <= s.cand + s.expanded + s.busy
    && Outside(d, ef, s.visited, s.res)
    && Followed(g, s.expanded, s.visited)
  }

  /** Visited nodes that are not results lost to a full result heap. */
  ghost predicate Outside(d: int -> real, ef: nat, visited: set<nat>, res: set<nat>) {
    forall v, r :: v in visited && v !in res && r in res ==> |res| == ef && d(r) <= d(v)
  }

  ghost predicate Followed(g: Graph, expanded: set<nat>, visited: set<nat>) {
    forall x, y :: x in expanded && 0 <= x < |g| && y in g[x] ==> y in visited
  }

  lemma Starts(g: Graph, d: int -> real, n: nat, entry: nat, ef: nat)
    requires ValidGraph(g, n) && ef > 0 && 0 <= entry < n
    ensures Inv(g, d, n, entry, ef, State({entry}, {entry}, {entry}, {}, {}))
  {
    assert DueOrder(g, d, entry, ef, []);
    assert Elements([]) == {} && {entry} <= Frontier(g, entry, []);
  }

  /** At rest exactly the neighbours of the expanded nodes have been seen. */
  lemma SeenAtRest(g: Graph, entry: nat, visited: set<nat>, expanded: set<nat>, order: seq<nat>)
    requires Elements(order) == expanded && visited <= Frontier(g, entry, order)
    requires entry in visited && Followed(g, expanded, visited)
    ensures visited == Frontier(g, entry, order)
  {
  }

  /** Fewer than ef nodes are nearer than a candidate that does not stop the search. */
  lemma FewNearer(d: int -> real, ef: nat, visited: set<nat>, res: set<nat>, c: nat, w: nat)
    requires Outside(d, ef, visited, res) && w in res && |res| <= ef && (|res| < ef || d(c) <= d(w))
    ensures |NearerThan(d, visited, c)| < ef
  {
    if |res| < ef {
      assert visited <= res;
      SizeOfSubset(NearerThan(d, visited, c), res);
    } else {
      SizeOfSubset(NearerThan(d, visited, c), res - {w});
    }
  }

  lemma SizeOfSubset(a: set<nat>, b: set<nat>)
    requires a <= b
    ensures |a| <= |b|
  {
    assert b == a + (b - a);
    assert |b| == |a| + |b - a|;
  }

  /** No node that was seen and not expanded is nearer than the candidate taken. */
  lemma NoneWaits(ef: nat, d: int -> real, s: State, c: nat, w: nat, u: nat)
    requires Outside(d, ef, s.visited, s.res) && s.busy == {} && s.res <= s.cand + s.expanded
    requires forall x :: x in s.cand ==> d(c) <= d(x)
    requires w in s.res && (|s.res| < ef || d(c) <= d(w)) && u in s.visited && u !in s.expanded
    ensures d(c) <= d(u)
  {
    if u !in s.cand {
      assert u !in s.res;
    }
  }

  lemma Pops(g: Graph, d: int -> real, n: nat, entry: nat, ef: nat, s: State, c: nat, w: nat)
    requires Inv(g, d, n, entry, ef, s) && s.busy == {} && c in s.cand
    requires forall x :: x in s.cand ==> d(c) <= d(x)
    requires w in s.res && (|s.res| < ef || d(c) <= d(w))
    ensures Inv(g, d, n, entry, ef, s.(cand := s.cand - {c}, busy := {c}))
  {
    ExploresOn(g, d, n, entry, ef, s, c, w);
  }

  lemma ExploresOn(g: Graph, d: int -> real, n: nat, entry: nat, ef: nat, s: State, c: nat, w: nat)
    requires Inv(g, d, n, entry, ef, s) && s.busy == {} && c in s.cand
    requires forall x :: x in s.cand ==> d(c) <= d(x)
    requires w in s.res && (|s.res| < ef || d(c) <= d(w))
    ensures Exploring(g, d, entry, ef, s.visited, s.expanded + {c})
  {
    assert s.expanded + s.busy == s.expanded;
    FewNearer(d, ef, s.visited, s.res, c, w);
    forall u | u in s.visited && u !in s.expanded
      ensures d(c) <= d(u)
    {
      NoneWaits(ef, d, s, c, w, u);
    }
    TakesOn(g, d, entry, ef, s.visited, s.expanded, c);
  }

  lemma TakesOn(g: Graph, d: int -> real, entry: nat, ef: nat, visited: set<nat>, expanded: set<nat>, c: nat)
    requires Exploring(g, d, entry, ef, visited, expanded) && entry in visited && Followed(g, expanded, visited)
    requires c in visited && c !in expanded && |NearerThan(d, visited, c)| < ef
    requires forall u :: u in visited && u !in expanded ==> d(c) <= d(u)
    ensures Exploring(g, d, entry, ef, visited, expanded + {c})
  {
    var order :| DueOrder(g, d, entry, ef, order) && Elements(order) == expanded
      && visited <= Frontier(g, entry, order);
    SeenAtRest(g, entry, visited, expanded, order);
    assert forall u: nat :: u in order <==> u in Elements(order);
    DueLonger(g, d, entry, ef, order, c);
    assert Elements(order + [c]) == expanded + {c};
    assert Frontier(g, entry, order) <= Frontier(g, entry, order + [c]);
  }

  /** A neighbour of the node being expanded may be seen. */
  lemma SeesOn(g: Graph, d: int -> real, entry: nat, ef: nat, visited: set<nat>, expanded: set<nat>, c: nat, b: nat)
    requires Exploring(g, d, entry, ef, visited, expanded) && c in expanded && c < |g| && b in g[c]
    ensures Exploring(g, d, entry, ef, visited + {b}, expanded)
  {
    var order :| DueOrder(g, d, entry, ef, order) && Elements(order) == expanded
      && visited <= Frontier(g, entry, order);
    assert c in order by { assert c in Elements(order); }
  }

  lemma EdgeReachable(g: Graph, entry: nat, a: nat, b: nat)
    requires Reachable(g, entry, a) && 0 <= a < |g| && b in g[a]
    ensures Reachable(g, entry, b)
  {
    forall s: set<nat> | entry in s && Closed(g, s)
      ensures b in s
    {
      assert a in s;
    }
  }

  /** A new neighbour taken while the result heap has room. */
  lemma AcceptsInRoom(g: Graph, d: int -> real, n: nat, entry: nat, ef: nat, s: State, c: nat, b: nat)
    requires Inv(g, d, n, entry, ef, s) && s.busy == {c} && b in g[c] && b !in s.visited
    requires |s.res| < ef
    ensures Inv(g, d, n, entry, ef, s.(visited := s.visited + {b}, cand := s.cand + {b}, res := s.res + {b}))
  {
    SeesOn(g, d, entry, ef, s.visited, s.expanded + s.busy, c, b);
    StaysSoundInRoom(g, d, n, entry, ef, s, c, b);
  }

  lemma StaysSoundInRoom(g: Graph, d: int -> real, n: nat, entry: nat, ef: nat, s: State, c: nat, b: nat)
    requires Sound(g, d, n, entry, ef, s) && s.busy == {c} && b in g[c] && b !in s.visited
    requires |s.res| < ef
    ensures Sound(g, d, n, entry, ef, s.(visited := s.visited + {b}, cand := s.cand + {b}, res := s.res + {b}))
  {
    EdgeReachable(g, entry, c, b);
    var r :| r in s.res;
    assert s.visited <= s.res;
  }

  /** A new neighbour that takes the place of the worst result of a full heap. */
  lemma AcceptsForWorst(g: Graph, d: int -> real, n: nat, entry: nat, ef: nat, s: State, c: nat, b: nat, w: nat)
    requires Inv(g, d, n, entry, ef, s) && s.busy == {c} && b in g[c] && b !in s.visited
    requires |s.res| == ef && w in s.res && d(b) < d(w) && forall r :: r in s.res ==> d(r) <= d(w)
    ensures Inv(g, d, n, entry, ef, s.(visited := s.visited + {b}, cand := s.cand + {b}, res := s.res - {w} + {b}))
  {
    SeesOn(g, d, entry, ef, s.visited, s.expanded + s.busy, c, b);
    StaysSoundForWorst(g, d, n, entry, ef, s, c, b, w);
  }

  lemma StaysSoundForWorst(g: Graph, d: int -> real, n: nat, entry: nat, ef: nat, s: State, c: nat, b: nat, w: nat)
    requires Sound(g, d, n, entry, ef, s) && s.busy == {c} && b in g[c] && b !in s.visited
    requires |s.res| == ef && w in s.res && d(b) < d(w) && forall r :: r in s.res ==> d(r) <= d(w)
    ensures Sound(g, d, n, entry, ef, s.(visited := s.visited + {b}, cand := s.cand + {b}, res := s.res - {w} + {b}))
  {
    EdgeReachable(g, entry, c, b);
    WorstReplaced(d, ef, s.visited, s.res, b, w);
  }

  lemma WorstReplaced(d: int -> real, ef: nat, visited: set<nat>, res: set<nat>, b: nat, w: nat)
    requires Outside(d, ef, visited, res) && b !in visited && b !in res
    requires |res| == ef && w in res && d(b) < d(w) && forall r :: r in res ==> d(r) <= d(w)
    ensures |res - {w} + {b}| == ef && Outside(d, ef, visited + {b}, res - {w} + {b})
  {
    assert |res - {w}| == ef - 1;
  }

  /** A new neighbour no closer than a full heap's worst result is only marked. */
  lemma Rejects(g: Graph, d: int -> real, n: nat, entry: nat, ef: nat, s: State, c: nat, b: nat)
    requires Inv(g, d, n, entry, ef, s) && s.busy == {c} && b in g[c] && b !in s.visited
    requires |s.res| == ef && forall r :: r in s.res ==> d(r) <= d(b)
    ensures Inv(g, d, n, entry, ef, s.(visited := s.visited + {b}))
  {
    SeesOn(g, d, entry, ef, s.visited, s.expanded + s.busy, c, b);
    EdgeReachable(g, entry, c, b);
  }

  lemma Expands(g: Graph, d: int -> real, n: nat, entry: nat, ef: nat, s: State, c: nat)
    requires Inv(g, d, n, entry, ef, s) && s.busy == {c} && g[c] <= s.visited
    ensures Inv(g, d, n, entry, ef, s.(expanded := s.expanded + {c}, busy := {}))
  {
    assert s.expanded + {c} + {} == s.expanded + s.busy;
  }

  // ---------- what holds when it stops ----------

  /** The results of a finished beam search of width ef. */
  ghost predicate Stopped(g: Graph, d: int -> real, n: nat, entry: nat, ef: nat,
                          res: set<nat>, visited: set<nat>, expanded: set<nat>) {
    && entry in visited && 0 < |res| <= ef
    && res <= expanded <= visited
    && (forall v :: v in visited ==> 0 <= v < n && Reachable(g, entry, v))
    && Outside(d, ef, visited, res)
    && Followed(g, expanded, visited)
    && Exploring(g, d, entry, ef, visited, expanded)
  }

  lemma StopsEmpty(g: Graph, d: int -> real, n: nat, entry: nat, ef: nat, s: State)
    requires Inv(g, d, n, entry, ef, s) && s.busy == {} && s.cand == {}
    ensures Stopped(g, d, n, entry, ef, s.res, s.visited, s.expanded)
  {
    assert s.expanded + s.busy == s.expanded;
  }

  /** The early stop is sound: once the nearest candidate is farther than a full heap's worst result,
      every result has been expanded. */
  lemma StopsEarly(g: Graph, d: int -> real, n: nat, entry: nat, ef: nat, s: State, c: nat, w: nat)
    requires Inv(g, d, n, entry, ef, s) && s.busy == {} && c in s.cand
    requires forall x :: x in s.cand ==> d(c) <= d(x)
    requires w in s.res && d(c) > d(w) && forall r :: r in s.res ==> d(r) <= d(w)
    ensures Stopped(g, d, n, entry, ef, s.res, s.visited, s.expanded)
  {
    assert s.expanded + s.busy == s.expanded;
    assert s.res !! s.cand;
  }

  /** Local optimality: a neighbour of a result is a result or no closer than any result. */
  lemma StopIsLocallyOptimal(g: Graph, d: int -> real, n: nat, entry: nat, ef: nat,
                             res: set<nat>, visited: set<nat>, expanded: set<nat>, r: nat, y: nat)
    requires Stopped(g, d, n, entry, ef, res, visited, expanded) && ValidGraph(g, n)
    requires r in res && y in g[r]
    ensures y in res || (|res| == ef && forall r' :: r' in res ==> d(r') <= d(y))
  {
  }

  /** A beam at least as wide as the reachable part finds all of it. */
  lemma WideBeamFindsAll(g: Graph, d: int -> real, n: nat, entry: nat, ef: nat,
                         res: set<nat>, visited: set<nat>, expanded: set<nat>, reach: set<nat>)
    requires Stopped(g, d, n, entry, ef, res, visited, expanded)
    requires forall v :: v in reach <==> Reachable(g, entry, v)
    requires |reach| <= ef
    ensures res == reach
  {
    assert visited <= reach;
    if |res| == ef {
      SubsetOfSameSize(res, reach);
    } else {
      var r :| r in res;
      assert visited <= res;
      assert Closed(g, visited);
    }
  }

  /** A stop before the beam is full has found everything there is to reach. */
  lemma StopFills(g: Graph, d: int -> real, n: nat, entry: nat, ef: nat,
                  res: set<nat>, visited: set<nat>, expanded: set<nat>, reach: set<nat>)
    requires Stopped(g, d, n, entry, ef, res, visited, expanded)
    requires forall v :: v in reach <==> Reachable(g, entry, v)
    ensures |res| == if |reach| < ef then |reach| else ef
  {
    SizeOfSubset(res, reach);
    if |reach| < ef {
      WideBeamFindsAll(g, d, n, entry, ef, res, visited, expanded, reach);
    } else if |res| < ef {
      var r :| r in res;
      assert visited <= res;
      assert Closed(g, visited);
      SizeOfSubset(reach, res);
    }
  }

  lemma SubsetOfSameSize(a: set<nat>, b: set<nat>)
    requires a <= b && |b| <= |a|
    ensures a == b
  {
    assert b == a + (b - a);
    assert |b| == |a| + |b - a|;
  }
}
