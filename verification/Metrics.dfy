/** The three distances of src/maludb_search.c, src/maludb_topk.c and src/maludb_ann.c, over the reals. */
module Metrics {
  import opened Selection
  import opened Seqs

  type Vector = seq<real>

  datatype Metric = Cosine | L2 | InnerProduct

  function Dot(a: Vector, b: Vector, n: nat): real
    requires n <= |a| && n <= |b|
  {
    if n == 0 then 0.0 else Dot(a, b, n - 1) + a[n - 1] * b[n - 1]
  }

  function SquaredL2(a: Vector, b: Vector, n: nat): real
    requires n <= |a| && n <= |b|
  {
    if n == 0 then 0.0 else SquaredL2(a, b, n - 1) + (a[n - 1] - b[n - 1]) * (a[n - 1] - b[n - 1])
  }

  /** Smaller is better for all three. */
  function Distance(metric: Metric, a: Vector, b: Vector): real
    requires |a| == |b|
  {
    match metric
    case L2 => SquaredL2(a, b, |a|)
    case Cosine => 1.0 - Dot(a, b, |a|)
    case InnerProduct => -Dot(a, b, |a|)
  }

  datatype DistanceResult = DimMismatch | Dist(value: real)

  /** compute_distance; ann_distance is the same loop without the dimension check. */
  method ComputeDistance(metric: Metric, a: Vector, b: Vector) returns (r: DistanceResult)
    ensures r == if |a| == |b| then Dist(Distance(metric, a, b)) else DimMismatch
  {
    if |a| != |b| {
      return DimMismatch;
    }
    if metric.L2? {
      var sum := 0.0;
      for i := 0 to |a|
        invariant sum == SquaredL2(a, b, i)
      {
        var d := a[i] - b[i];
        sum := sum + d * d;
      }
      return Dist(sum);
    }
    var dot := 0.0;
    for i := 0 to |a|
      invariant dot == Dot(a, b, i)
    {
      dot := dot + a[i] * b[i];
    }
    return Dist(if metric.Cosine? then 1.0 - dot else -dot);
  }

  lemma {:induction false} DotSymmetric(a: Vector, b: Vector, n: nat)
    requires n <= |a| && n <= |b|
    ensures Dot(a, b, n) == Dot(b, a, n)
  {
    if n > 0 {
      DotSymmetric(a, b, n - 1);
    }
  }

  /** Expanding the square: |a - b|^2 = |a|^2 + |b|^2 - 2ab. */
  lemma {:induction false} SquareExpands(a: Vector, b: Vector, n: nat)
    requires n <= |a| && n <= |b|
    ensures SquaredL2(a, b, n) == Dot(a, a, n) + Dot(b, b, n) - 2.0 * Dot(a, b, n)
  {
    if n > 0 {
      SquareExpands(a, b, n - 1);
      var x, y := a[n - 1], b[n - 1];
      assert (x - y) * (x - y) == x * x + y * y - 2.0 * (x * y);
    }
  }

  lemma DistanceSymmetric(metric: Metric, a: Vector, b: Vector)
    requires |a| == |b|
    ensures Distance(metric, a, b) == Distance(metric, b, a)
  {
    DotSymmetric(a, b, |a|);
    SquareExpands(a, b, |a|);
    SquareExpands(b, a, |a|);
  }

  predicate Unit(a: Vector) {
    Dot(a, a, |a|) == 1.0
  }

  /** On unit vectors the metrics are increasing functions of one another. */
  lemma UnitMetricsRankAlike(m1: Metric, m2: Metric, q: Vector, a: Vector, b: Vector)
    requires |q| == |a| == |b| && Unit(q) && Unit(a) && Unit(b)
    ensures Distance(m1, q, a) < Distance(m1, q, b) <==> Distance(m2, q, a) < Distance(m2, q, b)
  {
    SquareExpands(q, a, |q|);
    SquareExpands(q, b, |q|);
  }

  // ---------- what the metrics measure ----------

  /** The vector whose only component is a one at i. */
  function Axis(n: nat, i: nat): (v: Vector)
    ensures |v| == n && forall k :: 0 <= k < n ==> v[k] == if k == i then 1.0 else 0.0
  {
    seq(n, k => if k == i then 1.0 else 0.0)
  }

  /** The product with an axis reads one component. */
  lemma {:induction false} DotOfAxis(a: Vector, i: nat, n: nat)
    requires n <= |a|
    ensures Dot(a, Axis(|a|, i), n) == if i < n then a[i] else 0.0
  {
    if n > 0 {
      DotOfAxis(a, i, n - 1);
    }
  }

  function Combined(s: real, a: Vector, t: real, b: Vector): (v: Vector)
    requires |a| == |b|
    ensures |v| == |a| && forall k :: 0 <= k < |a| ==> v[k] == s * a[k] + t * b[k]
  {
    seq(|a|, k requires 0 <= k < |a| => s * a[k] + t * b[k])
  }

  /** The product is linear; with DotOfAxis and DotSymmetric this leaves one function. */
  lemma {:induction false} DotIsLinear(q: Vector, s: real, a: Vector, t: real, b: Vector, n: nat)
    requires |q| == |a| == |b| && n <= |q|
    ensures Dot(q, Combined(s, a, t, b), n) == s * Dot(q, a, n) + t * Dot(q, b, n)
  {
    if n > 0 {
      DotIsLinear(q, s, a, t, b, n - 1);
      LinearStep(q[n - 1], s, a[n - 1], t, b[n - 1], Dot(q, a, n - 1), Dot(q, b, n - 1));
    }
  }

  lemma LinearStep(x: real, s: real, y: real, t: real, z: real, c: real, d: real)
    ensures s * c + t * d + x * (s * y + t * z) == s * (c + x * y) + t * (d + x * z)
  {
    assert x * (s * y + t * z) == s * (x * y) + t * (x * z);
  }

  lemma ProductIsPositive(x: real, y: real) returns (p: real)
    requires (x > 0.0 && y > 0.0) || (x < 0.0 && y < 0.0)
    ensures p == x * y && p > 0.0
  {
    p := x * y;
  }

  /** The squared distance is zero between equal vectors and positive otherwise. */
  lemma {:induction false} SquaredL2Separates(a: Vector, b: Vector, n: nat)
    requires n <= |a| && n <= |b|
    ensures a[..n] == b[..n] ==> SquaredL2(a, b, n) == 0.0
    ensures a[..n] != b[..n] ==> SquaredL2(a, b, n) > 0.0
  {
    if n > 0 {
      SquaredL2Separates(a, b, n - 1);
      assert a[..n] == a[..n - 1] + [a[n - 1]] && b[..n] == b[..n - 1] + [b[n - 1]];
      var x, before := a[n - 1] - b[n - 1], SquaredL2(a, b, n - 1);
      assert SquaredL2(a, b, n) == before + x * x;
      if a[n - 1] != b[n - 1] {
        var p := ProductIsPositive(x, x);
      }
    }
  }

  /** On unit vectors the cosine distance is zero exactly between equal vectors, the squared distance is twice it and
      the inner product's lies one below it. */
  lemma UnitDistances(a: Vector, b: Vector)
    requires |a| == |b| && Unit(a) && Unit(b)
    ensures Distance(L2, a, b) == 2.0 * Distance(Cosine, a, b)
    ensures Distance(InnerProduct, a, b) == Distance(Cosine, a, b) - 1.0
    ensures if a == b then Distance(Cosine, a, b) == 0.0 else Distance(Cosine, a, b) > 0.0
  {
    SquareExpands(a, b, |a|);
    SquaredL2Separates(a, b, |a|);
    assert a[..|a|] == a && b[..|a|] == b;
  }

  // ---------- searches under different metrics ----------

  /** The rows of a compartment as the exact scan offers them under one metric. */
  function Offers(metric: Metric, q: Vector, rows: seq<Vector>): (r: seq<Entry<()>>)
    requires forall i :: 0 <= i < |rows| ==> |rows[i]| == |q|
    ensures |r| == |rows|
    ensures forall i :: 0 <= i < |rows| ==> r[i] == Entry(i, Distance(metric, q, rows[i]), ())
  {
    seq(|rows|, i requires 0 <= i < |rows| => Entry(i, Distance(metric, q, rows[i]), ()))
  }

  function Ids(s: seq<Entry<()>>): seq<int> {
    Map((e: Entry<()>) => e.id, s)
  }

  /** Strictly increasing. */
  ghost predicate Increasing(f: real -> real) {
    forall x, y :: x < y <==> f(x) < f(y)
  }

  function Image(e: Entry<()>, f: real -> real): Entry<()> {
    Entry(e.id, f(e.dist), ())
  }

  /** The same rows with every distance sent through f. */
  function Rescale(s: seq<Entry<()>>, f: real -> real): (r: seq<Entry<()>>)
    ensures |r| == |s|
    ensures forall i :: 0 <= i < |s| ==> r[i] == Image(s[i], f)
  {
    seq(|s|, i requires 0 <= i < |s| => Image(s[i], f))
  }

  lemma ImageOrder(a: Entry<()>, b: Entry<()>, f: real -> real)
    requires Increasing(f)
    ensures Le(Image(a, f), Image(b, f)) <==> Le(a, b)
  {
    assert a.dist < b.dist <==> f(a.dist) < f(b.dist);
    assert b.dist < a.dist <==> f(b.dist) < f(a.dist);
  }

  lemma {:induction false} RescalePlace(s: seq<Entry<()>>, e: Entry<()>, j: nat, f: real -> real)
    requires Increasing(f) && j <= |s|
    ensures Place(Rescale(s, f), Image(e, f), j) == Place(s, e, j)
  {
    if j > 0 {
      ImageOrder(s[j - 1], e, f);
      RescalePlace(s, e, j - 1, f);
    }
  }

  lemma RescaleInsert(s: seq<Entry<()>>, e: Entry<()>, f: real -> real)
    requires Increasing(f)
    ensures Insert(Rescale(s, f), Image(e, f)) == Rescale(Insert(s, e), f)
  {
    RescalePlace(s, e, |s|, f);
    var p := Place(s, e, |s|);
    var t := Rescale(s, f);
    assert t[..p] + [Image(e, f)] + t[p..] == Rescale(s[..p] + [e] + s[p..], f);
  }

  /** Sorting commutes with an increasing map of the distances, ties included. */
  lemma {:induction false} RescaleSort(s: seq<Entry<()>>, f: real -> real)
    requires Increasing(f)
    ensures Sort(Rescale(s, f)) == Rescale(Sort(s), f)
  {
    if s != [] {
      var front, e := s[..|s| - 1], s[|s| - 1];
      assert Rescale(s, f)[..|s| - 1] == Rescale(front, f);
      RescaleSort(front, f);
      RescaleInsert(Sort(front), e, f);
    } else {
      assert Rescale(s, f) == [];
    }
  }

  function Scale(metric: Metric): real {
    if metric.L2? then 2.0 else 1.0
  }

  function Shift(metric: Metric): real {
    if metric.InnerProduct? then -1.0 else 0.0
  }

  /** On unit vectors every metric is an increasing function of the cosine distance. */
  lemma OffersRescaled(metric: Metric, q: Vector, rows: seq<Vector>) returns (f: real -> real)
    requires Unit(q) && forall i :: 0 <= i < |rows| ==> |rows[i]| == |q| && Unit(rows[i])
    ensures Increasing(f) && Offers(metric, q, rows) == Rescale(Offers(Cosine, q, rows), f)
  {
    f := x => Scale(metric) * x + Shift(metric);
    forall i | 0 <= i < |rows|
      ensures Distance(metric, q, rows[i]) == f(Distance(Cosine, q, rows[i]))
    {
      SquareExpands(q, rows[i], |q|);
    }
  }

  /** For unit vectors, sorting all rows gives the same order of rows under all three metrics. */
  lemma UnitRankingsAgree(m1: Metric, m2: Metric, q: Vector, rows: seq<Vector>)
    requires Unit(q) && forall i :: 0 <= i < |rows| ==> |rows[i]| == |q| && Unit(rows[i])
    ensures Ids(Sort(Offers(m1, q, rows))) == Ids(Sort(Offers(m2, q, rows)))
  {
    var base := Offers(Cosine, q, rows);
    var f1 := OffersRescaled(m1, q, rows);
    var f2 := OffersRescaled(m2, q, rows);
    RescaleSort(base, f1);
    RescaleSort(base, f2);
  }

  /** The exact scan selects the same rows in the same order under all three metrics, when the
      distances are distinct. */
  lemma UnitSearchesAgree(m1: Metric, m2: Metric, q: Vector, rows: seq<Vector>, k: nat,
                          r1: seq<Entry<()>>, r2: seq<Entry<()>>)
    requires Unit(q) && forall i :: 0 <= i < |rows| ==> |rows[i]| == |q| && Unit(rows[i])
    requires Answers(k, Offers(m1, q, rows), r1) && Answers(k, Offers(m2, q, rows), r2)
    requires forall i, j :: 0 <= i < j < |rows| ==> Distance(m1, q, rows[i]) != Distance(m1, q, rows[j])
    ensures Ids(r1) == Ids(r2)
  {
    var o1, o2 := Offers(m1, q, rows), Offers(m2, q, rows);
    DistinctOffers(m1, m1, q, rows);
    DistinctOffers(m1, m2, q, rows);
    UnitRankingsAgree(m1, m2, q, rows);
    AnswerIsTopK(k, o1, r1);
    AnswerIsTopK(k, o2, r2);
    SameFront(Sort(o1), Sort(o2), r1, r2);
  }

  lemma DistinctOffers(m1: Metric, m2: Metric, q: Vector, rows: seq<Vector>)
    requires Unit(q) && forall i :: 0 <= i < |rows| ==> |rows[i]| == |q| && Unit(rows[i])
    requires forall i, j :: 0 <= i < j < |rows| ==> Distance(m1, q, rows[i]) != Distance(m1, q, rows[j])
    ensures DistinctDistances(multiset(Offers(m2, q, rows)))
  {
    var o := Offers(m2, q, rows);
    forall i, j | 0 <= i < j < |rows|
      ensures o[i].dist != o[j].dist
    {
      UnitMetricsRankAlike(m1, m2, q, rows[i], rows[j]);
      UnitMetricsRankAlike(m1, m2, q, rows[j], rows[i]);
    }
    DistinctById(o);
  }

  lemma SameFront(f1: seq<Entry<()>>, f2: seq<Entry<()>>, r1: seq<Entry<()>>, r2: seq<Entry<()>>)
    requires Ids(f1) == Ids(f2) && |r1| == |r2| <= |f1| && r1 == f1[..|r1|] && r2 == f2[..|r2|]
    ensures Ids(r1) == Ids(r2)
  {
    forall i | 0 <= i < |r1|
      ensures r1[i].id == r2[i].id
    {
      assert Ids(f1)[i] == Ids(f2)[i];
    }
  }

  lemma DistinctById(o: seq<Entry<()>>)
    requires forall i :: 0 <= i < |o| ==> o[i].id == i
    requires forall i, j :: 0 <= i < j < |o| ==> o[i].dist != o[j].dist
    ensures DistinctDistances(multiset(o))
  {
    forall x | x in multiset(o)
      ensures multiset(o)[x] == 1
    {
      var a :| 0 <= a < |o| && o[a] == x;
      OnceById(o, a);
    }
    forall x, y | x in multiset(o) && y in multiset(o) && x.dist == y.dist
      ensures x == y
    {
      var a :| 0 <= a < |o| && o[a] == x;
      var b :| 0 <= b < |o| && o[b] == y;
    }
  }
}
