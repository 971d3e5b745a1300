/** What every bounded heap of the system is for: keeping the k nearest of all the entries
    it was offered. This module states that in terms of multisets, proves how one offer and
    one merge keep it, and shows that it determines the sorted list of distances. */
module Selection {

  /** A search hit: its id (chunk id or node number), its distance and whatever travels with it. */
  datatype Entry<+T> = Entry(id: int, dist: real, load: T)

  function Min(a: nat, b: nat): nat {
    if a < b then a else b
  }

  /** The order of the final sorts: by distance, ties by id. */
  predicate Le<T>(a: Entry<T>, b: Entry<T>) {
    a.dist < b.dist || (a.dist == b.dist && a.id <= b.id)
  }

  ghost predicate Sorted<T>(s: seq<Entry<T>>) {
    forall i, j :: 0 <= i < j < |s| ==> Le(s[i], s[j])
  }

  function Dists<T>(s: seq<Entry<T>>): (r: seq<real>)
    ensures |r| == |s|
  {
    seq(|s|, i requires 0 <= i < |s| => s[i].dist)
  }

  /** `kept` is a choice of the k nearest of `offered`. */
  ghost predicate Selects<T>(k: nat, offered: multiset<Entry<T>>, kept: multiset<Entry<T>>) {
    && kept <= offered
    && |kept| == Min(k, |offered|)
    && forall x, y :: x in kept && y in offered - kept ==> x.dist <= y.dist
  }

  ghost predicate DistinctDistances<T>(s: multiset<Entry<T>>) {
    && (forall x :: x in s ==> s[x] == 1)
    && forall x, y :: x in s && y in s && x.dist == y.dist ==> x == y
  }

  // ---------- one offer ----------

  lemma SubMultisetOfSameSize<T>(a: multiset<T>, b: multiset<T>)
    requires a <= b && |a| == |b|
    ensures a == b
  {
    assert b == a + (b - a);
    assert |b - a| == 0;
  }

  lemma SubMultisetSize<T>(a: multiset<T>, b: multiset<T>)
    requires a <= b
    ensures |a| <= |b|
  {
    assert b == a + (b - a);
  }

  lemma ExtraElement<T>(a: multiset<T>, b: multiset<T>, x: T)
    requires a <= b && x in b && x !in a
    ensures |a| < |b|
  {
    SubMultisetSize(a + multiset{x}, b);
  }

  lemma SubSeqSize<T>(a: seq<T>, b: seq<T>)
    requires multiset(a) <= multiset(b)
    ensures |a| <= |b|
  {
    SubMultisetSize(multiset(a), multiset(b));
  }

  lemma PrefixSub<T>(s: seq<T>, j: nat)
    requires j <= |s|
    ensures multiset(s[..j]) <= multiset(s)
  {
    assert s == s[..j] + s[j..];
  }

  /** Entries with different ids occur once. */
  lemma OnceById<T>(s: seq<Entry<T>>, x: nat)
    requires x < |s| && forall y, z :: 0 <= y < z < |s| ==> s[y].id != s[z].id
    ensures multiset(s)[s[x]] == 1
  {
    var a, b := s[..x], s[x + 1..];
    assert s == a + [s[x]] + b;
    assert forall y :: 0 <= y < |a| ==> a[y] == s[y];
    assert forall y :: 0 <= y < |b| ==> b[y] == s[x + 1 + y];
    assert s[x] !in a && s[x] !in b;
  }

  lemma SelectsEmpty<T>(k: nat)
    ensures Selects<T>(k, multiset{}, multiset{})
  {
  }

  lemma OfferIntoRoom<T>(k: nat, offered: multiset<Entry<T>>, kept: multiset<Entry<T>>, e: Entry<T>)
    requires Selects(k, offered, kept) && |kept| < k
    ensures Selects(k, offered + multiset{e}, kept + multiset{e})
  {
    SubMultisetOfSameSize(kept, offered);
    assert offered + multiset{e} - (kept + multiset{e}) == multiset{};
  }

  lemma OfferReplaces<T>(k: nat, offered: multiset<Entry<T>>, kept: multiset<Entry<T>>, worst: Entry<T>, e: Entry<T>)
    requires Selects(k, offered, kept) && |kept| == k
    requires worst in kept && (forall x :: x in kept ==> x.dist <= worst.dist)
    requires e.dist < worst.dist
    ensures Selects(k, offered + multiset{e}, kept - multiset{worst} + multiset{e})
  {
    var all := offered + multiset{e};
    var new_ := kept - multiset{worst} + multiset{e};
    assert kept == kept - multiset{worst} + multiset{worst};
    assert |new_| == k;
    forall x, y | x in new_ && y in all - new_
      ensures x.dist <= y.dist
    {
      assert all - new_ == (offered - kept) + multiset{worst};
      assert x == e || x in kept;
    }
  }

  lemma OfferRejected<T>(k: nat, offered: multiset<Entry<T>>, kept: multiset<Entry<T>>, e: Entry<T>)
    requires Selects(k, offered, kept) && |kept| == k
    requires forall x :: x in kept ==> x.dist <= e.dist
    ensures Selects(k, offered + multiset{e}, kept)
  {
    assert offered + multiset{e} - kept == (offered - kept) + multiset{e};
  }

  // ---------- merging two selections ----------

  /** The k nearest of two pools are the k nearest of the k nearest of each. */
  lemma MergeSelects<T>(k: nat, poolA: multiset<Entry<T>>, a: multiset<Entry<T>>,
                        poolB: multiset<Entry<T>>, b: multiset<Entry<T>>, c: multiset<Entry<T>>)
    requires Selects(k, poolA, a) && Selects(k, poolB, b) && Selects(k, a + b, c)
    ensures Selects(k, poolA + poolB, c)
  {
    var pool := poolA + poolB;
    forall x, y | x in c && y in pool - c
      ensures x.dist <= y.dist
    {
      if y !in (a + b) - c {
        if y in poolA - a {
          LeftOverIsNoCloser(k, poolA, a, a + b, c, x, y);
        } else {
          assert y in poolB - b;
          LeftOverIsNoCloser(k, poolB, b, a + b, c, x, y);
        }
      }
    }
  }

  lemma LeftOverIsNoCloser<T>(k: nat, pool: multiset<Entry<T>>, part: multiset<Entry<T>>,
                              both: multiset<Entry<T>>, c: multiset<Entry<T>>, x: Entry<T>, y: Entry<T>)
    requires Selects(k, pool, part) && part <= both && Selects(k, both, c)
    requires x in c && y in pool - part
    ensures x.dist <= y.dist
  {
    assert pool == part + (pool - part);
    assert |part| == k;
    if z :| z in part && c[z] < part[z] {
      assert z in both - c;
    } else if x !in part {
      ExtraElement(part, c, x);
      assert false;
    }
  }

  // ---------- selections determine the sorted distances ----------

  /** Entries strictly closer than the j-th of a sorted list number at most j. */
  lemma Crowd<T>(a: seq<Entry<T>>, f: seq<Entry<T>>, j: nat)
    requires Sorted(f) && j < |f| && multiset(a) <= multiset(f)
    requires forall i :: 0 <= i < |a| ==> a[i].dist < f[j].dist
    ensures |a| <= j
  {
    assert f == f[..j] + f[j..];
    forall z | z in multiset(a)
      ensures multiset(a)[z] <= multiset(f[..j])[z]
    {
      assert z in a;
      assert z !in f[j..];
      assert multiset(f[j..])[z] == 0;
    }
    SubSeqSize(a, f[..j]);
  }

  /** Rank by rank, part of a pool is no closer than the whole pool. */
  lemma SubsetNeverBeats<T>(r: seq<Entry<T>>, f: seq<Entry<T>>, j: nat)
    requires Sorted(r) && Sorted(f) && multiset(r) <= multiset(f) && j < |r|
    ensures |r| <= |f| && f[j].dist <= r[j].dist
  {
    SubSeqSize(r, f);
    if r[j].dist < f[j].dist {
      PrefixSub(r, j + 1);
      Crowd(r[..j + 1], f, j);
    }
  }

  lemma NearerIsKept<T>(k: nat, offered: multiset<Entry<T>>, kept: multiset<Entry<T>>, x: Entry<T>, z: Entry<T>)
    requires Selects(k, offered, kept) && x in kept && z.dist < x.dist
    ensures offered[z] == kept[z]
  {
    assert z !in offered - kept;
  }

  lemma PrefixIsKept<T>(k: nat, f: seq<Entry<T>>, r: seq<Entry<T>>, front: seq<Entry<T>>, x: Entry<T>)
    requires Selects(k, multiset(f), multiset(r)) && x in multiset(r)
    requires multiset(front) <= multiset(f)
    requires forall i :: 0 <= i < |front| ==> front[i].dist < x.dist
    ensures multiset(front) <= multiset(r)
  {
    var pool, kept := multiset(f), multiset(r);
    forall z | z in multiset(front)
      ensures multiset(front)[z] <= kept[z]
    {
      assert z in front;
      NearerIsKept(k, pool, kept, x, z);
    }
  }

  lemma SelectionNoFarther<T>(k: nat, f: seq<Entry<T>>, r: seq<Entry<T>>, j: nat)
    requires Sorted(f) && Sorted(r) && Selects(k, multiset(f), multiset(r)) && j < |r| <= |f|
    ensures r[j].dist <= f[j].dist
  {
    if f[j].dist < r[j].dist {
      var front := f[..j + 1];
      PrefixSub(f, j + 1);
      assert forall i :: 0 <= i < |front| ==> front[i] == f[i];
      assert r[j] in r;
      PrefixIsKept(k, f, r, front, r[j]);
      Crowd(front, r, j);
    }
  }

  /** A sorted selection lists exactly the first distances of the sorted pool. */
  lemma SelectionDistances<T>(k: nat, f: seq<Entry<T>>, r: seq<Entry<T>>)
    requires Sorted(f) && Sorted(r) && Selects(k, multiset(f), multiset(r))
    ensures |r| == Min(k, |f|) && Dists(r) == Dists(f)[..|r|]
  {
    SubSeqSize(r, f);
    assert |multiset(f)| == |f| && |multiset(r)| == |r|;
    forall j | 0 <= j < |r|
      ensures r[j].dist == f[j].dist
    {
      SubsetNeverBeats(r, f, j);
      SelectionNoFarther(k, f, r, j);
    }
  }

  /** With distinct distances the selection itself is determined: the first entries of the sorted pool. */
  lemma SelectionRows<T>(k: nat, f: seq<Entry<T>>, r: seq<Entry<T>>)
    requires Sorted(f) && Sorted(r) && Selects(k, multiset(f), multiset(r))
    requires DistinctDistances(multiset(f))
    ensures |r| == Min(k, |f|) && r == f[..|r|]
  {
    SelectionDistances(k, f, r);
    forall j | 0 <= j < |r|
      ensures r[j] == f[j]
    {
      assert Dists(r)[j] == Dists(f)[j];
      assert r[j] in multiset(r) && f[j] in multiset(f);
    }
  }

  // ---------- a sorted enumeration of any pool ----------

  /** Where e goes among the first j elements: just after the last one not ordered behind it. */
  function Place<T>(s: seq<Entry<T>>, e: Entry<T>, j: nat): (p: nat)
    requires j <= |s|
    ensures p <= j
  {
    if j > 0 && !Le(s[j - 1], e) then Place(s, e, j - 1) else j
  }

  lemma {:induction false} PlaceFits<T>(s: seq<Entry<T>>, e: Entry<T>, j: nat)
    requires j <= |s|
    ensures var p := Place(s, e, j);
      (p > 0 ==> Le(s[p - 1], e)) && forall i :: p <= i < j ==> !Le(s[i], e)
  {
    if j > 0 && !Le(s[j - 1], e) {
      PlaceFits(s, e, j - 1);
    }
  }

  function Insert<T>(s: seq<Entry<T>>, e: Entry<T>): (r: seq<Entry<T>>)
    ensures |r| == |s| + 1
  {
    var p := Place(s, e, |s|);
    s[..p] + [e] + s[p..]
  }

  lemma SortedJoin<T>(a: seq<Entry<T>>, b: seq<Entry<T>>)
    requires Sorted(a) && Sorted(b)
    requires forall i, j :: 0 <= i < |a| && 0 <= j < |b| ==> Le(a[i], b[j])
    ensures Sorted(a + b)
  {
  }

  lemma InsertSorted<T>(s: seq<Entry<T>>, e: Entry<T>)
    requires Sorted(s)
    ensures Sorted(Insert(s, e))
  {
    var p := Place(s, e, |s|);
    var a, b := s[..p], s[p..];
    SliceSorted(s, p);
    PlaceFits(s, e, |s|);
    forall i | 0 <= i < |a|
      ensures Le(a[i], e)
    {
      assert a[i] == s[i] && (i == p - 1 || Le(s[i], s[p - 1]));
    }
    forall j | 0 <= j < |b|
      ensures Le(e, b[j])
    {
      assert !Le(s[p + j], e);
    }
    SortedJoin([e], b);
    assert forall i, j :: 0 <= i < |a| && 0 <= j < |b| ==> Le(a[i], b[j]);
    SortedJoin(a, [e] + b);
    assert Insert(s, e) == a + ([e] + b);
  }

  lemma SliceSorted<T>(s: seq<Entry<T>>, p: nat)
    requires Sorted(s) && p <= |s|
    ensures Sorted(s[..p]) && Sorted(s[p..])
    ensures forall i, j :: 0 <= i < p && 0 <= j < |s| - p ==> Le(s[..p][i], s[p..][j])
  {
  }

  lemma InsertPermutes<T>(s: seq<Entry<T>>, e: Entry<T>)
    ensures multiset(Insert(s, e)) == multiset(s) + multiset{e}
  {
    var p := Place(s, e, |s|);
    assert s == s[..p] + s[p..];
  }

  /** The pool in the order of the final sorts. */
  function Sort<T>(s: seq<Entry<T>>): (r: seq<Entry<T>>)
    ensures Sorted(r) && multiset(r) == multiset(s) && |r| == |s|
  {
    if s == [] then []
    else
      assert s == s[..|s| - 1] + [s[|s| - 1]];
      InsertSorted(Sort(s[..|s| - 1]), s[|s| - 1]);
      InsertPermutes(Sort(s[..|s| - 1]), s[|s| - 1]);
      Insert(Sort(s[..|s| - 1]), s[|s| - 1])
  }

  // ---------- answers ----------

  /** r is a correct answer to "the k nearest rows of pool": sorted, and a selection of the pool. */
  ghost predicate Answers<T>(k: nat, pool: seq<Entry<T>>, r: seq<Entry<T>>) {
    Sorted(r) && Selects(k, multiset(pool), multiset(r))
  }

  /** An answer lists the first distances of the sorted pool, and its first rows when distances differ. */
  lemma AnswerIsTopK<T>(k: nat, pool: seq<Entry<T>>, r: seq<Entry<T>>)
    requires Answers(k, pool, r)
    ensures |r| == Min(k, |pool|) && Dists(r) == Dists(Sort(pool))[..|r|]
    ensures DistinctDistances(multiset(pool)) ==> r == Sort(pool)[..|r|]
  {
    SelectionDistances(k, Sort(pool), r);
    if DistinctDistances(multiset(pool)) {
      SelectionRows(k, Sort(pool), r);
    }
  }

  /** Two answers over the same rows in any order agree. */
  lemma AnswersAgree<T>(k: nat, pool1: seq<Entry<T>>, r1: seq<Entry<T>>, pool2: seq<Entry<T>>, r2: seq<Entry<T>>)
    requires multiset(pool1) == multiset(pool2) && Answers(k, pool1, r1) && Answers(k, pool2, r2)
    ensures Dists(r1) == Dists(r2)
    ensures DistinctDistances(multiset(pool1)) ==> r1 == r2
  {
    assert Answers(k, pool1, r2);
    AnswerIsTopK(k, pool1, r1);
    AnswerIsTopK(k, pool1, r2);
  }
}
