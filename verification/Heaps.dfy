/** The binary heaps of the vector search code, sifted in place in an array prefix, and the
    insertion sort that lists their contents. src/maludb_ann.c has a min-heap and a max-heap;
    src/maludb_topk.c and src/maludb_search.c repeat the max-heap. */
module Heaps {
  import opened Selection

  /** Which end a heap keeps at its root. */
  datatype Order = Nearest | Farthest

  /** x must sit strictly above y. */
  predicate Above(order: Order, x: real, y: real) {
    if order == Nearest then x < y else x > y
  }

  function Parent(i: nat): nat {
    if i == 0 then 0 else (i - 1) / 2
  }

  ghost predicate IsHeap<T>(order: Order, s: seq<Entry<T>>, n: nat)
    requires n <= |s|
  {
    forall j :: 0 < j < n ==> !Above(order, s[j].dist, s[Parent(j)].dist)
  }

  lemma {:induction false} RootIsExtreme<T>(order: Order, s: seq<Entry<T>>, n: nat, i: nat)
    requires i < n <= |s| && IsHeap(order, s, n)
    ensures !Above(order, s[i].dist, s[0].dist)
  {
    if i > 0 {
      RootIsExtreme(order, s, n, Parent(i));
    }
  }

  // ---------- sifting, on values ----------

  function Swapped<T>(s: seq<T>, i: nat, j: nat): (t: seq<T>)
    requires i < |s| && j < |s|
    ensures |t| == |s|
  {
    s[i := s[j]][j := s[i]]
  }

  lemma SwappedPermutes<T>(s: seq<T>, i: nat, j: nat, n: nat)
    requires i < n && j < n && n <= |s|
    ensures multiset(Swapped(s, i, j)[..n]) == multiset(s[..n])
    ensures Swapped(s, i, j)[n..] == s[n..]
  {
    assert Swapped(s, i, j)[..n] == s[..n][i := s[..n][j]][j := s[..n][i]];
  }

  function Up<T>(order: Order, s: seq<Entry<T>>, i: nat): (t: seq<Entry<T>>)
    requires i < |s|
    ensures |t| == |s|
    decreases i
  {
    if i > 0 && Above(order, s[i].dist, s[Parent(i)].dist)
    then Up(order, Swapped(s, i, Parent(i)), Parent(i))
    else s
  }

  /** Where the element at i should move: the better of its children, or nowhere. */
  function Pick<T>(order: Order, s: seq<Entry<T>>, n: nat, i: nat): (m: nat)
    requires i < n <= |s|
    ensures i <= m < n && (m == i || Parent(m) == i)
  {
    var l, r := 2 * i + 1, 2 * i + 2;
    var m := if l < n && Above(order, s[l].dist, s[i].dist) then l else i;
    if r < n && Above(order, s[r].dist, s[m].dist) then r else m
  }

  function Down<T>(order: Order, s: seq<Entry<T>>, n: nat, i: nat): (t: seq<Entry<T>>)
    requires i < n <= |s|
    ensures |t| == |s|
    decreases n - i
  {
    var m := Pick(order, s, n, i);
    if m == i then s else Down(order, Swapped(s, i, m), n, m)
  }

  lemma {:induction false} UpPermutes<T>(order: Order, s: seq<Entry<T>>, i: nat, n: nat)
    requires i < n <= |s|
    ensures multiset(Up(order, s, i)[..n]) == multiset(s[..n])
    ensures Up(order, s, i)[n..] == s[n..]
    decreases i
  {
    if i > 0 && Above(order, s[i].dist, s[Parent(i)].dist) {
      SwappedPermutes(s, i, Parent(i), n);
      UpPermutes(order, Swapped(s, i, Parent(i)), Parent(i), n);
    }
  }

  lemma {:induction false} DownPermutes<T>(order: Order, s: seq<Entry<T>>, n: nat, i: nat)
    requires i < n <= |s|
    ensures multiset(Down(order, s, n, i)[..n]) == multiset(s[..n])
    ensures Down(order, s, n, i)[n..] == s[n..]
    decreases n - i
  {
    var m := Pick(order, s, n, i);
    if m != i {
      SwappedPermutes(s, i, m, n);
      DownPermutes(order, Swapped(s, i, m), n, m);
    }
  }

  /** A heap but for the element at i, which may belong higher up. */
  ghost predicate HeapButUp<T>(order: Order, s: seq<Entry<T>>, n: nat, i: nat)
    requires i < n <= |s|
  {
    && (forall j :: 0 < j < n && j != i ==> !Above(order, s[j].dist, s[Parent(j)].dist))
    && (i > 0 ==> forall j :: 0 < j < n && Parent(j) == i ==> !Above(order, s[j].dist, s[Parent(i)].dist))
  }

  /** A heap but for the element at i, which may belong lower down. */
  ghost predicate HeapButDown<T>(order: Order, s: seq<Entry<T>>, n: nat, i: nat)
    requires i < n <= |s|
  {
    && (forall j :: 0 < j < n && Parent(j) != i ==> !Above(order, s[j].dist, s[Parent(j)].dist))
    && (i > 0 ==> forall j :: 0 < j < n && Parent(j) == i ==> !Above(order, s[j].dist, s[Parent(i)].dist))
  }

  lemma {:induction false} UpRestores<T>(order: Order, s: seq<Entry<T>>, n: nat, i: nat)
    requires i < n <= |s| && HeapButUp(order, s, n, i)
    ensures IsHeap(order, Up(order, s, i), n)
    decreases i
  {
    if i > 0 && Above(order, s[i].dist, s[Parent(i)].dist) {
      UpRestores(order, Swapped(s, i, Parent(i)), n, Parent(i));
    }
  }

  lemma {:induction false} DownRestores<T>(order: Order, s: seq<Entry<T>>, n: nat, i: nat)
    requires i < n <= |s| && HeapButDown(order, s, n, i)
    ensures IsHeap(order, Down(order, s, n, i), n)
    decreases n - i
  {
    var m := Pick(order, s, n, i);
    PickIsBest(order, s, n, i);
    if m != i {
      DownStep(order, s, n, i, m);
      DownRestores(order, Swapped(s, i, m), n, m);
    }
  }

  lemma PickIsBest<T>(order: Order, s: seq<Entry<T>>, n: nat, i: nat)
    requires i < n <= |s|
    ensures var m := Pick(order, s, n, i);
      && (m != i ==> Above(order, s[m].dist, s[i].dist))
      && forall j :: 0 < j < n && Parent(j) == i ==> !Above(order, s[j].dist, s[m].dist)
  {
    assert forall j :: 0 < j < n && Parent(j) == i ==> j == 2 * i + 1 || j == 2 * i + 2;
  }

  lemma DownStep<T>(order: Order, s: seq<Entry<T>>, n: nat, i: nat, m: nat)
    requires i < m < n <= |s| && Parent(m) == i && HeapButDown(order, s, n, i)
    requires Above(order, s[m].dist, s[i].dist)
    requires forall j :: 0 < j < n && Parent(j) == i ==> !Above(order, s[j].dist, s[m].dist)
    ensures HeapButDown(order, Swapped(s, i, m), n, m)
  {
  }

  // ---------- sifting, in place ----------

  /** The elements of a heap that occupies the first n places. */
  ghost function Bag<T>(s: seq<T>, n: nat): multiset<T>
    requires n <= |s|
  {
    multiset(s[..n])
  }

  method MoveUp<T>(order: Order, h: array<Entry<T>>, last: nat)
    requires last < h.Length
    modifies h
    ensures h[..] == Up(order, old(h[..]), last)
  {
    ghost var s := h[..];
    var i: nat := last;
    while i > 0
      invariant i <= last && Up(order, h[..], i) == Up(order, s, last)
    {
      var parent := (i - 1) / 2;
      if Above(order, h[i].dist, h[parent].dist) {
        ghost var t := h[..];
        h[i], h[parent] := h[parent], h[i];
        assert h[..] == Swapped(t, i, parent);
        i := parent;
      } else {
        break;
      }
    }
  }

  method MoveDown<T>(order: Order, h: array<Entry<T>>, n: nat)
    requires 0 < n <= h.Length
    modifies h
    ensures h[..] == Down(order, old(h[..]), n, 0)
  {
    ghost var s := h[..];
    var i := 0;
    while true
      invariant i < n && Down(order, h[..], n, i) == Down(order, s, n, 0)
      decreases n - i
    {
      var l, r, m := 2 * i + 1, 2 * i + 2, i;
      if l < n && Above(order, h[l].dist, h[m].dist) { m := l; }
      if r < n && Above(order, h[r].dist, h[m].dist) { m := r; }
      if m == i { break; }
      ghost var t := h[..];
      h[i], h[m] := h[m], h[i];
      assert h[..] == Swapped(t, i, m);
      i := m;
    }
  }

  /** Appends e to the heap in the first n places. */
  method Append<T>(order: Order, h: array<Entry<T>>, n: nat, e: Entry<T>)
    requires n < h.Length && IsHeap(order, h[..], n)
    modifies h
    ensures IsHeap(order, h[..], n + 1)
    ensures Bag(h[..], n + 1) == old(Bag(h[..], n)) + multiset{e}
  {
    ghost var t := h[..][n := e];
    Appended(order, h[..], n, e);
    h[n] := e;
    assert h[..] == t;
    MoveUp(order, h, n);
    UpRestores(order, t, n + 1, n);
    UpPermutes(order, t, n, n + 1);
  }

  /** Overwrites the root of the heap in the first n places with e. */
  method ReplaceRoot<T>(order: Order, h: array<Entry<T>>, n: nat, e: Entry<T>)
    requires 0 < n <= h.Length && IsHeap(order, h[..], n)
    modifies h
    ensures IsHeap(order, h[..], n)
    ensures Bag(h[..], n) == old(Bag(h[..], n)) - multiset{old(h[0])} + multiset{e}
  {
    ghost var t := h[..][0 := e];
    RootReplaced(order, h[..], n, e);
    h[0] := e;
    assert h[..] == t;
    MoveDown(order, h, n);
    DownRestores(order, t, n, 0);
    DownPermutes(order, t, n, 0);
  }

  // ---------- the bounded max-heap ----------

  /** What a bounded heap of capacity cap holds after an offer: the offer is taken while there is
      room, and otherwise replaces the root exactly when it is strictly closer. */
  ghost function AfterPush<T>(s: seq<Entry<T>>, n: nat, cap: nat, e: Entry<T>): multiset<Entry<T>>
    requires n <= |s|
  {
    if n < cap then Bag(s, n) + multiset{e}
    else if 0 < n && e.dist < s[0].dist then Bag(s, n) - multiset{s[0]} + multiset{e}
    else Bag(s, n)
  }

  method MaxHeapPush<T>(h: array<Entry<T>>, n: nat, cap: nat, e: Entry<T>) returns (n': nat)
    requires n <= cap && n <= h.Length && (n < cap ==> n < h.Length) && IsHeap(Farthest, h[..], n)
    modifies h
    ensures n' == (if n < cap then n + 1 else n)
    ensures IsHeap(Farthest, h[..], n') && Bag(h[..], n') == AfterPush(old(h[..]), n, cap, e)
  {
    n' := n;
    if n < cap {
      n' := n + 1;
      Append(Farthest, h, n, e);
    } else if cap > 0 && e.dist < h[0].dist {
      ReplaceRoot(Farthest, h, n, e);
    }
  }

  lemma Appended<T>(order: Order, s: seq<Entry<T>>, n: nat, e: Entry<T>)
    requires n < |s| && IsHeap(order, s, n)
    ensures HeapButUp(order, s[n := e], n + 1, n)
    ensures Bag(s[n := e], n + 1) == Bag(s, n) + multiset{e}
  {
    assert s[n := e][..n + 1] == s[..n] + [e];
  }

  lemma RootReplaced<T>(order: Order, s: seq<Entry<T>>, n: nat, e: Entry<T>)
    requires 0 < n <= |s| && IsHeap(order, s, n)
    ensures HeapButDown(order, s[0 := e], n, 0)
    ensures Bag(s[0 := e], n) == Bag(s, n) - multiset{s[0]} + multiset{e}
  {
    assert s[..n] == [s[0]] + s[1..n];
    assert s[0 := e][..n] == [e] + s[1..n];
  }

  lemma RootIsFarthest<T>(s: seq<Entry<T>>, n: nat, x: Entry<T>)
    requires n <= |s| && IsHeap(Farthest, s, n) && x in Bag(s, n)
    ensures n > 0 && x.dist <= s[0].dist
  {
    var i :| 0 <= i < n && s[..n][i] == x;
    RootIsExtreme(Farthest, s, n, i);
  }

  /** A bounded push keeps the selection: the heap holds the cap nearest of everything offered. */
  lemma PushSelects<T>(s: seq<Entry<T>>, n: nat, cap: nat, e: Entry<T>, offered: multiset<Entry<T>>)
    requires n <= cap && n <= |s| && IsHeap(Farthest, s, n) && Selects(cap, offered, Bag(s, n))
    ensures Selects(cap, offered + multiset{e}, AfterPush(s, n, cap, e))
  {
    if n < cap {
      OfferIntoRoom(cap, offered, Bag(s, n), e);
    } else {
      forall x | x in Bag(s, n)
        ensures x.dist <= s[0].dist
      {
        RootIsFarthest(s, n, x);
      }
      if 0 < n && e.dist < s[0].dist {
        assert s[..n][0] == s[0];
        OfferReplaces(cap, offered, Bag(s, n), s[0], e);
      } else {
        OfferRejected(cap, offered, Bag(s, n), e);
      }
    }
  }

  lemma BagNext<T>(s: seq<T>, i: nat)
    requires i < |s|
    ensures Bag(s, i + 1) == Bag(s, i) + multiset{s[i]}
  {
    assert s[..i + 1] == s[..i] + [s[i]];
  }

  /** A bounded push, seen from the pool of everything offered so far. */
  method Keep<T>(h: array<Entry<T>>, n: nat, cap: nat, e: Entry<T>, ghost offered: multiset<Entry<T>>) returns (n': nat)
    requires n <= cap && n <= h.Length && (n < cap ==> n < h.Length)
    requires IsHeap(Farthest, h[..], n) && Selects(cap, offered, Bag(h[..], n))
    modifies h
    ensures n' == (if n < cap then n + 1 else n)
    ensures IsHeap(Farthest, h[..], n') && Selects(cap, offered + multiset{e}, Bag(h[..], n'))
  {
    PushSelects(h[..], n, cap, e, offered);
    n' := MaxHeapPush(h, n, cap, e);
  }

  /** The bounded scan loop: heap needs room for min(k, rows) entries only. */
  method ScanInto<T>(rows: seq<Entry<T>>, k: nat, heap: array<Entry<T>>) returns (n: nat)
    requires Min(k, |rows|) <= heap.Length
    modifies heap
    ensures n <= heap.Length && Selects(k, multiset(rows), Bag(heap[..], n))
  {
    n := 0;
    SelectsEmpty<T>(k);
    ghost var offered: multiset<Entry<T>> := multiset{};
    for i := 0 to |rows|
      invariant n <= i && n <= k && n <= heap.Length && IsHeap(Farthest, heap[..], n)
      invariant offered == Bag(rows, i) && Selects(k, offered, Bag(heap[..], n))
    {
      BagNext(rows, i);
      n := Keep(heap, n, k, rows[i], offered);
      offered := offered + multiset{rows[i]};
    }
    assert rows[..|rows|] == rows;
  }

  // ---------- the min-heap ----------

  method MinHeapPush<T>(h: array<Entry<T>>, n: nat, e: Entry<T>) returns (n': nat)
    requires n < h.Length && IsHeap(Nearest, h[..], n)
    modifies h
    ensures n' == n + 1
    ensures IsHeap(Nearest, h[..], n') && Bag(h[..], n') == old(Bag(h[..], n)) + multiset{e}
  {
    Append(Nearest, h, n, e);
    n' := n + 1;
  }

  method MinHeapPop<T>(h: array<Entry<T>>, n: nat) returns (top: Entry<T>, n': nat)
    requires 0 < n <= h.Length && IsHeap(Nearest, h[..], n)
    modifies h
    ensures n' == n - 1 && top == old(h[0])
    ensures IsHeap(Nearest, h[..], n') && Bag(h[..], n') + multiset{top} == old(Bag(h[..], n))
  {
    top := h[0];
    n' := n - 1;
    ghost var t := h[..][0 := h[n']];
    LastMovedToRoot(h[..], n);
    h[0] := h[n'];
    assert h[..] == t;
    if n' > 0 {
      MoveDown(Nearest, h, n');
      DownRestores(Nearest, t, n', 0);
      DownPermutes(Nearest, t, n', 0);
    }
  }

  lemma LastMovedToRoot<T>(s: seq<Entry<T>>, n: nat)
    requires 0 < n <= |s| && IsHeap(Nearest, s, n)
    ensures n > 1 ==> HeapButDown(Nearest, s[0 := s[n - 1]], n - 1, 0)
    ensures Bag(s[0 := s[n - 1]], n - 1) + multiset{s[0]} == Bag(s, n)
  {
    var t := s[0 := s[n - 1]];
    if n > 1 {
      assert t[..n - 1] == [s[n - 1]] + s[1..n - 1];
      assert s[..n] == [s[0]] + s[1..n - 1] + [s[n - 1]];
    } else {
      assert s[..n] == [s[0]];
    }
  }

  // ---------- insertion sort by (distance, id) ----------

  /** t with its element i moved to its place among the first i. */
  function InsertAt<T>(t: seq<Entry<T>>, i: nat): (r: seq<Entry<T>>)
    requires i < |t|
    ensures |r| == |t|
  {
    Insert(t[..i], t[i]) + t[i + 1..]
  }

  method InsertLast<T>(a: array<Entry<T>>, i: nat)
    requires i < a.Length
    modifies a
    ensures a[..] == InsertAt(old(a[..]), i)
  {
    ghost var s := a[..];
    var x := a[i];
    var j := i;
    while j > 0 && (a[j - 1].dist > x.dist || (a[j - 1].dist == x.dist && a[j - 1].id > x.id))
      invariant j <= i
      invariant forall q :: 0 <= q < j || i < q < a.Length ==> a[q] == s[q]
      invariant forall q :: j < q <= i ==> a[q] == s[q - 1]
      invariant Place(s, x, i) == Place(s, x, j)
    {
      a[j] := a[j - 1];
      j := j - 1;
    }
    a[j] := x;
    InsertShape(s, a[..], i, j);
  }

  lemma InsertShape<T>(s: seq<Entry<T>>, t: seq<Entry<T>>, i: nat, j: nat)
    requires j <= i < |s| == |t| && t[j] == s[i] && j == Place(s, s[i], i)
    requires forall q :: 0 <= q < j || i < q < |s| ==> t[q] == s[q]
    requires forall q :: j < q <= i ==> t[q] == s[q - 1]
    ensures t == InsertAt(s, i)
  {
    PlaceInPrefix(s, s[i], i, i);
    MovedLeft(s, t, i, j);
    assert Insert(s[..i], s[i]) == s[..i][..j] + [s[i]] + s[..i][j..];
  }

  lemma MovedLeft<T>(s: seq<T>, t: seq<T>, i: nat, j: nat)
    requires j <= i < |s| == |t| && t[j] == s[i]
    requires forall q :: 0 <= q < j || i < q < |s| ==> t[q] == s[q]
    requires forall q :: j < q <= i ==> t[q] == s[q - 1]
    ensures t == s[..i][..j] + [s[i]] + s[..i][j..] + s[i + 1..]
  {
    var r := s[..i][..j] + [s[i]] + s[..i][j..] + s[i + 1..];
    assert |r| == |t|;
    forall q | 0 <= q < |t|
      ensures r[q] == t[q]
    {
    }
  }

  lemma {:induction false} PlaceInPrefix<T>(s: seq<Entry<T>>, x: Entry<T>, i: nat, j: nat)
    requires j <= i <= |s|
    ensures Place(s[..i], x, j) == Place(s, x, j)
  {
    if j > 0 {
      PlaceInPrefix(s, x, i, j - 1);
    }
  }

  /** The sort at the end of a search; its result is the specification's sorted list. */
  method InsertionSort<T>(a: array<Entry<T>>)
    modifies a
    ensures a[..] == Sort(old(a[..]))
  {
    ghost var s := a[..];
    var i := 0;
    while i < a.Length
      invariant i <= a.Length
      invariant a[..] == SortedTo(s, i)
    {
      SortNext(s, i);
      InsertLast(a, i);
      i := i + 1;
    }
    assert s[..i] == s;
  }

  function SortedTo<T>(s: seq<Entry<T>>, i: nat): (r: seq<Entry<T>>)
    requires i <= |s|
    ensures |r| == |s|
  {
    Sort(s[..i]) + s[i..]
  }

  lemma SortNext<T>(s: seq<Entry<T>>, i: nat)
    requires i < |s|
    ensures InsertAt(SortedTo(s, i), i) == SortedTo(s, i + 1)
  {
    var front, next := s[..i], s[..i + 1];
    var t := SortedTo(s, i);
    assert next[..i] == front;
    assert t[..i] == Sort(front) && t[i] == s[i] && t[i + 1..] == s[i + 1..];
    assert Sort(next) == Insert(Sort(front), s[i]);
  }

  /** Copies the first n entries out and sorts the copy. */
  method SortedCopy<T>(h: array<Entry<T>>, n: nat) returns (ranked: array<Entry<T>>)
    requires n <= h.Length
    ensures fresh(ranked) && ranked[..] == Sort(h[..][..n])
  {
    ghost var s := h[..][..n];
    ranked := new Entry<T>[n](i requires 0 <= i < n reads h => h[i]);
    assert ranked[..] == s;
    InsertionSort(ranked);
  }
}
