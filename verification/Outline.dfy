/** builder.py of maludb-pageindexd: recovering the tree from a flat outline. An outline is read through the
    levels of its entries; entry i is the i-th of the list. */
module Outline {
  import opened Options
  import opened Seqs

  /** One entry; first and last are its line or page range. */
  datatype OutlineEntry = OutlineEntry(title: string, level: nat, first: int, last: int, ordinal: nat)

  function Levels(outline: seq<OutlineEntry>): seq<nat> {
    Map((e: OutlineEntry) => e.level, outline)
  }

  /** Ordinals are positions, so entries are pairwise different. */
  ghost predicate Numbered(outline: seq<OutlineEntry>) {
    forall i :: 0 <= i < |outline| ==> outline[i].ordinal == i
  }

  // ---------- what the builder computes ----------

  /** The last entry before i at level want. */
  function LastAt(levels: seq<nat>, i: nat, want: nat): (r: Option<nat>)
    requires i <= |levels|
    ensures r.Some? ==> r.value < i && levels[r.value] == want && forall k :: r.value < k < i ==> levels[k] != want
    ensures r.None? ==> forall k :: 0 <= k < i ==> levels[k] != want
  {
    if i == 0 then None else if levels[i - 1] == want then Some(i - 1) else LastAt(levels, i - 1, want)
  }

  /** The builder's parent of entry i. */
  function Parent(levels: seq<nat>, i: nat): Option<nat>
    requires i < |levels|
  {
    if levels[i] == 0 then None else LastAt(levels, i, levels[i] - 1)
  }

  /** The builder's leaf test, from position j on. */
  predicate LeafFrom(levels: seq<nat>, level: nat, j: nat)
    requires j <= |levels|
    decreases |levels| - j
  {
    if j == |levels| || levels[j] <= level then true
    else if levels[j] == level + 1 then false
    else LeafFrom(levels, level, j + 1)
  }

  predicate IsLeaf(levels: seq<nat>, i: nat)
    requires i < |levels|
  {
    LeafFrom(levels, levels[i], i + 1)
  }

  // ---------- what a tree should look like ----------

  /** Entry j lies in the stretch that entry i opens: only deeper entries up to and including j. */
  ghost predicate Encloses(levels: seq<nat>, i: nat, j: nat)
    requires j < |levels|
  {
    i < j && forall k :: i < k <= j ==> levels[i] < levels[k]
  }

  /** The tightest enclosing entry, if any. */
  ghost predicate IsTightest(levels: seq<nat>, j: nat, p: Option<nat>)
    requires j < |levels|
  {
    match p
    case None => forall i :: 0 <= i < j ==> !Encloses(levels, i, j)
    case Some(i) => Encloses(levels, i, j) && forall k :: i < k < j ==> !Encloses(levels, k, j)
  }

  /** Levels never rise by more than one. */
  ghost predicate Gentle(levels: seq<nat>) {
    forall j :: 0 <= j < |levels| - 1 ==> levels[j + 1] <= levels[j] + 1
  }

  // ---------- the builder's parent is the tightest enclosing entry ----------

  /** Climbing from below a level to above it passes through it. */
  lemma {:induction false} PassesThrough(levels: seq<nat>, a: nat, b: nat, want: nat) returns (k: nat)
    requires Gentle(levels) && a < b < |levels| && levels[a] <= want < levels[b]
    ensures a <= k < b && levels[k] == want
    ensures forall x :: k < x <= b ==> levels[x] > want
  {
    if levels[b - 1] <= want {
      assert levels[b - 1 + 1] <= levels[b - 1] + 1;
      k := b - 1;
    } else {
      k := PassesThrough(levels, a, b - 1, want);
    }
  }

  lemma GentleParent(levels: seq<nat>, j: nat)
    requires Gentle(levels) && j < |levels|
    ensures IsTightest(levels, j, Parent(levels, j))
  {
    var p := Parent(levels, j);
    if p.None? {
      forall i | 0 <= i < j
        ensures !Encloses(levels, i, j)
      {
        if levels[i] < levels[j] {
          var k := PassesThrough(levels, i, j, levels[j] - 1);
        }
      }
    } else {
      var k := PassesThrough(levels, p.value, j, levels[j] - 1);
      assert k == p.value;
    }
  }

  /** Where a level is skipped, the builder misses the tightest enclosing entry. */
  lemma SkipBreaksParent(levels: seq<nat>, j: nat)
    requires 0 <= j < |levels| - 1 && levels[j + 1] > levels[j] + 1
    ensures !IsTightest(levels, j + 1, Parent(levels, j + 1))
  {
    assert Encloses(levels, j, j + 1);
  }

  /** Exactly the outlines that never rise by more than one level get a correct tree. */
  lemma ParentIsTightestIffGentle(levels: seq<nat>)
    ensures (forall j :: 0 <= j < |levels| ==> IsTightest(levels, j, Parent(levels, j))) <==> Gentle(levels)
  {
    if Gentle(levels) {
      forall j | 0 <= j < |levels|
        ensures IsTightest(levels, j, Parent(levels, j))
      {
        GentleParent(levels, j);
      }
    } else {
      var j :| 0 <= j < |levels| - 1 && levels[j + 1] > levels[j] + 1;
      SkipBreaksParent(levels, j);
    }
  }

  lemma SkippedLevelExample()
    ensures Parent([1, 0, 2], 2) == Some(0) && !Encloses([1, 0, 2], 0, 2)
    ensures IsLeaf([1, 0, 2], 0)
  {
    assert LastAt([1, 0, 2], 1, 1) == Some(0);
    assert [1, 0, 2][1] == 0;
  }

  // ---------- leaves ----------

  lemma {:induction false} LeafScan(levels: seq<nat>, i: nat, j: nat)
    requires i < j <= |levels| && forall k :: i < k < j ==> levels[k] > levels[i] + 1
    ensures LeafFrom(levels, levels[i], j)
       <==> forall c :: i < c < |levels| && Parent(levels, c) == Some(i) ==> !Encloses(levels, i, c)
    decreases |levels| - j
  {
    if j == |levels| {
    } else if levels[j] <= levels[i] {
      forall c | i < c < |levels| && Parent(levels, c) == Some(i)
        ensures !Encloses(levels, i, c)
      {
      }
    } else if levels[j] == levels[i] + 1 {
      assert Encloses(levels, i, j);
      assert Parent(levels, j) == Some(i);
    } else {
      LeafScan(levels, i, j + 1);
    }
  }

  /** For every outline, an entry is a leaf exactly when no entry inside its stretch has it as parent. */
  lemma LeafMeansNoEnclosedChild(levels: seq<nat>, i: nat)
    requires i < |levels|
    ensures IsLeaf(levels, i)
       <==> forall c :: i < c < |levels| && Parent(levels, c) == Some(i) ==> !Encloses(levels, i, c)
  {
    LeafScan(levels, i, i + 1);
  }

  /** The leaf as its documentation has it: no deeper entry before the next one at this level or shallower. */
  ghost predicate DocumentedLeaf(levels: seq<nat>, i: nat)
    requires i < |levels|
  {
    forall k :: i < k < |levels| ==> !Encloses(levels, i, k)
  }

  /** The stretch of the entry is empty or has an entry exactly one level deeper. */
  ghost predicate StepsDown(levels: seq<nat>, i: nat)
    requires i < |levels|
  {
    i + 1 < |levels| && levels[i + 1] > levels[i] ==>
      exists k :: i < k < |levels| && Encloses(levels, i, k) && levels[k] == levels[i] + 1
  }

  lemma DocumentedLeafIsNext(levels: seq<nat>, i: nat)
    requires i < |levels|
    ensures DocumentedLeaf(levels, i) <==> i + 1 == |levels| || levels[i + 1] <= levels[i]
  {
    if i + 1 < |levels| && levels[i + 1] > levels[i] {
      assert Encloses(levels, i, i + 1);
    }
  }

  lemma {:induction false} StretchScan(levels: seq<nat>, i: nat, j: nat)
    requires i < j <= |levels| && forall k :: i < k < j ==> levels[k] > levels[i] + 1
    ensures LeafFrom(levels, levels[i], j)
       <==> forall k :: i < k < |levels| && Encloses(levels, i, k) ==> levels[k] != levels[i] + 1
    decreases |levels| - j
  {
    if j < |levels| && levels[j] == levels[i] + 1 {
      assert Encloses(levels, i, j);
    } else if j < |levels| && levels[j] > levels[i] {
      StretchScan(levels, i, j + 1);
    }
  }

  /** Code and documentation agree on an entry exactly when its stretch is empty or steps down by one somewhere. */
  lemma LeafAsDocumentedIff(levels: seq<nat>, i: nat)
    requires i < |levels|
    ensures (IsLeaf(levels, i) <==> DocumentedLeaf(levels, i)) <==> StepsDown(levels, i)
  {
    StretchScan(levels, i, i + 1);
    DocumentedLeafIsNext(levels, i);
  }

  /** They agree on all entries exactly when all stretches do, which covers outlines that skip no level. */
  lemma LeavesAsDocumentedIff(levels: seq<nat>)
    ensures (forall i :: 0 <= i < |levels| ==> (IsLeaf(levels, i) <==> DocumentedLeaf(levels, i)))
       <==> (forall i :: 0 <= i < |levels| ==> StepsDown(levels, i))
    ensures Gentle(levels) ==> forall i :: 0 <= i < |levels| ==> StepsDown(levels, i)
  {
    forall i | 0 <= i < |levels|
      ensures (IsLeaf(levels, i) <==> DocumentedLeaf(levels, i)) <==> StepsDown(levels, i)
      ensures Gentle(levels) ==> StepsDown(levels, i)
    {
      LeafAsDocumentedIff(levels, i);
      if Gentle(levels) && i + 1 < |levels| && levels[i + 1] > levels[i] {
        assert Encloses(levels, i, i + 1);
      }
    }
  }

  /** Below the first entry there is a deeper one, and still the code calls it a leaf. */
  lemma UndocumentedLeafExample()
    ensures IsLeaf([0, 2], 0) && !DocumentedLeaf([0, 2], 0)
  {
    DocumentedLeafIsNext([0, 2], 0);
    assert LeafFrom([0, 2], 0, 2);
  }

  /** When no level is skipped, an entry is a leaf exactly when nobody has it as parent. */
  lemma LeafMeansChildless(levels: seq<nat>, i: nat)
    requires Gentle(levels) && i < |levels|
    ensures IsLeaf(levels, i) <==> forall c :: 0 <= c < |levels| ==> Parent(levels, c) != Some(i)
  {
    LeafMeansNoEnclosedChild(levels, i);
    forall c | 0 <= c < |levels| && Parent(levels, c) == Some(i)
      ensures i < c && Encloses(levels, i, c)
    {
      GentleParent(levels, c);
    }
  }

  // ---------- the builder's searches ----------

  /** list.index: the first equal entry. */
  method IndexOf(entry: OutlineEntry, outline: seq<OutlineEntry>) returns (idx: nat)
    requires entry in outline
    ensures idx < |outline| && outline[idx] == entry && entry !in outline[..idx]
  {
    idx := 0;
    ghost var at :| 0 <= at < |outline| && outline[at] == entry;
    while outline[idx] != entry
      invariant idx <= at && entry !in outline[..idx]
      decreases at - idx
    {
      idx := idx + 1;
    }
  }

  /** _is_leaf_in_outline. */
  method IsLeafInOutline(entry: OutlineEntry, outline: seq<OutlineEntry>) returns (leaf: bool)
    requires Numbered(outline) && entry in outline
    ensures entry.ordinal < |outline| && leaf == IsLeaf(Levels(outline), entry.ordinal)
  {
    var idx := IndexOf(entry, outline);
    ghost var levels := Levels(outline);
    var j := idx + 1;
    while j < |outline|
      invariant idx < j <= |outline|
      invariant IsLeaf(levels, idx) == LeafFrom(levels, levels[idx], j)
    {
      if outline[j].level <= entry.level {
        return true;
      }
      if outline[j].level == entry.level + 1 {
        return false;
      }
      j := j + 1;
    }
    return true;
  }

  /** The backward search shared by _resolve_parent_mdo and _parent_title. */
  method FindParent(entry: OutlineEntry, outline: seq<OutlineEntry>) returns (parent: Option<nat>)
    requires Numbered(outline) && entry in outline
    ensures entry.ordinal < |outline| && parent == Parent(Levels(outline), entry.ordinal)
  {
    var idx := IndexOf(entry, outline);
    if entry.level == 0 {
      return None;
    }
    ghost var levels := Levels(outline);
    var j: nat := idx;
    while j > 0
      invariant j <= idx && Parent(levels, idx) == LastAt(levels, j, entry.level - 1)
    {
      j := j - 1;
      if outline[j].level == entry.level - 1 {
        return Some(j);
      }
    }
    return None;
  }

  /** The node loop of build_tree: ids[i] is the id the database hands out for entry i, and parents[i] is the
      parent id written with it. */
  method BuildNodes(outline: seq<OutlineEntry>, ids: seq<int>) returns (parents: seq<Option<int>>, leaves: seq<bool>)
    requires Numbered(outline) && |ids| == |outline|
    ensures |parents| == |leaves| == |outline|
    ensures forall i :: 0 <= i < |outline| ==> leaves[i] == IsLeaf(Levels(outline), i)
    ensures forall i :: 0 <= i < |outline| ==>
      parents[i] == match Parent(Levels(outline), i) case None => None case Some(p) => Some(ids[p])
  {
    parents, leaves := [], [];
    var mdoForEntry: map<nat, int> := map[];
    ghost var levels := Levels(outline);
    for i := 0 to |outline|
      invariant |parents| == |leaves| == i
      invariant forall p :: 0 <= p < i ==> p in mdoForEntry && mdoForEntry[p] == ids[p]
      invariant forall k :: 0 <= k < i ==> leaves[k] == IsLeaf(levels, k)
      invariant forall k :: 0 <= k < i ==>
        parents[k] == match Parent(levels, k) case None => None case Some(p) => Some(ids[p])
    {
      var p := FindParent(outline[i], outline);
      var leaf := IsLeafInOutline(outline[i], outline);
      var mdo := if p.Some? && p.value in mdoForEntry then Some(mdoForEntry[p.value]) else None;
      parents, leaves := parents + [mdo], leaves + [leaf];
      mdoForEntry := mdoForEntry[outline[i].ordinal := ids[i]];
    }
  }
}
