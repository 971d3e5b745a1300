/** pypdf_parser.py of maludb-pageindexd: flattening a nested PDF outline. A nested outline is a list of
    destinations, each optionally followed by the list of its children. */
module PdfOutline {
  import opened Options
  import opened Seqs
  import opened Outline

  datatype Node = Dest(title: string) | Kids(nodes: seq<Node>)

  /** An emitted entry without its page range. */
  datatype Item = Item(title: string, level: nat)

  /** The children of the destination at i: a non-empty list right after it. */
  predicate HasKids(nodes: seq<Node>, i: nat) {
    i + 1 < |nodes| && nodes[i + 1].Kids? && nodes[i + 1].nodes != []
  }

  /** What _walk_outline emits for nodes[i..] at a level. Lists with no destination before them are skipped. */
  function Flatten(nodes: seq<Node>, i: nat, level: nat): seq<Item>
    requires i <= |nodes|
    decreases nodes, |nodes| - i
  {
    if i == |nodes| then []
    else match nodes[i]
      case Kids(_) => Flatten(nodes, i + 1, level)
      case Dest(title) =>
        if HasKids(nodes, i)
        then [Item(title, level)] + (Flatten(nodes[i + 1].nodes, 0, level + 1) + Flatten(nodes, i + 2, level))
        else [Item(title, level)] + Flatten(nodes, i + 1, level)
  }

  /** The number of the destination each emitted entry was nested under; base is the next number. */
  function Nesting(nodes: seq<Node>, i: nat, base: nat, up: Option<nat>): seq<Option<nat>>
    requires i <= |nodes|
    decreases nodes, |nodes| - i
  {
    if i == |nodes| then []
    else match nodes[i]
      case Kids(_) => Nesting(nodes, i + 1, base, up)
      case Dest(title) =>
        if HasKids(nodes, i)
        then
          var kids := Nesting(nodes[i + 1].nodes, 0, base + 1, Some(base));
          [up] + (kids + Nesting(nodes, i + 2, base + 1 + |kids|, up))
        else [up] + Nesting(nodes, i + 1, base + 1, up)
  }

  function ItemLevels(s: seq<Item>): seq<nat> {
    Map((it: Item) => it.level, s)
  }

  // ---------- the walker ----------

  class Walker {
    var out: seq<OutlineEntry>
    var counter: nat

    constructor ()
      ensures out == [] && counter == 0
    {
      out := [];
      counter := 0;
    }

    /** _walk_outline; the page range of an entry is left at (1, 1). */
    method Walk(nodes: seq<Node>, level: nat)
      modifies this
      ensures out == old(out) + Numbers(Flatten(nodes, 0, level), old(counter))
      ensures counter == old(counter) + |Flatten(nodes, 0, level)|
      decreases nodes
    {
      var i: nat := 0;
      ghost var before, base, all := out, counter, Flatten(nodes, 0, level);
      ghost var done: seq<Item> := [];
      while i < |nodes|
        invariant i <= |nodes| && all == done + Flatten(nodes, i, level)
        invariant out == before + Numbers(done, base) && counter == base + |done|
      {
        if nodes[i].Kids? {
          i := i + 1;
          continue;
        }
        FlattenStep(nodes, i, level, done);
        Emit(nodes[i].title, level, before, done, base);
        done := done + [Item(nodes[i].title, level)];
        if HasKids(nodes, i) {
          ghost var kids := Flatten(nodes[i + 1].nodes, 0, level + 1);
          NumbersAppend(done, kids, base, before);
          Walk(nodes[i + 1].nodes, level + 1);
          done := done + kids;
          i := i + 2;
        } else {
          i := i + 1;
        }
      }
      assert done + [] == done;
    }

    /** Appends one entry with the next ordinal. */
    method Emit(title: string, level: nat, ghost before: seq<OutlineEntry>, ghost done: seq<Item>, ghost base: nat)
      requires out == before + Numbers(done, base) && counter == base + |done|
      modifies this
      ensures out == before + Numbers(done + [Item(title, level)], base) && counter == base + |done| + 1
    {
      var ordinal := counter;
      counter := counter + 1;
      out := out + [OutlineEntry(title, level, 1, 1, ordinal)];
      NumbersAppend(done, [Item(title, level)], base, before);
      assert Numbers([Item(title, level)], base + |done|) == [OutlineEntry(title, level, 1, 1, ordinal)];
    }
  }

  lemma FlattenStep(nodes: seq<Node>, i: nat, level: nat, done: seq<Item>)
    requires i < |nodes| && nodes[i].Dest?
    ensures var next := done + [Item(nodes[i].title, level)];
      done + Flatten(nodes, i, level) ==
      if HasKids(nodes, i) then next + Flatten(nodes[i + 1].nodes, 0, level + 1) + Flatten(nodes, i + 2, level)
      else next + Flatten(nodes, i + 1, level)
  {
  }

  function Numbers(s: seq<Item>, base: nat): (r: seq<OutlineEntry>)
    ensures |r| == |s|
    ensures forall k :: 0 <= k < |s| ==> r[k] == OutlineEntry(s[k].title, s[k].level, 1, 1, base + k)
  {
    seq(|s|, k requires 0 <= k < |s| => OutlineEntry(s[k].title, s[k].level, 1, 1, base + k))
  }

  lemma NumbersAppend(a: seq<Item>, b: seq<Item>, base: nat, before: seq<OutlineEntry>)
    ensures before + Numbers(a + b, base) == before + Numbers(a, base) + Numbers(b, base + |a|)
  {
    assert Numbers(a + b, base) == Numbers(a, base) + Numbers(b, base + |a|);
  }

  // ---------- flatten, then rebuild ----------

  lemma {:induction false} NestingSize(nodes: seq<Node>, i: nat, level: nat, base: nat, up: Option<nat>)
    requires i <= |nodes|
    ensures |Nesting(nodes, i, base, up)| == |Flatten(nodes, i, level)|
    decreases nodes, |nodes| - i
  {
    if i < |nodes| {
      if nodes[i].Kids? {
        NestingSize(nodes, i + 1, level, base, up);
      } else if HasKids(nodes, i) {
        NestingSize(nodes[i + 1].nodes, 0, level + 1, base + 1, Some(base));
        var kids := Nesting(nodes[i + 1].nodes, 0, base + 1, Some(base));
        NestingSize(nodes, i + 2, level, base + 1 + |kids|, up);
      } else {
        NestingSize(nodes, i + 1, level, base + 1, up);
      }
    }
  }

  lemma {:induction false} NeverShallower(nodes: seq<Node>, i: nat, level: nat)
    requires i <= |nodes|
    ensures forall k :: 0 <= k < |Flatten(nodes, i, level)| ==> Flatten(nodes, i, level)[k].level >= level
    decreases nodes, |nodes| - i
  {
    if i < |nodes| {
      if nodes[i].Kids? {
        NeverShallower(nodes, i + 1, level);
      } else if HasKids(nodes, i) {
        NeverShallower(nodes[i + 1].nodes, 0, level + 1);
        NeverShallower(nodes, i + 2, level);
      } else {
        NeverShallower(nodes, i + 1, level);
      }
    }
  }

  /** Before position base, the last entry at the level above is `up`. */
  ghost predicate Under(all: seq<nat>, base: nat, level: nat, up: Option<nat>)
    requires base <= |all|
  {
    match up
    case None => level == 0
    case Some(u) => level > 0 && u < base && all[u] == level - 1 && forall k :: u < k < base ==> all[k] >= level
  }

  /** These items stand at base in the list of all levels. */
  ghost predicate Stands(all: seq<nat>, base: nat, items: seq<Item>) {
    base + |items| <= |all| && forall k :: base <= k < base + |items| ==> all[k] == items[k - base].level
  }

  /** From base on, the builder's parents are these. */
  ghost predicate Rebuilt(all: seq<nat>, base: nat, nest: seq<Option<nat>>) {
    base + |nest| <= |all| && forall k :: base <= k < base + |nest| ==> Parent(all, k) == nest[k - base]
  }

  lemma StandsSplit(all: seq<nat>, base: nat, a: seq<Item>, b: seq<Item>)
    requires Stands(all, base, a + b)
    ensures Stands(all, base, a) && Stands(all, base + |a|, b)
  {
  }

  lemma RebuiltJoin(all: seq<nat>, base: nat, a: seq<Option<nat>>, b: seq<Option<nat>>)
    requires Rebuilt(all, base, a) && Rebuilt(all, base + |a|, b)
    ensures Rebuilt(all, base, a + b)
  {
  }

  lemma RebuiltOne(all: seq<nat>, base: nat, level: nat, up: Option<nat>)
    requires base < |all| && all[base] == level && Under(all, base, level, up)
    ensures Rebuilt(all, base, [up])
  {
  }

  lemma StillUnder(all: seq<nat>, base: nat, next: nat, level: nat, up: Option<nat>)
    requires base <= next <= |all| && Under(all, base, level, up)
    requires forall k :: base <= k < next ==> all[k] >= level
    ensures Under(all, next, level, up)
  {
  }

  /** The builder's parents of the entries emitted from nodes[i..], wherever they stand in the whole list. */
  lemma {:induction false} RebuildsFrom(nodes: seq<Node>, i: nat, level: nat, all: seq<nat>, base: nat, up: Option<nat>)
    requires i <= |nodes| && Stands(all, base, Flatten(nodes, i, level)) && Under(all, base, level, up)
    ensures Rebuilt(all, base, Nesting(nodes, i, base, up))
    decreases nodes, |nodes| - i
  {
    if i < |nodes| {
      if nodes[i].Kids? {
        RebuildsFrom(nodes, i + 1, level, all, base, up);
      } else {
        var here := [Item(nodes[i].title, level)];
        var rest := if HasKids(nodes, i)
                    then Flatten(nodes[i + 1].nodes, 0, level + 1) + Flatten(nodes, i + 2, level)
                    else Flatten(nodes, i + 1, level);
        StandsSplit(all, base, here, rest);
        assert all[base] == here[0].level;
        RebuiltOne(all, base, level, up);
        if HasKids(nodes, i) {
          RebuildsKids(nodes, i, level, all, base, up);
        } else {
          StillUnder(all, base, base + 1, level, up);
          RebuildsFrom(nodes, i + 1, level, all, base + 1, up);
          RebuiltJoin(all, base, [up], Nesting(nodes, i + 1, base + 1, up));
        }
      }
    }
  }

  lemma {:induction false} RebuildsKids(nodes: seq<Node>, i: nat, level: nat, all: seq<nat>, base: nat, up: Option<nat>)
    requires i < |nodes| && nodes[i].Dest? && HasKids(nodes, i) && base < |all| && all[base] == level
    requires Stands(all, base + 1, Flatten(nodes[i + 1].nodes, 0, level + 1) + Flatten(nodes, i + 2, level))
    requires Under(all, base, level, up) && Rebuilt(all, base, [up])
    ensures Rebuilt(all, base, Nesting(nodes, i, base, up))
    decreases nodes, |nodes| - i, 0
  {
    var kids := Flatten(nodes[i + 1].nodes, 0, level + 1);
    var next := base + 1 + |kids|;
    StandsSplit(all, base + 1, kids, Flatten(nodes, i + 2, level));
    RebuildsFrom(nodes[i + 1].nodes, 0, level + 1, all, base + 1, Some(base));
    KidsAreDeeper(nodes, i, level, all, base);
    StillUnder(all, base, next, level, up);
    RebuildsFrom(nodes, i + 2, level, all, next, up);
    JoinKids(nodes, i, level, all, base, up);
  }

  lemma JoinKids(nodes: seq<Node>, i: nat, level: nat, all: seq<nat>, base: nat, up: Option<nat>)
    requires i < |nodes| && nodes[i].Dest? && HasKids(nodes, i) && Rebuilt(all, base, [up])
    requires Rebuilt(all, base + 1, Nesting(nodes[i + 1].nodes, 0, base + 1, Some(base)))
    requires Rebuilt(all, base + 1 + |Flatten(nodes[i + 1].nodes, 0, level + 1)|,
      Nesting(nodes, i + 2, base + 1 + |Flatten(nodes[i + 1].nodes, 0, level + 1)|, up))
    ensures Rebuilt(all, base, Nesting(nodes, i, base, up))
  {
    var kids := Nesting(nodes[i + 1].nodes, 0, base + 1, Some(base));
    NestingSize(nodes[i + 1].nodes, 0, level + 1, base + 1, Some(base));
    var rest := Nesting(nodes, i + 2, base + 1 + |kids|, up);
    RebuiltJoin(all, base + 1, kids, rest);
    RebuiltJoin(all, base, [up], kids + rest);
  }

  lemma KidsAreDeeper(nodes: seq<Node>, i: nat, level: nat, all: seq<nat>, base: nat)
    requires HasKids(nodes, i) && base < |all| && all[base] == level
    requires Stands(all, base + 1, Flatten(nodes[i + 1].nodes, 0, level + 1))
    ensures forall k :: base <= k < base + 1 + |Flatten(nodes[i + 1].nodes, 0, level + 1)| ==> all[k] >= level
  {
    var kids := Flatten(nodes[i + 1].nodes, 0, level + 1);
    NeverShallower(nodes[i + 1].nodes, 0, level + 1);
    forall k | base < k < base + 1 + |kids|
      ensures all[k] >= level
    {
      assert all[k] == kids[k - base - 1].level;
    }
  }

  /** Flattening a nested outline and rebuilding its tree gives back the nesting: the builder's parent of every
      emitted entry is the destination it was nested under. */
  lemma FlattenThenRebuild(nodes: seq<Node>, k: nat)
    requires k < |Flatten(nodes, 0, 0)|
    ensures |Nesting(nodes, 0, 0, None)| == |Flatten(nodes, 0, 0)|
    ensures Parent(ItemLevels(Flatten(nodes, 0, 0)), k) == Nesting(nodes, 0, 0, None)[k]
  {
    NestingSize(nodes, 0, 0, 0, None);
    RebuildsFrom(nodes, 0, 0, ItemLevels(Flatten(nodes, 0, 0)), 0, None);
  }

  // ---------- the levels of a flattened outline ----------

  /** Levels of a stretch that starts at most one above what came before. */
  lemma {:induction false} FlattenIsGentle(nodes: seq<Node>, i: nat, level: nat)
    requires i <= |nodes|
    ensures Gentle(ItemLevels(Flatten(nodes, i, level)))
    ensures Flatten(nodes, i, level) != [] ==> Flatten(nodes, i, level)[0].level == level
    decreases nodes, |nodes| - i
  {
    if i < |nodes| {
      if nodes[i].Kids? {
        FlattenIsGentle(nodes, i + 1, level);
      } else {
        var here := [Item(nodes[i].title, level)];
        if HasKids(nodes, i) {
          var kids, rest := Flatten(nodes[i + 1].nodes, 0, level + 1), Flatten(nodes, i + 2, level);
          FlattenIsGentle(nodes[i + 1].nodes, 0, level + 1);
          FlattenIsGentle(nodes, i + 2, level);
          NeverShallower(nodes[i + 1].nodes, 0, level + 1);
          GentleJoin(kids, rest);
          GentleJoin(here, kids + rest);
        } else {
          FlattenIsGentle(nodes, i + 1, level);
          GentleJoin(here, Flatten(nodes, i + 1, level));
        }
      }
    }
  }

  lemma GentleJoin(a: seq<Item>, b: seq<Item>)
    requires Gentle(ItemLevels(a)) && Gentle(ItemLevels(b))
    requires a != [] && b != [] ==> b[0].level <= a[|a| - 1].level + 1
    ensures Gentle(ItemLevels(a + b))
  {
    var l, la, lb := ItemLevels(a + b), ItemLevels(a), ItemLevels(b);
    assert l == la + lb;
    forall j | 0 <= j < |l| - 1
      ensures l[j + 1] <= l[j] + 1
    {
      if j + 1 < |a| {
        assert la[j + 1] <= la[j] + 1;
      } else if j >= |a| {
        assert lb[j - |a| + 1] <= lb[j - |a|] + 1;
      }
    }
  }

  /** A whole outline is numbered 0.., starts at level 0 and never skips a level, so the builder's tree is right. */
  lemma EmittedOutline(nodes: seq<Node>)
    ensures var outline := Numbers(Flatten(nodes, 0, 0), 0);
      && Numbered(outline) && Gentle(Levels(outline))
      && (outline != [] ==> outline[0].level == 0)
      && Levels(outline) == ItemLevels(Flatten(nodes, 0, 0))
  {
    FlattenIsGentle(nodes, 0, 0);
    assert Levels(Numbers(Flatten(nodes, 0, 0), 0)) == ItemLevels(Flatten(nodes, 0, 0));
  }

  // ---------- nothing is lost ----------

  /** Every destination of nodes[i..] in document order, with the number of lists around it. */
  function AllItems(nodes: seq<Node>, i: nat, depth: nat): seq<Item>
    requires i <= |nodes|
    decreases nodes, |nodes| - i
  {
    if i == |nodes| then []
    else (match nodes[i]
      case Dest(title) => [Item(title, depth)]
      case Kids(kids) => AllItems(kids, 0, depth + 1)) + AllItems(nodes, i + 1, depth)
  }

  /** In nodes[i..] and below, every list that holds a destination comes right after one. */
  ghost predicate Attached(nodes: seq<Node>, i: nat)
    requires i <= |nodes|
    decreases nodes
  {
    forall j {:trigger nodes[j]} :: i <= j < |nodes| && nodes[j].Kids? && AllItems(nodes[j].nodes, 0, 0) != [] ==>
      j > 0 && nodes[j - 1].Dest? && Attached(nodes[j].nodes, 0)
  }

  /** Where the walk can stand: past a list only if the destination before it had it as its children. */
  predicate Reached(nodes: seq<Node>, i: nat) {
    i == 0 || i >= |nodes| || nodes[i].Dest? || nodes[i - 1].Kids? || nodes[i].nodes == []
  }

  lemma {:induction false} SameCount(nodes: seq<Node>, i: nat, d: nat, e: nat)
    requires i <= |nodes|
    ensures |AllItems(nodes, i, d)| == |AllItems(nodes, i, e)|
    decreases nodes, |nodes| - i
  {
    if i < |nodes| {
      SameCount(nodes, i + 1, d, e);
      if nodes[i].Kids? {
        SameCount(nodes[i].nodes, 0, d + 1, e + 1);
      }
    }
  }

  lemma PartsMatch<T>(a: seq<T>, b: seq<T>, c: seq<T>, d: seq<T>)
    requires |a| <= |c| && |b| <= |d|
    ensures a + b == c + d <==> a == c && b == d
  {
    if a + b == c + d {
      assert |a + b| == |c + d|;
      assert a == (a + b)[..|a|] && c == (c + d)[..|a|];
      assert b == (a + b)[|a|..] && d == (c + d)[|a|..];
    }
  }

  /** The walk never emits more than there is. */
  lemma {:induction false} EmitsNoMore(nodes: seq<Node>, i: nat, level: nat)
    requires i <= |nodes|
    ensures |Flatten(nodes, i, level)| <= |AllItems(nodes, i, level)|
    decreases nodes, |nodes| - i
  {
    if i < |nodes| {
      EmitsNoMore(nodes, i + 1, level);
      if nodes[i].Dest? && HasKids(nodes, i) {
        EmitsNoMore(nodes[i + 1].nodes, 0, level + 1);
        EmitsNoMore(nodes, i + 2, level);
      }
    }
  }

  /** The list at i, if it is one with destinations, follows a destination and is attached inside. */
  ghost predicate AttachedAt(nodes: seq<Node>, i: nat, level: nat)
    requires i < |nodes|
  {
    nodes[i].Kids? && AllItems(nodes[i].nodes, 0, level) != [] ==>
      i > 0 && nodes[i - 1].Dest? && Attached(nodes[i].nodes, 0)
  }

  lemma AttachedNext(nodes: seq<Node>, i: nat, level: nat)
    requires i < |nodes|
    ensures Attached(nodes, i) <==> Attached(nodes, i + 1) && AttachedAt(nodes, i, level)
  {
    if nodes[i].Kids? {
      SameCount(nodes[i].nodes, 0, 0, level);
    }
  }

  lemma SkipsOrphan(nodes: seq<Node>, i: nat, level: nat)
    requires i < |nodes| && Reached(nodes, i) && nodes[i].Kids?
    requires Flatten(nodes, i + 1, level) == AllItems(nodes, i + 1, level) <==> Attached(nodes, i + 1)
    ensures Flatten(nodes, i, level) == AllItems(nodes, i, level) <==> Attached(nodes, i)
  {
    var rest, all := Flatten(nodes, i + 1, level), AllItems(nodes, i + 1, level);
    var inner := AllItems(nodes[i].nodes, 0, level + 1);
    AttachedNext(nodes, i, level + 1);
    EmitsNoMore(nodes, i + 1, level);
    PartsMatch([], rest, inner, all);
    assert [] + rest == rest;
  }

  lemma EmitsLeaf(nodes: seq<Node>, i: nat, level: nat)
    requires i < |nodes| && nodes[i].Dest? && !HasKids(nodes, i)
    requires Flatten(nodes, i + 1, level) == AllItems(nodes, i + 1, level) <==> Attached(nodes, i + 1)
    ensures Flatten(nodes, i, level) == AllItems(nodes, i, level) <==> Attached(nodes, i)
  {
    var here := [Item(nodes[i].title, level)];
    AttachedNext(nodes, i, level + 1);
    EmitsNoMore(nodes, i + 1, level);
    PartsMatch(here, Flatten(nodes, i + 1, level), here, AllItems(nodes, i + 1, level));
  }

  lemma {:induction false} EmitsAllFrom(nodes: seq<Node>, i: nat, level: nat)
    requires i <= |nodes| && Reached(nodes, i)
    ensures Flatten(nodes, i, level) == AllItems(nodes, i, level) <==> Attached(nodes, i)
    decreases nodes, |nodes| - i
  {
    if i < |nodes| {
      if nodes[i].Dest? && HasKids(nodes, i) {
        EmitsKids(nodes, i, level);
      } else {
        EmitsAllFrom(nodes, i + 1, level);
        if nodes[i].Kids? {
          SkipsOrphan(nodes, i, level);
        } else {
          EmitsLeaf(nodes, i, level);
        }
      }
    }
  }

  lemma {:induction false} EmitsKids(nodes: seq<Node>, i: nat, level: nat)
    requires i < |nodes| && nodes[i].Dest? && HasKids(nodes, i)
    ensures Flatten(nodes, i, level) == AllItems(nodes, i, level) <==> Attached(nodes, i)
    decreases nodes, |nodes| - i, 0
  {
    var here, inner := [Item(nodes[i].title, level)], nodes[i + 1].nodes;
    var kids, rest := Flatten(inner, 0, level + 1), Flatten(nodes, i + 2, level);
    var allKids, all := AllItems(inner, 0, level + 1), AllItems(nodes, i + 2, level);
    EmitsAllFrom(inner, 0, level + 1);
    EmitsAllFrom(nodes, i + 2, level);
    EmitsNoMore(inner, 0, level + 1);
    EmitsNoMore(nodes, i + 2, level);
    PartsMatch(kids, rest, allKids, all);
    PartsMatch(here, kids + rest, here, allKids + all);
    AttachedNext(nodes, i, level + 1);
    AttachedNext(nodes, i + 1, level + 1);
  }

  /** The outline emitted for a document holds every destination once, in order and at its depth, if and only if every
      list of destinations comes right after the destination it belongs to. */
  lemma EmitsAllIff(nodes: seq<Node>, level: nat)
    ensures Flatten(nodes, 0, level) == AllItems(nodes, 0, level) <==> Attached(nodes, 0)
  {
    EmitsAllFrom(nodes, 0, level);
  }

  /** A list with no destination before it is left out. */
  lemma OrphanExample()
    ensures Flatten([Kids([Dest("A")]), Dest("B")], 0, 0) == [Item("B", 0)]
    ensures AllItems([Kids([Dest("A")]), Dest("B")], 0, 0) == [Item("A", 1), Item("B", 0)]
  {
    var nodes := [Kids([Dest("A")]), Dest("B")];
    assert Flatten(nodes, 1, 0) == [Item("B", 0)];
    assert AllItems(nodes[0].nodes, 0, 1) == [Item("A", 1)];
    assert AllItems(nodes, 1, 0) == [Item("B", 0)];
  }
}
