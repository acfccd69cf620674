/** Trees without empty tables: every operation keeps them, in them a refused map is a real
    conflict, and mapping is undone exactly by unmapping. */
module Tightness {
  import opened Basics
  import opened PageSizes
  import opened Geometries
  import opened Entries
  import opened Memory
  import opened Trie
  import opened Translation
  import opened Tlb
  import opened Histories
  import opened MapWalks
  import opened Queries
  import opened Pruning
  import opened Splitting
  import opened Teardown
  import opened Exactness
  import opened Walker

  /** In a tight tree every position has a leaf at it or below it. */
  lemma {:induction false} LeafBelow<W(!new), F(!new)>(c: Config<W, F>, view: View<F>, root: nat, p: Path)
      returns (q: Path)
    requires TreeOk(c, view, root) && Tight(view) && p in view && p != Root
    ensures IsLeaf(view, q) && Under(p, q)
    decreases TableLevel(c.geo, p) + 1
  {
    hide LeafOk;
    SlotKinds(c, view, root, p);
    if IsLeaf(view, p) {
      q := p;
    } else {
      assert HasChild(view, p);
      var j: nat :| Step(p, j) in view;
      assert SlotOk(c, p, view[p]);
      q := LeafBelow(c, view, root, Step(p, j));
      UnderTrans(p, j, q);
    }
  }

  /** What lies under a position is walked to through it. */
  lemma {:induction false} WalkedThrough(g: Geometry, p: Path, q: Path, a: nat, l: nat)
    requires Under(p, q) && l <= g.levels && g.PathOf(a, l) == q
    ensures LevelOf(p) <= g.levels && g.PathOf(a, g.levels - LevelOf(p)) == p
    decreases q
  {
    if q != p {
      WalkedThrough(g, p, q.up, a, l + 1);
    }
  }

  /** A leaf of the tree translates the address its block starts at. */
  lemma {:induction false} LeafTranslates<W(!new), F(!new)>(
      c: Config<W, F>, m: map<nat, seq<W>>, view: View<F>, root: nat, q: Path) returns (a: nat)
    requires c.geo.Lawful() && Represents(c, m, view, root) && IsLeaf(view, q)
    ensures c.geo.VaddrIsValid(a) && Xlate(c, m, root, a).Some?
    ensures 1 <= LevelOf(q) <= c.geo.levels && c.geo.PathOf(a, c.geo.levels - LevelOf(q)) == q
  {
    hide Matches;
    hide TreeOk;
    hide StartsBlock;
    LocatedLeaf(c, view, root, q);
    var start: nat :| StartsBlock(c.geo, start, q);
    a := start;
    StartSelects(c.geo, a, q);
    XlateIsLookup(c, m, view, root, a);
    LookupAtLeaf(c, view, root, a, TableLevel(c.geo, q) + 1, c.geo.levels);
  }

  lemma {:induction false} LocatedLeaf<W(!new), F(!new)>(c: Config<W, F>, view: View<F>, root: nat, q: Path)
    requires TreeOk(c, view, root) && IsLeaf(view, q)
    ensures 1 <= LevelOf(q) <= c.geo.levels && Located(c.geo, q)
  {
    hide Located;
    assert SlotOk(c, q, view[q]);
  }

  lemma {:induction false} StartSelects(g: Geometry, a: nat, q: Path)
    requires StartsBlock(g, a, q)
    ensures LevelOf(q) <= g.levels && g.VaddrIsValid(a) && g.PathOf(a, g.levels - LevelOf(q)) == q
  {
  }

  /** Something of the tree at the block's slot means a translated address in the block. */
  lemma {:induction false} SlotTranslates<W(!new), F(!new)>(
      c: Config<W, F>, m: map<nat, seq<W>>, view: View<F>, root: nat, range: AddrRange, target: nat) returns (a: nat)
    requires c.geo.Lawful() && Represents(c, m, view, root) && Tight(view) && IsBlock(c.geo, range, target)
    requires c.geo.PathOf(range.start, target - 1) in view
    ensures range.Contains(a) && Xlate(c, m, root, a).Some?
  {
    hide Matches;
    hide TreeOk;
    hide Canonical;
    hide Tight;
    var p := c.geo.PathOf(range.start, target - 1);
    var q := LeafBelow(c, view, root, p);
    a := LeafTranslates(c, m, view, root, q);
    WalkedThrough(c.geo, p, q, a, c.geo.levels - LevelOf(q));
    BlockSlot(c.geo, range, target, a);
  }

  /** In a tight tree something is in the way of a leaf exactly when some address of its
      range is translated. */
  lemma {:induction false} ConflictIff<W(!new), F(!new)>(
      c: Config<W, F>, m: map<nat, seq<W>>, view: View<F>, root: nat, range: AddrRange, target: nat)
    requires c.geo.Lawful() && Represents(c, m, view, root) && Tight(view) && IsBlock(c.geo, range, target)
    ensures InTheWay(c.geo, view, range.start, target) <==>
            exists a: nat :: range.Contains(a) && Xlate(c, m, root, a).Some?
  {
    hide Matches;
    hide TreeOk;
    hide Canonical;
    hide Xlate;
    var v := range.start;
    if InTheWay(c.geo, view, v, target) {
      if c.geo.PathOf(v, target - 1) in view {
        var a := SlotTranslates(c, m, view, root, range, target);
      } else {
        var k: nat :| target <= k < c.geo.levels && IsLeaf(view, c.geo.PathOf(v, k));
        XlateIsLookup(c, m, view, root, v);
        LookupAtLeaf(c, view, root, v, k + 1, c.geo.levels);
        assert range.Contains(v);
      }
    }
    if a: nat :| range.Contains(a) && Xlate(c, m, root, a).Some? {
      TranslatedIsInTheWay(c, m, view, root, range, target, a);
    }
  }

  lemma {:induction false} TranslatedIsInTheWay<W(!new), F(!new)>(
      c: Config<W, F>, m: map<nat, seq<W>>, view: View<F>, root: nat, range: AddrRange, target: nat, a: nat)
    requires c.geo.Lawful() && Represents(c, m, view, root) && IsBlock(c.geo, range, target)
    requires range.Contains(a) && Xlate(c, m, root, a).Some?
    ensures InTheWay(c.geo, view, range.start, target)
  {
    hide Matches;
    hide TreeOk;
    hide Canonical;
    hide Xlate;
    hide Geometry.LevelSupportsLeaf;
    hide Geometry.Lawful;
    hide Geometry.Span;
    XlateIsLookup(c, m, view, root, a);
    LookupByLevel(c.geo, view, a, c.geo.levels);
    var l := LeafLevel(c.geo, view, a, c.geo.levels);
    BlockSlot(c.geo, range, target, a);
    if l <= target {
      WalkedAbove(c, view, root, a, l - 1, target - 1);
    } else {
      SamePathAbove(c.geo, a, range.start, target - 1, l - 1);
    }
  }

  /** The exact meaning of the conflict answer: with a tight tree, mapping a leaf is refused
      as already mapped exactly when some address of its range is translated. */
  lemma {:induction false} RefusedIffTranslated<W(!new), F(!new)>(
      c: Config<W, F>, root: nat, foreign: map<nat, seq<W>>, dirty: iset<nat>,
      range: AddrRange, paddr: nat, flags: F, size: PageSize, target: nat,
      s: Store<W>, view: View<F>, s1: Store<W>, after: View<F>, r: Result<()>)
    requires ConfigOk(c) && Sound(c, s, view, root, foreign, dirty) && Tight(view)
    requires LeafRequest(c, range, paddr, flags, size, target)
    requires MapOutcome(c, root, foreign, dirty, range, paddr, flags, target, s, view, s1, after, r)
    ensures r == Err(AlreadyMapped) <==> exists a: nat :: range.Contains(a) && Xlate(c, s.words, root, a).Some?
  {
    hide Lawful;
    hide AllocatorOk;
    hide InTheWay;
    hide IsBlock;
    hide Represents;
    hide Xlate;
    ConflictIff(c, s.words, view, root, range, target);
  }

  /** A successful map keeps the tree tight. */
  lemma {:induction false} TightAfterMap<W(!new), F(!new)>(
      c: Config<W, F>, root: nat, foreign: map<nat, seq<W>>, dirty: iset<nat>,
      range: AddrRange, paddr: nat, flags: F, target: nat,
      s: Store<W>, view: View<F>, s1: Store<W>, after: View<F>, r: Result<()>)
    requires ConfigOk(c) && 1 <= target <= c.geo.levels && Tight(view)
    requires MapOutcome(c, root, foreign, dirty, range, paddr, flags, target, s, view, s1, after, r)
    requires r.Ok? || r.error == AlreadyMapped
    ensures Tight(after)
  {
    hide Lawful;
    hide AllocatorOk;
    hide InTheWay;
    hide OneChange;
    hide NoChange;
    hide AgreeOutside;
    hide MapsTo;
    hide Sound;
    hide TreeOk;
    hide ConfigOk;
    hide Geometry.IndexAt;
    hide Codec.Norm;
    hide Codec.Decode;
    if r.Ok? {
      SoundTree(c, s1, after, root, foreign, dirty + AddressesOf(range));
      var v, p := range.start, c.geo.PathOf(range.start, target - 1);
      forall q | IsTable(after, q) && q != Root ensures HasChild(after, q) {
        if q in view {
          assert (after - {p})[q] == view[q];
          assert HasChild(view, q);
          var j: nat :| Step(q, j) in view;
          assert Step(q, j) in after - {p};
        } else {
          var k := TableLevel(c.geo, q);
          assert q in after - {p};
          WalkedAbove(c, after, root, v, target - 1, k - 1);
          assert c.geo.PathOf(v, k - 1) == Step(q, c.geo.IndexAt(k, v));
        }
      }
    }
  }

  /** Of the tables linked on a walk, the lowest has no entry. */
  lemma {:induction false} LowestIsEmpty<W(!new), F(!new)>(
      c: Config<W, F>, view: View<F>, grown: View<F>, root: nat, v: nat, low: nat, k: nat)
    requires TreeOk(c, view, root) && Grew(c.geo, view, grown, v, low) && low <= k < c.geo.levels
    requires c.geo.PathOf(v, k) in grown && c.geo.PathOf(v, k) !in view
    ensures !Tight(grown)
    decreases k
  {
    hide SlotOk;
    hide Geometry.PathOf;
    var p := c.geo.PathOf(v, k);
    if k > low && c.geo.PathOf(v, k - 1) in grown && c.geo.PathOf(v, k - 1) !in view {
      LowestIsEmpty(c, view, grown, root, v, low, k - 1);
    } else {
      forall j: nat ensures Step(p, j) !in grown {
        assert LevelOf(Step(p, j)) == LevelOf(p) + 1;
        assert Step(p, j) in view ==> ChildOk(c, view, p, j);
      }
      assert IsTable(grown, p) && !HasChild(grown, p);
    }
  }

  /** Mapping one leaf in a tight tree leaves a tree that is not tight exactly when a frame is
      refused after another one has been granted: the tree stays tight if the first frame
      asked for is refused. */
  lemma {:induction false} TightIffNotStranded<W(!new), F(!new)>(
      c: Config<W, F>, root: nat, foreign: map<nat, seq<W>>, dirty: iset<nat>,
      range: AddrRange, paddr: nat, flags: F, target: nat,
      s: Store<W>, view: View<F>, s1: Store<W>, after: View<F>, r: Result<()>)
    requires ConfigOk(c) && Sound(c, s, view, root, foreign, dirty) && 1 <= target <= c.geo.levels && Tight(view)
    requires MapOutcome(c, root, foreign, dirty, range, paddr, flags, target, s, view, s1, after, r)
    ensures Tight(after) <==> r.Ok? || r.error == AlreadyMapped || RefusesNext(c, s)
  {
    hide Lawful;
    hide AllocatorOk;
    hide InTheWay;
    hide OneChange;
    hide NoChange;
    hide AgreeOutside;
    hide MapsTo;
    hide Sound;
    hide TreeOk;
    hide RefusesNext;
    hide RefusedLast;
    hide Tight;
    if r.Ok? || r.error == AlreadyMapped {
      TightAfterMap(c, root, foreign, dirty, range, paddr, flags, target, s, view, s1, after, r);
    } else if after != view {
      SoundTree(c, s, view, root, foreign, dirty);
      RootOnWalk(c, view, root, range.start);
      var q :| q in after && q !in view;
      LowestIsEmpty(c, view, after, root, range.start, target, TableLevel(c.geo, q));
    }
  }

  /** Unmapping keeps the tree tight: exactly the tables that became empty are gone. */
  lemma {:induction false} TightAfterUnmap<F>(g: Geometry, view: View<F>, v: nat, level: nat)
    requires Tight(view) && 1 <= level <= g.levels && IsLeaf(view, g.PathOf(v, level - 1))
    ensures Tight(Pruned(g, view - {g.PathOf(v, level - 1)}, v, level))
  {
    var p := g.PathOf(v, level - 1);
    var rest := view - {p};
    forall q | IsTable(rest, q) && q != Root && q != g.PathOf(v, level) ensures HasChild(rest, q) {
      assert HasChild(view, q);
      var j: nat :| Step(q, j) in view;
      assert Step(q, j) != p;
      assert Step(q, j) in rest;
    }
    PrunedIsTight(g, rest, v, level);
  }

  /** Changing a leaf in place keeps the tree tight. */
  lemma {:induction false} TightAfterReplace<F>(view: View<F>, p: Path, s: Slot<F>)
    requires Tight(view) && IsLeaf(view, p) && s.Leaf?
    ensures Tight(view[p := s])
  {
    var after: View<F> := view[p := s];
    forall q | IsTable(after, q) && q != Root ensures HasChild(after, q) {
      assert HasChild(view, q);
      var j: nat :| Step(q, j) in view;
      assert Step(q, j) in after;
    }
  }

  lemma {:induction false} TightAfterSplit<F>(
      view: View<F>, p: Path, child: nat, paddr: nat, flags: F, span: nat, n: nat)
    requires Tight(view) && IsLeaf(view, p) && n >= 1
    ensures Tight(SplitView(view, p, child, paddr, flags, span, n))
  {
    hide SplitView;
    var fine := SplitView(view, p, child, paddr, flags, span, n);
    SplitViewAt(view, p, child, paddr, flags, span, n);
    forall q | IsTable(fine, q) && q != Root ensures HasChild(fine, q) {
      SplitTables(view, p, child, paddr, flags, span, n, q);
      if q == p {
        assert At(fine, Step(p, 0)).Leaf?;
        assert Step(p, 0) in fine;
      } else {
        assert HasChild(view, q);
        var j: nat :| Step(q, j) in view;
        assert Step(q, j) !in EntryPaths(p, n);
        assert Step(q, j) in fine by {
          if Step(q, j) == p {
            assert At(fine, p) == Table(child);
          }
        }
      }
    }
  }

  lemma {:induction false} TightAfterMerge<W(!new), F(!new)>(
      c: Config<W, F>, view: View<F>, root: nat, p: Path, level: nat)
    requires TreeOk(c, view, root) && Mergeable(c.geo, view, p, level) && Tight(view)
    ensures Tight(MergeView(view, p, view[Step(p, 0)].paddr, view[Step(p, 0)].flags, c.geo.EntriesPerTable()))
  {
    hide TreeOk;
    hide MergeView;
    var first, n := view[Step(p, 0)], c.geo.EntriesPerTable();
    var coarse := MergeView(view, p, first.paddr, first.flags, n);
    MergeViewAt(view, p, first.paddr, first.flags, n);
    forall q | IsTable(coarse, q) && q != Root ensures HasChild(coarse, q) {
      MergeTables(c, view, root, p, level, q);
      assert HasChild(view, q);
      var j: nat :| Step(q, j) in view;
      assert Step(q, j) !in EntryPaths(p, n);
      assert Step(q, j) in coarse by {
        if Step(q, j) == p {
          assert At(coarse, p).Leaf?;
        }
      }
    }
  }

  /** Unmapping what was just mapped returns the mapping and restores the tree, and with it
      the live frames, exactly. */
  lemma {:induction false} MapThenUnmap<W(!new), F(!new)>(
      c: Config<W, F>, root: nat, foreign: map<nat, seq<W>>, dirty: iset<nat>,
      range: AddrRange, paddr: nat, flags: F, size: PageSize, target: nat,
      s: Store<W>, view: View<F>, s1: Store<W>, after: View<F>)
    requires ConfigOk(c) && Sound(c, s, view, root, foreign, dirty) && Tight(view)
    requires LeafRequest(c, range, paddr, flags, size, target)
    requires MapOutcome(c, root, foreign, dirty, range, paddr, flags, target, s, view, s1, after, Ok(()))
    ensures UnmapResult(c, after, range) == Ok(Mapping(range, paddr, c.codec.Norm(flags)))
    ensures ExactLevel(c.geo, after, range) == Ok(target)
    ensures Pruned(c.geo, after - {c.geo.PathOf(range.start, target - 1)}, range.start, target) == view
  {
    hide Lawful;
    hide AllocatorOk;
    hide InTheWay;
    hide OneChange;
    hide NoChange;
    hide AgreeOutside;
    hide MapsTo;
    hide Sound;
    hide TreeOk;
    hide ExactLevel;
    hide IsBlock;
    hide Tight;
    hide AddressesOf;
    hide Represents;
    hide TargetOk;
    var v, p := range.start, c.geo.PathOf(range.start, target - 1);
    RequestLevel(c, range, paddr, flags, size, target);
    SoundTree(c, s, view, root, foreign, dirty);
    SoundTree(c, s1, after, root, foreign, dirty + AddressesOf(range));
    ExactLevelIff(c, after, root, range, target);
    WithoutLeafClosed(c, after, root, p);
    PrunedUndoesGrowth(c, view, after - {p}, root, v, target);
  }

  lemma {:induction false} WithoutLeafClosed<W(!new), F(!new)>(c: Config<W, F>, view: View<F>, root: nat, p: Path)
    requires TreeOk(c, view, root) && IsLeaf(view, p)
    ensures forall q, i :: Step(q, i) in view - {p} ==> IsTable(view - {p}, q)
  {
    hide SlotOk;
    forall q, i | Step(q, i) in view - {p} ensures IsTable(view - {p}, q) {
      assert ChildOk(c, view, q, i);
    }
  }
}
