/** Reclaiming the tables that an unmap leaves empty, and tight trees. */
module Pruning {
  import opened Basics
  import opened Geometries
  import opened Entries
  import opened Memory
  import opened Trie
  import opened TreeEdits
  import opened Translation
  import opened Tlb
  import opened Histories
  import opened Steps
  import opened MapWalks

  ghost predicate HasChild<F>(view: View<F>, p: Path) {
    exists j: nat :: Step(p, j) in view
  }

  /** No table but the root is empty. */
  ghost predicate Tight<F>(view: View<F>) {
    forall p :: IsTable(view, p) && p != Root ==> HasChild(view, p)
  }

  /** Remove the empty tables on the walk of `v`, from `level` upward to the first that is
      still in use, never the root. */
  ghost function Pruned<F>(g: Geometry, view: View<F>, v: nat, level: nat): View<F>
    decreases g.levels - level
  {
    var p := g.PathOf(v, level);
    if level >= g.levels || !IsTable(view, p) || HasChild(view, p) then view
    else Pruned(g, view - {p}, v, level + 1)
  }

  /** A table has no children exactly when all its words are absent. */
  lemma {:induction false} EmptyIffNoChild<W(!new), F(!new)>(
      c: Config<W, F>, m: map<nat, seq<W>>, view: View<F>, root: nat, p: Path)
    requires ConfigOk(c) && Represents(c, m, view, root) && IsTable(view, p)
    ensures view[p].frame in m && |m[view[p].frame]| == c.geo.EntriesPerTable()
    ensures HasChild(view, p) <==>
            exists i: nat :: i < |m[view[p].frame]| && c.codec.isPresent(m[view[p].frame][i])
  {
    hide Lawful;
    hide AllocatorOk;
    hide LeafOk;
    assert TableMatches(c, m, view, p);
    var words := m[view[p].frame];
    if j: nat :| Step(p, j) in view {
      TableInBounds(c, m, view, root, p, j);
      assert SlotOk(c, Step(p, j), view[Step(p, j)]);
      assert c.codec.isPresent(words[j]);
    }
    if i: nat :| i < |words| && c.codec.isPresent(words[i]) {
      assert c.codec.Decode(words[i], TableLevel(c.geo, p)) == At(view, Step(p, i));
      assert Step(p, i) in view;
    }
  }

  /** One round of reclaiming: unlink and free the empty table at `level` on the walk. */
  lemma {:induction false} PruneStep<W(!new), F(!new)>(
      c: Config<W, F>, s: Store<W>, view: View<F>, root: nat, foreign: map<nat, seq<W>>, dirty: iset<nat>,
      v: nat, level: nat)
    requires ConfigOk(c) && Sound(c, s, view, root, foreign, dirty)
    requires 1 <= level < c.geo.levels && IsTable(view, c.geo.PathOf(v, level))
    requires !HasChild(view, c.geo.PathOf(v, level))
    ensures var p, i := c.geo.PathOf(v, level + 1), c.geo.IndexAt(level + 1, v);
            && IsTable(view, p) && view[p].frame in s.words && i < |s.words[view[p].frame]|
            && var s1 := s.Put(view[p].frame, i, c.codec.zero);
            && view[c.geo.PathOf(v, level)].frame in s1.words
            && var s2 := s1.Free(view[c.geo.PathOf(v, level)].frame);
            && Sound(c, s2, view - {c.geo.PathOf(v, level)}, root, foreign, dirty)
            && NoChange(c, root, s, s2)
  {
    hide Lawful;
    hide AllocatorOk;
    hide SlotOk;
    hide Matches;
    hide DirtyOnly;
    hide Owns;
    var p, i := c.geo.PathOf(v, level + 1), c.geo.IndexAt(level + 1, v);
    assert Step(p, i) in view;
    assert ChildOk(c, view, p, i);
    UnlinkStep(c, s, view, root, foreign, dirty, p, i);
  }

  /** Reclaiming removes no leaf, and only tables of the walk at `level` or above. */
  lemma {:induction false} PrunedShape<F>(g: Geometry, view: View<F>, v: nat, level: nat)
    ensures var after := Pruned(g, view, v, level);
            && (forall q :: q in after ==> q in view && after[q] == view[q])
            && (forall q :: q in view && q !in after ==>
                  IsTable(view, q) && level <= TableLevel(g, q) < g.levels && q == g.PathOf(v, TableLevel(g, q)))
    decreases g.levels - level
  {
    var p := g.PathOf(v, level);
    if level < g.levels && IsTable(view, p) && !HasChild(view, p) {
      PrunedShape(g, view - {p}, v, level + 1);
      assert TableLevel(g, p) == level;
    }
  }

  /** Reclaiming from the only table that may be empty makes the tree tight. */
  lemma {:induction false} PrunedIsTight<F>(g: Geometry, view: View<F>, v: nat, level: nat)
    requires forall p :: IsTable(view, p) && p != Root && p != g.PathOf(v, level) ==> HasChild(view, p)
    ensures Tight(Pruned(g, view, v, level))
    decreases g.levels - level
  {
    var p := g.PathOf(v, level);
    if level < g.levels && IsTable(view, p) && !HasChild(view, p) {
      var rest := view - {p};
      forall q | IsTable(rest, q) && q != Root && q != g.PathOf(v, level + 1) ensures HasChild(rest, q) {
        assert HasChild(view, q);
        var j: nat :| Step(q, j) in view;
        assert Step(q, j) != p;
        assert Step(q, j) in rest;
      }
      PrunedIsTight(g, rest, v, level + 1);
    }
  }

  /** Nothing can have grown above a position that was there already. */
  lemma {:induction false} GrownNothing<W(!new), F(!new)>(
      c: Config<W, F>, view: View<F>, grown: View<F>, root: nat, v: nat, level: nat)
    requires TreeOk(c, view, root) && level <= c.geo.levels
    requires Grew(c.geo, view, grown, v, level) && c.geo.PathOf(v, level) in view
    ensures grown == view
  {
    hide TreeOk;
    forall q | q in grown ensures q in view {
      if q !in view {
        WalkedAbove(c, view, root, v, level, TableLevel(c.geo, q));
      }
    }
  }

  /** A table that grew at the lowest level has no children yet. */
  lemma {:induction false} GrownIsEmpty<W(!new), F(!new)>(
      c: Config<W, F>, view: View<F>, grown: View<F>, root: nat, v: nat, level: nat)
    requires TreeOk(c, view, root) && level <= c.geo.levels
    requires Grew(c.geo, view, grown, v, level) && c.geo.PathOf(v, level) !in view
    ensures !HasChild(grown, c.geo.PathOf(v, level))
  {
    hide SlotOk;
    var p := c.geo.PathOf(v, level);
    forall j: nat ensures Step(p, j) !in grown {
      assert LevelOf(Step(p, j)) == LevelOf(p) + 1;
      assert Step(p, j) in view ==> ChildOk(c, view, p, j);
    }
  }

  /** Undoing a map: pruning what grew on a walk restores a tight tree. */
  lemma {:induction false} PrunedUndoesGrowth<W(!new), F(!new)>(
      c: Config<W, F>, view: View<F>, grown: View<F>, root: nat, v: nat, level: nat)
    requires TreeOk(c, view, root) && Tight(view) && level <= c.geo.levels
    requires forall p, i :: Step(p, i) in grown ==> IsTable(grown, p)
    requires Grew(c.geo, view, grown, v, level) && IsTable(grown, c.geo.PathOf(v, level))
    ensures Pruned(c.geo, grown, v, level) == view
    decreases c.geo.levels - level
  {
    hide TreeOk;
    hide LevelOf;
    hide Geometry.Span;
    hide LeafOk;
    var p := c.geo.PathOf(v, level);
    if p in view {
      GrownNothing(c, view, grown, root, v, level);
      assert level < c.geo.levels ==> p != Root;
    } else {
      RootOnWalk(c, view, root, v);
      GrownIsEmpty(c, view, grown, root, v, level);
      var up, i := c.geo.PathOf(v, level + 1), c.geo.IndexAt(level + 1, v);
      assert p == Step(up, i);
      NotOwnChild(up, i);
      var rest := grown - {p};
      forall q, j | Step(q, j) in rest ensures IsTable(rest, q) {
        assert IsTable(grown, q);
        assert q == p ==> HasChild(grown, p);
      }
      PrunedUndoesGrowth(c, view, rest, root, v, level + 1);
    }
  }

  /** Clearing a leaf's entry removes the leaf and nothing else. */
  lemma {:induction false} ClearEffect<W(!new), F(!new)>(
      c: Config<W, F>, s: Store<W>, view: View<F>, root: nat, foreign: map<nat, seq<W>>, dirty: iset<nat>,
      range: AddrRange, level: nat)
    requires ConfigOk(c) && Sound(c, s, view, root, foreign, dirty) && IsBlock(c.geo, range, level)
    requires IsTable(view, c.geo.PathOf(range.start, level)) && IsLeaf(view, c.geo.PathOf(range.start, level - 1))
    ensures var at, i := view[c.geo.PathOf(range.start, level)].frame, c.geo.IndexAt(level, range.start);
            && at in s.words && i < |s.words[at]|
            && var s1 := s.Put(at, i, c.codec.zero);
            && Sound(c, s1, view - {c.geo.PathOf(range.start, level - 1)}, root, foreign, dirty + AddressesOf(range))
            && OneChange(c, root, s, s1)
            && AgreeOutside(c, root, s.words, s1.words, range)
            && MapsNothing(c, root, s1.words, range)
  {
    hide Lawful;
    hide AllocatorOk;
    hide DirtyOnly;
    hide TreeOk;
    hide Matches;
    hide Owns;
    hide Xlate;
    hide LeafOk;
    hide Canonical;
    var v := range.start;
    var p := c.geo.PathOf(v, level - 1);
    ZeroIsEmpty(c);
    SlotIsChild(c, view, root, v, level);
    LeafStep(c, s, view, root, foreign, dirty, range, level, c.codec.zero);
    var s1 := s.Put(view[c.geo.PathOf(v, level)].frame, c.geo.IndexAt(level, v), c.codec.zero);
    NoChangeRefl(c, root, s, s);
    NoChangeRefl(c, root, s1, s1);
    OneChangeAt(c, root, s, s, s1, s1);
    forall k | level <= k < c.geo.levels ensures !IsLeaf(view - {p}, c.geo.PathOf(v, k)) {
      WalkedAbove(c, view, root, v, level - 1, k);
    }
    EmptyMapsNothing(c, root, s1.words, view - {p}, range, level);
  }

  /** The leaf of `range` is gone, by one change of the translation that shows in `range`
      only, and so are the tables it leaves empty. */
  ghost predicate LeafRemoved<W(!new), F(!new)>(
      c: Config<W, F>, root: nat, foreign: map<nat, seq<W>>, dirty: iset<nat>, range: AddrRange, level: nat,
      s: Store<W>, view: View<F>, s1: Store<W>, after: View<F>)
    requires level >= 1
  {
    && after == Pruned(c.geo, view - {c.geo.PathOf(range.start, level - 1)}, range.start, level)
    && Sound(c, s1, after, root, foreign, dirty + AddressesOf(range))
    && OneChange(c, root, s, s1)
    && AgreeOutside(c, root, s.words, s1.words, range)
    && MapsNothing(c, root, s1.words, range)
  }

  lemma {:induction false} RemovedAfterPruning<W(!new), F(!new)>(
      c: Config<W, F>, root: nat, foreign: map<nat, seq<W>>, dirty: iset<nat>, range: AddrRange, level: nat,
      s: Store<W>, view: View<F>, s1: Store<W>, s2: Store<W>, after: View<F>)
    requires level >= 1 && NoChange(c, root, s1, s2)
    requires OneChange(c, root, s, s1) && AgreeOutside(c, root, s.words, s1.words, range)
    requires MapsNothing(c, root, s1.words, range) && Sound(c, s2, after, root, foreign, dirty + AddressesOf(range))
    requires after == Pruned(c.geo, view - {c.geo.PathOf(range.start, level - 1)}, range.start, level)
    ensures LeafRemoved(c, root, foreign, dirty, range, level, s, view, s2, after)
  {
    hide Sound;
    hide Xlate;
    OneThenNoChange(c, root, s, s1, s2);
  }
}
