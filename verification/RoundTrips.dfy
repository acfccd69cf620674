/** Splitting undone by merging. */
module RoundTrips {
  import opened Basics
  import opened PageSizes
  import opened Geometries
  import opened Blocks
  import opened Entries
  import opened Memory
  import opened Trie
  import opened Translation
  import opened Histories
  import opened Queries
  import opened Splitting
  import opened BlockEdits
  import opened BlockExactness
  import opened Walker

  /** The checks of a merge accept the block of any leaf level. */
  lemma {:induction false} BlockPassesChecks(g: Geometry, range: AddrRange, level: nat) returns (size: PageSize)
    requires g.Lawful() && IsBlock(g, range, level) && level <= g.leafLevels
    ensures CheckLeafRange(g, range) == Ok(size) && g.LevelOfSize(size) == Some(level)
  {
    hide Canonical;
    size := g.LeafSizeAtLevel(level).value;
    g.SizeIsSpan(level, size);
    LevelOfSizeIs(g, size, level);
    BlockIsValid(g, range, level, range.end - 1);
  }

  /** The pieces of an aligned leaf are one aligned run with equal flags. */
  lemma {:induction false} SplitIsMergeable<F>(g: Geometry, view: View<F>, p: Path, level: nat, child: nat)
    requires level >= 2 && IsLeaf(view, p) && view[p].paddr % g.Span(level) == 0
    ensures var fine := SplitView(view, p, child, view[p].paddr, view[p].flags, g.Span(level - 1), g.EntriesPerTable());
            Mergeable(g, fine, p, level) && IsTable(fine, p) && fine[p].frame == child && fine[Step(p, 0)] == view[p]
  {
    hide SplitView;
    var s, n := g.Span(level - 1), g.EntriesPerTable();
    var fine := SplitView(view, p, child, view[p].paddr, view[p].flags, s, n);
    SplitViewAt(view, p, child, view[p].paddr, view[p].flags, s, n);
    assert At(fine, Step(p, 0)) == Leaf(view[p].paddr + 0 * s, view[p].flags);
    assert At(fine, p) == Table(child);
  }

  /** The table above a split leaf is still there. */
  lemma {:induction false} TableAboveSplit<F>(
      g: Geometry, view: View<F>, v: nat, level: nat, child: nat, paddr: nat, flags: F)
    requires 2 <= level <= g.levels && IsTable(view, g.PathOf(v, level)) && IsLeaf(view, g.PathOf(v, level - 1))
    ensures var p, s, n := g.PathOf(v, level - 1), g.Span(level - 1), g.EntriesPerTable();
            IsTable(SplitView(view, p, child, paddr, flags, s, n), g.PathOf(v, level))
  {
    hide SplitView;
    var p, up, s, n := g.PathOf(v, level - 1), g.PathOf(v, level), g.Span(level - 1), g.EntriesPerTable();
    var fine := SplitView(view, p, child, paddr, flags, s, n);
    SplitViewAt(view, p, child, paddr, flags, s, n);
    assert LevelOf(up) < LevelOf(p);
    assert up !in EntryPaths(p, n);
    assert At(fine, up) == At(view, up);
  }

  /** After a split the merge of the same range always succeeds; it restores the tree, and
      with it the mapping and the set of live frames, exactly. */
  lemma {:induction false} SplitThenMerge<W(!new), F(!new)>(
      c: Config<W, F>, s: Store<W>, view: View<F>, root: nat, foreign: map<nat, seq<W>>, dirty: iset<nat>,
      range: AddrRange, level: nat, child: nat)
    requires ConfigOk(c) && Sound(c, s, view, root, foreign, dirty)
    requires ExactLevel(c.geo, view, range) == Ok(level) && level >= 2
    ensures var p := c.geo.PathOf(range.start, level - 1);
            var n := c.geo.EntriesPerTable();
            var fine := SplitView(view, p, child, view[p].paddr, view[p].flags, c.geo.Span(level - 1), n);
            && MergeSite(c.geo, fine, range) == Ok(level)
            && MergeHappens(c.geo, fine, range)
            && (forall r :: MergeAnswer(c.geo, fine, range, r) ==> r.Ok?)
            && MergeView(fine, p, fine[Step(p, 0)].paddr, fine[Step(p, 0)].flags, n) == view
  {
    hide Lawful;
    hide AllocatorOk;
    hide Sound;
    hide SplitView;
    hide MergeView;
    hide Mergeable;
    hide ExactLevel;
    hide CheckLeafRange;
    hide TreeOk;
    hide Canonical;
    var p := c.geo.PathOf(range.start, level - 1);
    SoundTree(c, s, view, root, foreign, dirty);
    ExactLevelIff(c, view, root, range, level);
    TargetOfLeaf(c, s, view, root, foreign, dirty, p, level);
    LeafHasNoChild(c, view, root, p);
    SplitIsMergeable(c.geo, view, p, level, child);
    TableAboveSplit(c.geo, view, range.start, level, child, view[p].paddr, view[p].flags);
    var size := BlockPassesChecks(c.geo, range, level);
    MergeUndoesSplit(view, p, child, c.geo.Span(level - 1), c.geo.EntriesPerTable());
  }
}
