/** Replacing one leaf by a table of finer leaves, and back, without changing what any
    address translates to. */
module Splitting {
  import opened Basics
  import opened Power
  import opened PageSizes
  import opened Geometries
  import opened Blocks
  import opened Entries
  import opened Memory
  import opened Trie
  import opened TreeEdits
  import opened Translation
  import opened Tlb
  import opened Histories
  import opened Steps
  import opened MapWalks

  /** The positions of the first `n` entries of the table at `p`. */
  ghost function EntryPaths(p: Path, n: nat): set<Path> {
    set i: nat | i < n :: Step(p, i)
  }

  /** The leaf at `p` replaced by a table in `child` of `n` leaves of `span` bytes each. */
  ghost function SplitView<F>(
      view: View<F>, p: Path, child: nat, paddr: nat, flags: F, span: nat, n: nat): View<F> {
    view[p := Table(child)] + map q | q in EntryPaths(p, n) :: Leaf(paddr + EntryIndex(q) * span, flags)
  }

  function EntryIndex(q: Path): nat {
    match q
    case Root => 0
    case Step(_, i) => i
  }

  /** The table at `p` with its `n` leaves replaced by one leaf. */
  ghost function MergeView<F>(view: View<F>, p: Path, paddr: nat, flags: F, n: nat): View<F> {
    (view - EntryPaths(p, n))[p := Leaf(paddr, flags)]
  }

  /** `fine` holds at `p` a table of `n` leaves that map the leaf `paddr`, `flags` piecewise. */
  ghost predicate FineAt<F>(fine: View<F>, p: Path, paddr: nat, flags: F, span: nat, n: nat) {
    && IsTable(fine, p)
    && forall i: nat | i < n :: At(fine, Step(p, i)) == Leaf(paddr + i * span, flags)
  }

  lemma {:induction false} SplitViewAt<F>(view: View<F>, p: Path, child: nat, paddr: nat, flags: F, span: nat, n: nat)
    ensures var fine := SplitView(view, p, child, paddr, flags, span, n);
            && At(fine, p) == Table(child)
            && FineAt(fine, p, paddr, flags, span, n)
            && forall q | q != p && q !in EntryPaths(p, n) :: At(fine, q) == At(view, q) && (q in fine <==> q in view)
  {
    var fine := SplitView(view, p, child, paddr, flags, span, n);
    assert p !in EntryPaths(p, n) by {
      forall i: nat ensures p != Step(p, i) { NotOwnChild(p, i); }
    }
    forall i: nat | i < n ensures At(fine, Step(p, i)) == Leaf(paddr + i * span, flags) {
      assert Step(p, i) in EntryPaths(p, n);
    }
  }

  lemma {:induction false} MergeViewAt<F>(view: View<F>, p: Path, paddr: nat, flags: F, n: nat)
    ensures var coarse := MergeView(view, p, paddr, flags, n);
            && At(coarse, p) == Leaf(paddr, flags)
            && forall q | q != p ::
                 (q in coarse <==> q in view && q !in EntryPaths(p, n)) && (q in coarse ==> coarse[q] == view[q])
  {
  }

  /** Splitting a leaf and merging the result gives the leaf back. */
  lemma {:induction false} MergeUndoesSplit<F>(view: View<F>, p: Path, child: nat, span: nat, n: nat)
    requires IsLeaf(view, p) && forall i: nat :: Step(p, i) !in view
    ensures var leaf := view[p];
            MergeView(SplitView(view, p, child, leaf.paddr, leaf.flags, span, n), p, leaf.paddr, leaf.flags, n) == view
  {
    var leaf := view[p];
    var fine := SplitView(view, p, child, leaf.paddr, leaf.flags, span, n);
    SplitViewAt(view, p, child, leaf.paddr, leaf.flags, span, n);
    MergeViewAt(fine, p, leaf.paddr, leaf.flags, n);
    var back := MergeView(fine, p, leaf.paddr, leaf.flags, n);
    forall q ensures (q in back <==> q in view) && (q in view ==> back[q] == view[q]) {
      if q != p && q !in EntryPaths(p, n) {
        assert At(fine, q) == At(view, q);
      }
    }
  }

  /** A split leaf and the leaf itself translate every address alike. */
  lemma {:induction false} FineAgrees<W(!new), F(!new)>(
      c: Config<W, F>, root: nat, a: map<nat, seq<W>>, coarse: View<F>, b: map<nat, seq<W>>, fine: View<F>,
      p: Path, level: nat, paddr: nat, flags: F)
    requires c.geo.Lawful() && Represents(c, a, coarse, root) && Represents(c, b, fine, root)
    requires 2 <= level <= c.geo.levels && TableLevel(c.geo, p) == level - 1
    requires At(coarse, p) == Leaf(paddr, flags)
    requires FineAt(fine, p, paddr, flags, c.geo.Span(level - 1), c.geo.EntriesPerTable())
    requires forall q :: q != p && (q == Root || q.up != p) ==> LeafAt(coarse, q) == LeafAt(fine, q)
    ensures Agree(c, root, a, b)
  {
    hide TreeOk;
    hide Matches;
    hide Canonical;
    hide Geometry.Lawful;
    forall v: nat | c.geo.VaddrIsValid(v) ensures Xlate(c, a, root, v) == Xlate(c, b, root, v) {
      XlateIsLookup(c, a, coarse, root, v);
      XlateIsLookup(c, b, fine, root, v);
      if c.geo.PathOf(v, level - 1) == p {
        LookupInSplit(c, coarse, fine, root, v, p, level, paddr, flags);
      } else {
        forall l | 0 <= l < c.geo.levels
          ensures LeafAt(coarse, c.geo.PathOf(v, l)) == LeafAt(fine, c.geo.PathOf(v, l))
        {
          assert LevelOf(c.geo.PathOf(v, l)) == c.geo.levels - l;
          assert c.geo.PathOf(v, l) != p;
          assert c.geo.PathOf(v, l).up == c.geo.PathOf(v, l + 1);
        }
        LookupByLeaves(c, coarse, root, fine, root, v);
      }
    }
  }

  lemma {:induction false} LookupInSplit<W(!new), F(!new)>(
      c: Config<W, F>, coarse: View<F>, fine: View<F>, root: nat, v: nat, p: Path, level: nat, paddr: nat, flags: F)
    requires c.geo.Lawful() && TreeOk(c, coarse, root) && TreeOk(c, fine, root)
    requires 2 <= level <= c.geo.levels && c.geo.PathOf(v, level - 1) == p
    requires At(coarse, p) == Leaf(paddr, flags)
    requires FineAt(fine, p, paddr, flags, c.geo.Span(level - 1), c.geo.EntriesPerTable())
    ensures Lookup(c.geo, coarse, v, c.geo.levels) == Lookup(c.geo, fine, v, c.geo.levels)
  {
    hide TreeOk;
    var i := c.geo.IndexAt(level - 1, v);
    SpanStep(c.geo, level - 1);
    LookupAtLeaf(c, coarse, root, v, level, c.geo.levels);
    assert c.geo.PathOf(v, level - 2) == Step(p, i);
    assert At(fine, Step(p, i)) == Leaf(paddr + i * c.geo.Span(level - 1), flags);
    LookupAtLeaf(c, fine, root, v, level - 1, c.geo.levels);
    DivDiv(v, c.geo.Span(level - 1), c.geo.Fan(level - 1));
  }

  /** Digits of the `i`-th piece of an aligned block. */
  lemma {:induction false} PieceDigits(a: nat, s: nat, n: nat, i: nat)
    requires s > 0 && i < n && s * n > 0 && a % (s * n) == 0
    ensures (a + i * s) % s == 0 && ((a + i * s) / s) % n == i
    ensures a + i * s + s <= a + s * n
  {
    ModOfMultiple(a, s, n);
    DivDiv(a, s, n);
    AddMultipleMod(a, i, s);
    var k := a / s;
    SmallMultipleOf(k % n, s);
    assert k % n == 0;
    DigitsOf(k, n);
    DivModUnique(k + i, n, k / n, i);
    MulMonotone(i + 1, n, s);
    assert (i + 1) * s == i * s + s;
    assert n * s == s * n;
  }

  lemma {:induction false} SmallMultipleOf(d: nat, s: nat)
    requires s > 0
    ensures d * s == 0 ==> d == 0
  {
    if d > 0 {
      MulAtLeast(d, s);
    }
  }

  /** The `i`-th piece of a block begins the block of the `i`-th finer slot. */
  lemma {:induction false} PieceBlock(g: Geometry, a: nat, p: Path, level: nat, i: nat)
    requires g.Lawful() && StartsBlock(g, a, p) && 2 <= level <= g.levels && TableLevel(g, p) == level - 1
    requires i < g.EntriesPerTable()
    ensures StartsBlock(g, a + i * g.Span(level - 1), Step(p, i))
  {
    hide Geometry.VaddrIsValid;
    hide Geometry.IndexAt;
    hide Geometry.Lawful;
    var piece := a + i * g.Span(level - 1);
    PieceIndex(g, a, level, i);
    var range := AddrRange(a, a + g.Span(level));
    assert IsBlock(g, range, level);
    BlockSlot(g, range, level, piece);
    assert g.PathOf(piece, level - 2) == Step(g.PathOf(piece, level - 1), g.IndexAt(level - 1, piece));
    assert TableLevel(g, Step(p, i)) == level - 2;
  }

  lemma {:induction false} PieceIndex(g: Geometry, a: nat, level: nat, i: nat)
    requires g.Lawful() && 2 <= level <= g.levels && a % g.Span(level) == 0 && i < g.EntriesPerTable()
    ensures var piece := a + i * g.Span(level - 1);
            && piece % g.Span(level - 1) == 0
            && g.IndexAt(level - 1, piece) == i
            && piece + g.Span(level - 1) <= a + g.Span(level)
  {
    SpanStep(g, level - 1);
    PieceDigits(a, g.Span(level - 1), g.EntriesPerTable(), i);
  }

  /** Each piece of a sound leaf is a sound leaf one level down. */
  lemma {:induction false} PieceOk<W(!new), F(!new)>(
      c: Config<W, F>, p: Path, level: nat, paddr: nat, flags: F, i: nat, piece: nat)
    requires c.geo.Lawful() && LeafOk(c, p, paddr, flags)
    requires 2 <= level <= c.geo.levels && TableLevel(c.geo, p) == level - 1 && i < c.geo.EntriesPerTable()
    requires piece == paddr + i * c.geo.Span(level - 1)
    ensures LeafOk(c, Step(p, i), piece, flags) && TargetOk(c.geo, level - 1, piece)
  {
    hide StartsBlock;
    hide Geometry.Lawful;
    hide Geometry.Span;
    hide Geometry.EntriesPerTable;
    hide Codec.Norm;
    var s, n := c.geo.Span(level - 1), c.geo.EntriesPerTable();
    SpanStep(c.geo, level - 1);
    PieceDigits(paddr, s, n, i);
    var a: nat :| StartsBlock(c.geo, a, p);
    PieceBlock(c.geo, a, p, level, i);
  }

  /** Splitting a leaf keeps the shape of the tree. */
  lemma {:induction false} SplitTreeOk<W(!new), F(!new)>(
      c: Config<W, F>, view: View<F>, root: nat, p: Path, level: nat, child: nat)
    requires c.geo.Lawful() && TreeOk(c, view, root) && IsLeaf(view, p)
    requires 2 <= level <= c.geo.levels && TableLevel(c.geo, p) == level - 1
    requires FrameOk(c.geo, child) && child !in Frames(view)
    ensures TreeOk(c, SplitView(view, p, child, view[p].paddr, view[p].flags,
                                c.geo.Span(level - 1), c.geo.EntriesPerTable()), root)
  {
    hide LeafOk;
    hide SplitView;
    hide Geometry.Lawful;
    hide TableLevel;
    var leaf, s, n := view[p], c.geo.Span(level - 1), c.geo.EntriesPerTable();
    var fine := SplitView(view, p, child, leaf.paddr, leaf.flags, s, n);
    SplitViewAt(view, p, child, leaf.paddr, leaf.flags, s, n);
    assert SlotOk(c, p, leaf);
    SpanStep(c.geo, level - 1);
    forall q | q in fine ensures SlotOk(c, q, fine[q]) {
      if q in EntryPaths(p, n) {
        assert At(fine, Step(p, q.index)) == Leaf(leaf.paddr + q.index * s, leaf.flags);
        PieceOk(c, p, level, leaf.paddr, leaf.flags, q.index, leaf.paddr + q.index * s);
      } else {
        assert q != p ==> At(fine, q) == At(view, q);
      }
    }
    forall q, j | Step(q, j) in fine ensures ChildOk(c, fine, q, j) {
      if Step(q, j) !in EntryPaths(p, n) {
        assert Step(q, j) in view;
        assert ChildOk(c, view, q, j);
        assert At(fine, q) == At(view, q);
      }
    }
    forall a, b | IsTable(fine, a) && IsTable(fine, b) && fine[a].frame == fine[b].frame ensures a == b {
      SplitTables(view, p, child, leaf.paddr, leaf.flags, s, n, a);
      SplitTables(view, p, child, leaf.paddr, leaf.flags, s, n, b);
    }
    assert p != Root;
  }

  /** The tables of a split tree are the old ones and the new one. */
  lemma {:induction false} SplitTables<F>(
      view: View<F>, p: Path, child: nat, paddr: nat, flags: F, span: nat, n: nat, q: Path)
    requires IsLeaf(view, p)
    requires IsTable(SplitView(view, p, child, paddr, flags, span, n), q)
    ensures var fine := SplitView(view, p, child, paddr, flags, span, n);
            if q == p then fine[q].frame == child
            else IsTable(view, q) && fine[q] == view[q] && fine[q].frame in Frames(view)
  {
    hide SplitView;
    var fine := SplitView(view, p, child, paddr, flags, span, n);
    SplitViewAt(view, p, child, paddr, flags, span, n);
    assert At(fine, q) == fine[q];
    if q != p && q !in EntryPaths(p, n) {
      assert At(fine, q) == At(view, q);
    }
  }

  /** The frame of the new table holds one leaf word per piece. */
  ghost predicate FilledWith<W, F>(
      c: Config<W, F>, words: seq<W>, level: nat, paddr: nat, flags: F, count: nat) {
    && count <= |words| == c.geo.EntriesPerTable()
    && forall i: nat | i < count :: c.codec.Decode(words[i], level) == Leaf(paddr + i * c.geo.Span(level), flags)
  }

  /** Swinging the entry of a leaf to a prepared table of its pieces. */
  lemma {:induction false} SplitInstalls<W(!new), F(!new)>(
      c: Config<W, F>, s: Store<W>, view: View<F>, root: nat, dirty: iset<nat>,
      range: AddrRange, level: nat, child: nat)
    requires ConfigOk(c) && Represents(c, s.words, view, root)
    requires Current(s.log) == s.words && DirtyOnly(c, root, s.log, dirty)
    requires IsBlock(c.geo, range, level) && level >= 2
    requires IsTable(view, c.geo.PathOf(range.start, level)) && IsLeaf(view, c.geo.PathOf(range.start, level - 1))
    requires child in s.words && child !in Frames(view) && FrameOk(c.geo, child)
    requires var leaf := view[c.geo.PathOf(range.start, level - 1)];
             FilledWith(c, s.words[child], level - 1, leaf.paddr, leaf.flags, c.geo.EntriesPerTable())
    ensures var p := c.geo.PathOf(range.start, level - 1);
            var fine := SplitView(view, p, child, view[p].paddr, view[p].flags,
                                  c.geo.Span(level - 1), c.geo.EntriesPerTable());
            var s1 := s.Put(view[c.geo.PathOf(range.start, level)].frame, c.geo.IndexAt(level, range.start),
                            c.codec.newTable(child, level));
            && Represents(c, s1.words, fine, root)
            && Current(s1.log) == s1.words && DirtyOnly(c, root, s1.log, dirty)
            && NoChange(c, root, s, s1)
            && s1.log == s.log + [Wrote(s1.words)]
            && s1.words.Keys == s.words.Keys
            && forall f | f in s.words && f !in Frames(view) :: s1.words[f] == s.words[f]
  {
    hide Lawful;
    hide AllocatorOk;
    hide TreeOk;
    hide DirtyOnly;
    hide LeafOk;
    hide Xlate;
    hide SplitView;
    hide Canonical;
    var up, i := c.geo.PathOf(range.start, level), c.geo.IndexAt(level, range.start);
    var p := Step(up, i);
    var leaf := view[p];
    var fine := SplitView(view, p, child, leaf.paddr, leaf.flags, c.geo.Span(level - 1), c.geo.EntriesPerTable());
    SlotIsChild(c, view, root, range.start, level);
    TableInBounds(c, s.words, view, root, up, i);
    SplitTreeOk(c, view, root, p, level, child);
    SplitViewAt(view, p, child, leaf.paddr, leaf.flags, c.geo.Span(level - 1), c.geo.EntriesPerTable());
    TableWord(c, child, level);
    var w := c.codec.newTable(child, level);
    var s1 := s.Put(view[up].frame, i, w);
    assert s1.words == WithWord(s.words, view, up, i, w);
    assert view[up].frame in Frames(view);
    SplitMatches(c, s.words, view, root, up, i, level, child);
    FineAgrees(c, root, s.words, view, s1.words, fine, p, level, leaf.paddr, leaf.flags);
    DirtyAfterWrite(c, root, s.log, s1.words, dirty);
  }

  lemma {:induction false} SplitMatches<W(!new), F(!new)>(
      c: Config<W, F>, m: map<nat, seq<W>>, view: View<F>, root: nat, up: Path, i: nat, level: nat, child: nat)
    requires ConfigOk(c) && Represents(c, m, view, root) && level >= 2 && TableLevel(c.geo, up) == level
    requires IsTable(view, up) && IsLeaf(view, Step(up, i))
    requires view[up].frame in m && i < |m[view[up].frame]|
    requires child in m && child !in Frames(view) && FrameOk(c.geo, child)
    requires var leaf := view[Step(up, i)];
             FilledWith(c, m[child], level - 1, leaf.paddr, leaf.flags, c.geo.EntriesPerTable())
    ensures var p := Step(up, i);
            Matches(c, WithWord(m, view, up, i, c.codec.newTable(child, level)),
                    SplitView(view, p, child, view[p].paddr, view[p].flags,
                              c.geo.Span(level - 1), c.geo.EntriesPerTable()))
  {
    hide Lawful;
    hide AllocatorOk;
    hide TreeOk;
    hide SplitView;
    var p := Step(up, i);
    var leaf, s, n := view[p], c.geo.Span(level - 1), c.geo.EntriesPerTable();
    var fine := SplitView(view, p, child, leaf.paddr, leaf.flags, s, n);
    SplitViewAt(view, p, child, leaf.paddr, leaf.flags, s, n);
    TableWord(c, child, level);
    NotOwnChild(up, i);
    forall q | IsTable(fine, q)
      ensures SameChildren(view, fine, q, up, i) || NewTable(c, m, view, fine, q, up)
    {
      SplitTables(view, p, child, leaf.paddr, leaf.flags, s, n, q);
      if q == p {
        assert view[up].frame in Frames(view);
        assert NewTable(c, m, view, fine, q, up);
      } else {
        forall j: nat | q != up || j != i ensures At(fine, Step(q, j)) == At(view, Step(q, j)) {
          assert Step(q, j) !in EntryPaths(p, n);
        }
        assert SameChildren(view, fine, q, up, i);
      }
    }
    WriteMatches(c, m, view, root, up, i, c.codec.newTable(child, level), fine);
  }

  /** A frame is live and table-sized but not yet part of a tree that memory represents. */
  ghost predicate Detached<W(!new), F(!new)>(
      c: Config<W, F>, s: Store<W>, view: View<F>, root: nat, dirty: iset<nat>, child: nat) {
    && Represents(c, s.words, view, root)
    && Current(s.log) == s.words && DirtyOnly(c, root, s.log, dirty)
    && child in s.words && child !in Frames(view) && |s.words[child]| == c.geo.EntriesPerTable()
  }

  /** Where the `i`-th piece of a leaf's target begins. */
  function PieceOf(paddr: nat, i: nat, span: nat): nat {
    paddr + i * span
  }

  ghost predicate PieceFits(g: Geometry, level: nat, paddr: nat, i: nat) {
    TargetOk(g, level, PieceOf(paddr, i, g.Span(level)))
  }

  /** Every piece of the target is one that `level` can hold. */
  ghost predicate PiecesFit(g: Geometry, level: nat, paddr: nat) {
    forall i: nat | i < g.EntriesPerTable() :: PieceFits(g, level, paddr, i)
  }

  lemma {:induction false} PieceWord<W(!new), F(!new)>(
      c: Config<W, F>, level: nat, paddr: nat, flags: F, size: PageSize, i: nat)
    requires ConfigOk(c) && c.geo.LevelSupportsLeaf(level, size) && PiecesFit(c.geo, level, paddr)
    requires c.codec.encodable(flags) && i < c.geo.EntriesPerTable()
    ensures var piece := PieceOf(paddr, i, c.geo.Span(level));
            c.codec.Decode(c.codec.newLeaf(piece, flags, size), level) == Leaf(piece, c.codec.Norm(flags))
  {
    hide TargetOk;
    var piece := PieceOf(paddr, i, c.geo.Span(level));
    assert PieceFits(c.geo, level, paddr, i);
    assert LeafWordOk(c.codec, level, c.codec.newLeaf(piece, flags, size), piece, flags);
  }

  lemma {:induction false} FillStarts<W(!new), F(!new)>(
      c: Config<W, F>, s: Store<W>, view: View<F>, root: nat, dirty: iset<nat>, child: nat, level: nat, paddr: nat,
      flags: F)
    requires Detached(c, s, view, root, dirty, child)
    ensures child in s.words && FilledWith(c, s.words[child], level, paddr, flags, 0)
    ensures s.words == s.words[child := s.words[child]]
  {
    hide Represents;
    hide DirtyOnly;
  }

  /** Writing one more piece into the detached frame. */
  lemma {:induction false} FillStep<W(!new), F(!new)>(
      c: Config<W, F>, s: Store<W>, view: View<F>, root: nat, dirty: iset<nat>,
      child: nat, level: nat, paddr: nat, flags: F, size: PageSize, i: nat)
    requires child in s.words && FilledWith(c, s.words[child], level, paddr, flags, i) && i < c.geo.EntriesPerTable()
    requires ConfigOk(c) && Detached(c, s, view, root, dirty, child)
    requires c.geo.LevelSupportsLeaf(level, size) && c.codec.encodable(flags) && c.codec.Norm(flags) == flags
    requires PiecesFit(c.geo, level, paddr)
    ensures i < |s.words[child]|
    ensures var s1 := s.Put(child, i, c.codec.newLeaf(PieceOf(paddr, i, c.geo.Span(level)), flags, size));
            && child in s1.words && FilledWith(c, s1.words[child], level, paddr, flags, i + 1)
            && Detached(c, s1, view, root, dirty, child)
            && s1.words == s.words[child := s1.words[child]]
            && NoChange(c, root, s, s1)
  {
    hide Lawful;
    hide AllocatorOk;
    hide Represents;
    hide DirtyOnly;
    hide NoChange;
    hide PiecesFit;
    PieceWord(c, level, paddr, flags, size, i);
    var s1 := s.Put(child, i, c.codec.newLeaf(PieceOf(paddr, i, c.geo.Span(level)), flags, size));
    OtherFrameStep(c, s, view, root, dirty, s1.words);
    QuietStep(c, root, s, s1);
  }

  /** A leaf above level 1 can be cut into pieces that its finer level supports. */
  lemma {:induction false} SplitPieces<W(!new), F(!new)>(
      c: Config<W, F>, s: Store<W>, view: View<F>, root: nat, foreign: map<nat, seq<W>>, dirty: iset<nat>,
      p: Path, level: nat)
    requires ConfigOk(c) && Sound(c, s, view, root, foreign, dirty)
    requires 2 <= level <= c.geo.levels && IsLeaf(view, p) && TableLevel(c.geo, p) == level - 1
    ensures c.codec.encodable(view[p].flags) && c.codec.Norm(view[p].flags) == view[p].flags
    ensures PiecesFit(c.geo, level - 1, view[p].paddr)
    ensures c.geo.LeafSizeAtLevel(level - 1).Some?
    ensures c.geo.LevelSupportsLeaf(level - 1, c.geo.LeafSizeAtLevel(level - 1).value)
  {
    hide Lawful;
    hide AllocatorOk;
    hide LeafOk;
    LeafOfSound(c, s, view, root, foreign, dirty, p);
    FinerSize(c, p, level, view[p].paddr, view[p].flags);
    AllPiecesFit(c, p, level, level - 1, view[p].paddr, view[p].flags);
  }

  lemma {:induction false} LeafOfSound<W(!new), F(!new)>(
      c: Config<W, F>, s: Store<W>, view: View<F>, root: nat, foreign: map<nat, seq<W>>, dirty: iset<nat>, p: Path)
    requires Sound(c, s, view, root, foreign, dirty) && IsLeaf(view, p)
    ensures LeafOk(c, p, view[p].paddr, view[p].flags)
    ensures c.codec.encodable(view[p].flags) && c.codec.Norm(view[p].flags) == view[p].flags
  {
    hide Located;
    assert SlotOk(c, p, view[p]);
  }

  lemma {:induction false} FinerSize<W(!new), F(!new)>(c: Config<W, F>, p: Path, level: nat, paddr: nat, flags: F)
    requires c.geo.Lawful() && LeafOk(c, p, paddr, flags) && TableLevel(c.geo, p) == level - 1 && level >= 2
    ensures c.geo.LeafSizeAtLevel(level - 1).Some?
    ensures c.geo.LevelSupportsLeaf(level - 1, c.geo.LeafSizeAtLevel(level - 1).value)
  {
    hide Located;
    hide TargetOk;
  }

  lemma {:induction false} AllPiecesFit<W(!new), F(!new)>(
      c: Config<W, F>, p: Path, level: nat, finer: nat, paddr: nat, flags: F)
    requires c.geo.Lawful() && LeafOk(c, p, paddr, flags)
    requires 2 <= level == finer + 1 <= c.geo.levels && TableLevel(c.geo, p) == finer
    ensures PiecesFit(c.geo, finer, paddr)
  {
    hide LeafOk;
    hide PieceFits;
    forall i: nat | i < c.geo.EntriesPerTable() ensures PieceFits(c.geo, finer, paddr, i) {
      ThisPieceFits(c, p, level, paddr, flags, i);
    }
  }

  lemma {:induction false} ThisPieceFits<W(!new), F(!new)>(
      c: Config<W, F>, p: Path, level: nat, paddr: nat, flags: F, i: nat)
    requires c.geo.Lawful() && LeafOk(c, p, paddr, flags)
    requires 2 <= level <= c.geo.levels && TableLevel(c.geo, p) == level - 1 && i < c.geo.EntriesPerTable()
    ensures PieceFits(c.geo, level - 1, paddr, i)
  {
    hide LeafOk;
    PieceOk(c, p, level, paddr, flags, i, paddr + i * c.geo.Span(level - 1));
  }

  lemma {:induction false} LeafHasNoChild<W, F>(c: Config<W, F>, view: View<F>, root: nat, p: Path)
    requires TreeOk(c, view, root) && IsLeaf(view, p)
    ensures forall j: nat :: Step(p, j) !in view
  {
    hide SlotOk;
    forall j: nat ensures Step(p, j) !in view {
      assert Step(p, j) in view ==> ChildOk(c, view, p, j);
    }
  }

  lemma {:induction false} DetachedAfterAlloc<W(!new), F(!new)>(
      c: Config<W, F>, s: Store<W>, view: View<F>, root: nat, foreign: map<nat, seq<W>>, dirty: iset<nat>)
    requires ConfigOk(c) && Sound(c, s, view, root, foreign, dirty)
    ensures var (s1, r) := s.Alloc(c);
            && (r.Err? ==> Sound(c, s1, view, root, foreign, dirty) && s1.words == s.words && NoChange(c, root, s, s1))
            && (r.Ok? ==> Detached(c, s1, view, root, dirty, r.value) && FrameOk(c.geo, r.value)
                          && r.value !in s.words && s1.words == s.words[r.value := s1.words[r.value]]
                          && NoChange(c, root, s, s1))
  {
    hide Lawful;
    hide AllocatorOk;
    hide Represents;
    hide DirtyOnly;
    hide Xlate;
    AllocStep(c, s);
    var (s1, r) := s.Alloc(c);
    if r.Ok? {
      OtherFrameStep(c, s, view, root, dirty, s1.words);
      assert NewFrameIsEmpty(c, s1.words, r.value, 1);
    }
  }

  /** Swinging the leaf's entry to the filled frame completes a split. */
  lemma {:induction false} SplitFinish<W(!new), F(!new)>(
      c: Config<W, F>, s: Store<W>, s1: Store<W>, s2: Store<W>, view: View<F>, root: nat,
      foreign: map<nat, seq<W>>, dirty: iset<nat>, range: AddrRange, level: nat, child: nat)
    requires ConfigOk(c) && Sound(c, s, view, root, foreign, dirty)
    requires NoChange(c, root, s, s1) && NoChange(c, root, s1, s2)
    requires Detached(c, s2, view, root, dirty, child) && FrameOk(c.geo, child) && child !in s.words
    requires s2.words == s.words[child := s2.words[child]]
    requires IsBlock(c.geo, range, level) && level >= 2
    requires IsTable(view, c.geo.PathOf(range.start, level)) && IsLeaf(view, c.geo.PathOf(range.start, level - 1))
    requires var leaf := view[c.geo.PathOf(range.start, level - 1)];
             FilledWith(c, s2.words[child], level - 1, leaf.paddr, leaf.flags, c.geo.EntriesPerTable())
    ensures var p := c.geo.PathOf(range.start, level - 1);
            var at, i := view[c.geo.PathOf(range.start, level)].frame, c.geo.IndexAt(level, range.start);
            var s3 := s2.Put(at, i, c.codec.newTable(child, level));
            && at in s2.words && i < |s2.words[at]|
            && Sound(c, s3, SplitView(view, p, child, view[p].paddr, view[p].flags, c.geo.Span(level - 1),
                                      c.geo.EntriesPerTable()), root, foreign, dirty)
            && NoChange(c, root, s, s3)
  {
    hide Lawful;
    hide AllocatorOk;
    hide TreeOk;
    hide Matches;
    hide DirtyOnly;
    hide NoChange;
    hide SplitView;
    hide Canonical;
    var p := c.geo.PathOf(range.start, level - 1);
    var s3 := s2.Put(view[c.geo.PathOf(range.start, level)].frame, c.geo.IndexAt(level, range.start),
                     c.codec.newTable(child, level));
    SlotIsChild(c, view, root, range.start, level);
    TableInBounds(c, s2.words, view, root, c.geo.PathOf(range.start, level), c.geo.IndexAt(level, range.start));
    SplitInstalls(c, s2, view, root, dirty, range, level, child);
    LeafHasNoChild(c, view, root, p);
    SplitFrames(view, p, child, view[p].paddr, view[p].flags, c.geo.Span(level - 1), c.geo.EntriesPerTable());
    NoChangeTrans(c, root, s, s1, s2);
    NoChangeTrans(c, root, s, s2, s3);
    LogStartsAlike(c, root, s, s3);
  }

  lemma {:induction false} LogStartsAlike<W, F>(c: Config<W, F>, root: nat, a: Store<W>, b: Store<W>)
    requires NoChange(c, root, a, b) && a.log != []
    ensures b.log != [] && b.log[0] == a.log[0]
  {
  }

  lemma {:induction false} SplitFrames<F>(view: View<F>, p: Path, child: nat, paddr: nat, flags: F, span: nat, n: nat)
    requires IsLeaf(view, p)
    requires forall i: nat | i < n :: Step(p, i) !in view || IsLeaf(view, Step(p, i))
    ensures Frames(SplitView(view, p, child, paddr, flags, span, n)) == Frames(view) + {child}
  {
    hide SplitView;
    var fine := SplitView(view, p, child, paddr, flags, span, n);
    SplitViewAt(view, p, child, paddr, flags, span, n);
    forall f | f in Frames(view) + {child} ensures f in Frames(fine) {
      if f == child {
        assert At(fine, p) == Table(child);
        assert p in fine && fine[p].Table? && fine[p].frame == f;
      } else {
        var q :| q in view && view[q].Table? && view[q].frame == f;
        assert q !in EntryPaths(p, n);
        assert At(fine, q) == At(view, q);
        assert q in fine && fine[q].Table? && fine[q].frame == f;
      }
    }
    forall f | f in Frames(fine) ensures f in Frames(view) + {child} {
      var q :| q in fine && fine[q].Table? && fine[q].frame == f;
      SplitTables(view, p, child, paddr, flags, span, n, q);
    }
  }

  /** The table at `p` holds one contiguous, aligned run of leaves with equal flags. */
  ghost predicate Mergeable<F>(g: Geometry, view: View<F>, p: Path, level: nat) {
    && IsTable(view, p) && level >= 2
    && IsLeaf(view, Step(p, 0))
    && view[Step(p, 0)].paddr % g.Span(level) == 0
    && FineAt(view, p, view[Step(p, 0)].paddr, view[Step(p, 0)].flags, g.Span(level - 1), g.EntriesPerTable())
  }

  /** The first `count` entries of the table at `p` are such a run from `paddr`. */
  ghost predicate RunUpTo<F>(g: Geometry, view: View<F>, p: Path, level: nat, paddr: nat, flags: F, count: nat) {
    forall k: nat | k < count :: At(view, Step(p, k)) == Leaf(paddr + k * g.Span(level), flags)
  }

  lemma {:induction false} RunStarts<F>(g: Geometry, view: View<F>, p: Path, level: nat)
    requires level >= 1
    ensures !IsLeaf(view, Step(p, 0)) ==> !Mergeable(g, view, p, level + 1)
    ensures IsLeaf(view, Step(p, 0)) && view[Step(p, 0)].paddr % g.Span(level + 1) != 0 ==>
              !Mergeable(g, view, p, level + 1)
    ensures IsLeaf(view, Step(p, 0)) ==>
              RunUpTo(g, view, p, level, view[Step(p, 0)].paddr, view[Step(p, 0)].flags, 1)
  {
  }

  lemma {:induction false} MergeNeedsTable<F>(g: Geometry, view: View<F>, p: Path, level: nat)
    ensures Mergeable(g, view, p, level) ==> IsTable(view, p)
  {
  }

  /** The next entry continues the run, or refutes a merge. */
  lemma {:induction false} RunGoesOn<F>(g: Geometry, view: View<F>, p: Path, level: nat, paddr: nat, flags: F, i: nat)
    requires 1 <= i < g.EntriesPerTable() && RunUpTo(g, view, p, level, paddr, flags, i)
    ensures At(view, Step(p, i)) == Leaf(paddr + i * g.Span(level), flags) ==>
              RunUpTo(g, view, p, level, paddr, flags, i + 1)
    ensures At(view, Step(p, i)) != Leaf(paddr + i * g.Span(level), flags) ==> !Mergeable(g, view, p, level + 1)
  {
    assert At(view, Step(p, 0)) == Leaf(paddr + 0 * g.Span(level), flags);
  }

  lemma {:induction false} RunEnds<F>(g: Geometry, view: View<F>, p: Path, level: nat, paddr: nat, flags: F)
    requires IsTable(view, p) && level >= 1 && paddr % g.Span(level + 1) == 0
    requires RunUpTo(g, view, p, level, paddr, flags, g.EntriesPerTable())
    ensures Mergeable(g, view, p, level + 1) && view[Step(p, 0)] == Leaf(paddr, flags)
  {
    assert At(view, Step(p, 0)) == Leaf(paddr + 0 * g.Span(level), flags);
  }

  /** The single leaf that a mergeable table amounts to is a sound one. */
  lemma {:induction false} MergedLeafOk<W(!new), F(!new)>(
      c: Config<W, F>, view: View<F>, root: nat, range: AddrRange, level: nat)
    requires ConfigOk(c) && TreeOk(c, view, root) && IsBlock(c.geo, range, level) && level <= c.geo.leafLevels
    requires Mergeable(c.geo, view, c.geo.PathOf(range.start, level - 1), level)
    ensures var first := view[Step(c.geo.PathOf(range.start, level - 1), 0)];
            && LeafOk(c, c.geo.PathOf(range.start, level - 1), first.paddr, first.flags)
            && TargetOk(c.geo, level, first.paddr)
  {
    hide Lawful;
    hide AllocatorOk;
    hide Located;
    hide IsBlock;
    hide Geometry.PathOf;
    var p := c.geo.PathOf(range.start, level - 1);
    var first := view[Step(p, 0)];
    assert SlotOk(c, Step(p, 0), first);
    BlockLocated(c.geo, range, level);
    AlignedTargetFits(c, level, first.paddr);
  }

  /** Merging a mergeable table keeps the shape of the tree. */
  lemma {:induction false} MergeTreeOk<W(!new), F(!new)>(c: Config<W, F>, view: View<F>, root: nat, p: Path, level: nat)
    requires c.geo.Lawful() && TreeOk(c, view, root) && Mergeable(c.geo, view, p, level) && p != Root
    requires TableLevel(c.geo, p) == level - 1 && level <= c.geo.levels
    requires LeafOk(c, p, view[Step(p, 0)].paddr, view[Step(p, 0)].flags)
    ensures TreeOk(c, MergeView(view, p, view[Step(p, 0)].paddr, view[Step(p, 0)].flags, c.geo.EntriesPerTable()), root)
    ensures forall j: nat :: Step(p, j) in view ==> Step(p, j) in EntryPaths(p, c.geo.EntriesPerTable())
  {
    hide LeafOk;
    hide MergeView;
    var first, n := view[Step(p, 0)], c.geo.EntriesPerTable();
    var coarse := MergeView(view, p, first.paddr, first.flags, n);
    MergeViewAt(view, p, first.paddr, first.flags, n);
    FanFits(c.geo, level - 1);
    forall j: nat | Step(p, j) in view ensures Step(p, j) in EntryPaths(p, n) {
      assert ChildOk(c, view, p, j);
    }
    forall q, j | Step(q, j) in coarse ensures ChildOk(c, coarse, q, j) {
      if Step(q, j) == p {
        NotOwnChild(q, j);
      }
      assert Step(q, j) in view;
      assert ChildOk(c, view, q, j);
      NoGrandchild(c, view, root, p, level, q, j);
    }
  }

  /** In a mergeable table nothing stands below the entries. */
  lemma {:induction false} NoGrandchild<W(!new), F(!new)>(
      c: Config<W, F>, view: View<F>, root: nat, p: Path, level: nat, q: Path, j: nat)
    requires TreeOk(c, view, root) && Mergeable(c.geo, view, p, level) && Step(q, j) in view
    ensures q !in EntryPaths(p, c.geo.EntriesPerTable())
  {
    hide SlotOk;
    assert ChildOk(c, view, q, j);
    assert At(view, q).Table?;
  }

  /** The tables of a merged tree are the old ones without the merged one. */
  lemma {:induction false} MergeTables<W(!new), F(!new)>(
      c: Config<W, F>, view: View<F>, root: nat, p: Path, level: nat, q: Path)
    requires TreeOk(c, view, root) && Mergeable(c.geo, view, p, level)
    ensures var coarse := MergeView(view, p, view[Step(p, 0)].paddr, view[Step(p, 0)].flags, c.geo.EntriesPerTable());
            IsTable(coarse, q) <==> IsTable(view, q) && q != p
  {
    hide TreeOk;
    hide MergeView;
    MergeViewAt(view, p, view[Step(p, 0)].paddr, view[Step(p, 0)].flags, c.geo.EntriesPerTable());
    assert At(view, q).Table? <==> IsTable(view, q);
  }

  lemma {:induction false} MergeFrames<W(!new), F(!new)>(c: Config<W, F>, view: View<F>, root: nat, p: Path, level: nat)
    requires TreeOk(c, view, root) && Mergeable(c.geo, view, p, level)
    ensures var coarse := MergeView(view, p, view[Step(p, 0)].paddr, view[Step(p, 0)].flags, c.geo.EntriesPerTable());
            Frames(coarse) == Frames(view) - {view[p].frame}
  {
    hide SlotOk;
    hide MergeView;
    var first, n := view[Step(p, 0)], c.geo.EntriesPerTable();
    var coarse := MergeView(view, p, first.paddr, first.flags, n);
    MergeViewAt(view, p, first.paddr, first.flags, n);
    forall f | f in Frames(view) - {view[p].frame} ensures f in Frames(coarse) {
      var q :| q in view && view[q].Table? && view[q].frame == f;
      MergeTables(c, view, root, p, level, q);
      assert q in coarse && coarse[q].Table? && coarse[q].frame == f;
    }
    forall f | f in Frames(coarse) ensures f in Frames(view) - {view[p].frame} {
      var q :| q in coarse && coarse[q].Table? && coarse[q].frame == f;
      MergeTables(c, view, root, p, level, q);
      assert IsTable(view, q) && IsTable(view, p);
    }
  }

  lemma {:induction false} MergeMatches<W(!new), F(!new)>(
      c: Config<W, F>, m: map<nat, seq<W>>, view: View<F>, root: nat, up: Path, i: nat, level: nat, w: W)
    requires ConfigOk(c) && Represents(c, m, view, root) && TableLevel(c.geo, up) == level
    requires IsTable(view, up) && Mergeable(c.geo, view, Step(up, i), level)
    requires view[up].frame in m && i < |m[view[up].frame]|
    requires var first := view[Step(Step(up, i), 0)];
             c.codec.Decode(w, level) == Leaf(first.paddr, first.flags)
    ensures var p := Step(up, i);
            Matches(c, WithWord(m, view, up, i, w),
                    MergeView(view, p, view[Step(p, 0)].paddr, view[Step(p, 0)].flags, c.geo.EntriesPerTable()))
  {
    hide Lawful;
    hide AllocatorOk;
    hide TreeOk;
    hide MergeView;
    var p := Step(up, i);
    var first, n := view[Step(p, 0)], c.geo.EntriesPerTable();
    var coarse := MergeView(view, p, first.paddr, first.flags, n);
    MergeViewAt(view, p, first.paddr, first.flags, n);
    NotOwnChild(up, i);
    forall q | IsTable(coarse, q) ensures SameChildren(view, coarse, q, up, i) {
      MergeTables(c, view, root, p, level, q);
      forall j: nat | q != up || j != i ensures At(coarse, Step(q, j)) == At(view, Step(q, j)) {
        assert Step(q, j) !in EntryPaths(p, n);
      }
    }
    WriteMatches(c, m, view, root, up, i, w, coarse);
  }

  lemma {:induction false} FirstPiece<F>(g: Geometry, view: View<F>, p: Path, level: nat)
    requires Mergeable(g, view, p, level)
    ensures IsTable(view, p) && IsLeaf(view, Step(p, 0)) && level >= 2
  {
  }

  /** Writing the merged leaf over the table's entry changes no translation. */
  lemma {:induction false} MergeWrite<W(!new), F(!new)>(
      c: Config<W, F>, s: Store<W>, view: View<F>, root: nat, dirty: iset<nat>,
      range: AddrRange, level: nat, size: PageSize, up: Path, i: nat)
    requires ConfigOk(c) && Represents(c, s.words, view, root)
    requires Current(s.log) == s.words && DirtyOnly(c, root, s.log, dirty)
    requires IsBlock(c.geo, range, level) && c.geo.LevelSupportsLeaf(level, size)
    requires up == c.geo.PathOf(range.start, level) && i == c.geo.IndexAt(level, range.start)
    requires ChildOk(c, view, up, i) && c.geo.PathOf(range.start, level - 1) == Step(up, i)
    requires Mergeable(c.geo, view, Step(up, i), level)
    ensures var p := Step(up, i);
            var first := view[Step(p, 0)];
            && view[up].frame in s.words && i < |s.words[view[up].frame]|
            && var s1 := s.Put(view[up].frame, i, c.codec.newLeaf(first.paddr, first.flags, size));
            && Represents(c, s1.words, MergeView(view, p, first.paddr, first.flags, c.geo.EntriesPerTable()), root)
            && Current(s1.log) == s1.words && DirtyOnly(c, root, s1.log, dirty)
            && Agree(c, root, s.words, s1.words)
  {
    hide Lawful;
    hide AllocatorOk;
    hide TreeOk;
    hide DirtyOnly;
    hide LeafOk;
    hide Xlate;
    hide MergeView;
    hide Canonical;
    hide Mergeable;
    hide Matches;
    var p := Step(up, i);
    FirstPiece(c.geo, view, p, level);
    var first, n := view[Step(p, 0)], c.geo.EntriesPerTable();
    var coarse := MergeView(view, p, first.paddr, first.flags, n);
    TableInBounds(c, s.words, view, root, up, i);
    MergedLeafOk(c, view, root, range, level);
    MergedWord(c, range, first.paddr, first.flags, size, level);
    MergeTreeOk(c, view, root, p, level);
    var w := c.codec.newLeaf(first.paddr, first.flags, size);
    var s1 := s.Put(view[up].frame, i, w);
    assert s1.words == WithWord(s.words, view, up, i, w);
    MergeMatches(c, s.words, view, root, up, i, level, w);
    MergeAgrees(c, root, s.words, view, s1.words, coarse, p, level);
    DirtyAfterWrite(c, root, s.log, s1.words, dirty);
  }

  /** Merging a table into one leaf and freeing its frame changes no translation. */
  lemma {:induction false} MergeInstalls<W(!new), F(!new)>(
      c: Config<W, F>, s: Store<W>, view: View<F>, root: nat, foreign: map<nat, seq<W>>, dirty: iset<nat>,
      range: AddrRange, level: nat, size: PageSize)
    requires ConfigOk(c) && Sound(c, s, view, root, foreign, dirty)
    requires IsBlock(c.geo, range, level) && c.geo.LevelSupportsLeaf(level, size)
    requires IsTable(view, c.geo.PathOf(range.start, level))
    requires Mergeable(c.geo, view, c.geo.PathOf(range.start, level - 1), level)
    ensures var p := c.geo.PathOf(range.start, level - 1);
            var first := view[Step(p, 0)];
            var at, i := view[c.geo.PathOf(range.start, level)].frame, c.geo.IndexAt(level, range.start);
            && at in s.words && i < |s.words[at]|
            && var s1 := s.Put(at, i, c.codec.newLeaf(first.paddr, first.flags, size));
            && view[p].frame in s1.words
            && var s2 := s1.Free(view[p].frame);
            && Sound(c, s2, MergeView(view, p, first.paddr, first.flags, c.geo.EntriesPerTable()), root, foreign, dirty)
            && NoChange(c, root, s, s2)
  {
    hide Lawful;
    hide AllocatorOk;
    hide TreeOk;
    hide DirtyOnly;
    hide Xlate;
    hide MergeView;
    hide Canonical;
    hide Mergeable;
    hide Matches;
    hide LeafOk;
    hide Represents;
    hide Agree;
    hide NoChange;
    hide ConfigOk;
    hide Geometry.Span;
    hide Geometry.LevelSupportsLeaf;
    hide Geometry.Shift;
    hide Current;
    var up, i := c.geo.PathOf(range.start, level), c.geo.IndexAt(level, range.start);
    var p := Step(up, i);
    FirstPiece(c.geo, view, p, level);
    var first := view[Step(p, 0)];
    var coarse := MergeView(view, p, first.paddr, first.flags, c.geo.EntriesPerTable());
    var child := view[p].frame;
    TreeOfSound(c, s, view, root, foreign, dirty);
    SlotIsChild(c, view, root, range.start, level);
    MergeWrite(c, s, view, root, dirty, range, level, size, up, i);
    var s1 := s.Put(view[up].frame, i, c.codec.newLeaf(first.paddr, first.flags, size));
    assert view[up].frame in Frames(view) && child in Frames(view);
    MergeFrames(c, view, root, p, level);
    var s2 := s1.Free(child);
    OtherFrameStep(c, s1, coarse, root, dirty, s2.words);
    TwoQuietSteps(c, root, s, s1, s2);
  }

  lemma {:induction false} MergedWord<W(!new), F(!new)>(
      c: Config<W, F>, range: AddrRange, paddr: nat, flags: F, size: PageSize, level: nat)
    requires ConfigOk(c) && IsBlock(c.geo, range, level) && c.geo.LevelSupportsLeaf(level, size)
    requires TargetOk(c.geo, level, paddr) && LeafOk(c, c.geo.PathOf(range.start, level - 1), paddr, flags)
    ensures c.codec.Decode(c.codec.newLeaf(paddr, flags, size), level) == Leaf(paddr, flags)
  {
    RequestedLeafOk(c, range, paddr, flags, size, level);
  }

  lemma {:induction false} MergeAgrees<W(!new), F(!new)>(
      c: Config<W, F>, root: nat, a: map<nat, seq<W>>, view: View<F>, b: map<nat, seq<W>>, coarse: View<F>,
      p: Path, level: nat)
    requires c.geo.Lawful() && Represents(c, a, view, root) && Represents(c, b, coarse, root)
    requires Mergeable(c.geo, view, p, level) && level <= c.geo.levels && TableLevel(c.geo, p) == level - 1
    requires coarse == MergeView(view, p, view[Step(p, 0)].paddr, view[Step(p, 0)].flags, c.geo.EntriesPerTable())
    ensures Agree(c, root, a, b)
  {
    hide Represents;
    hide Xlate;
    hide MergeView;
    var first, n := view[Step(p, 0)], c.geo.EntriesPerTable();
    MergeViewAt(view, p, first.paddr, first.flags, n);
    forall q | q != p && (q == Root || q.up != p) ensures LeafAt(coarse, q) == LeafAt(view, q) {
      assert q !in EntryPaths(p, n);
    }
    FineAgrees(c, root, b, coarse, a, view, p, level, first.paddr, first.flags);
  }
}
