/** When splitting and merging succeed, what they answer, and what queries say afterwards. */
module BlockExactness {
  import opened Basics
  import opened Power
  import opened PageSizes
  import opened Geometries
  import opened Blocks
  import opened Entries
  import opened Memory
  import opened Trie
  import opened Translation
  import opened Queries
  import opened BlockEdits
  import opened Splitting
  import opened Exactness

  /** What splitting a leaf of level at least 2 does: it fails when no frame is granted,
      and otherwise hangs the leaf's pieces in the granted frame. */
  ghost predicate SplitOutcome<W, F>(
      c: Config<W, F>, s: Store<W>, view: View<F>, range: AddrRange, level: nat, after: View<F>, r: Result<PageSize>)
    requires level >= 2
  {
    var p := c.geo.PathOf(range.start, level - 1);
    var (_, grant) := s.Alloc(c);
    if grant.Err? then r == Err(grant.error)
    else
      && r.Ok? && c.geo.LevelSupportsLeaf(level - 1, r.value)
      && IsLeaf(view, p)
      && after == SplitView(view, p, grant.value, view[p].paddr, view[p].flags,
                            c.geo.Span(level - 1), c.geo.EntriesPerTable())
  }

  /** The level at which `range` may be merged: its slot at that level is in the tree. */
  ghost function MergeSite<F>(g: Geometry, view: View<F>, range: AddrRange): (r: Result<nat>)
    ensures r.Ok? ==> r.value >= 2
  {
    match CheckLeafRange(g, range)
    case Err(e) => Err(e)
    case Ok(size) =>
      match g.LevelOfSize(size)
      case None => Err(UnsupportedSize)
      case Some(l) =>
        if l <= 1 then Err(NotCoalescable)
        else if !IsTable(view, g.PathOf(range.start, l)) || g.PathOf(range.start, l - 1) !in view then Err(NotMapped)
        else Ok(l)
  }

  /** What a merge returns: it succeeds on a leaf, and on a table whose leaves are one
      aligned run with equal flags. */
  ghost predicate MergeAnswer<F>(g: Geometry, view: View<F>, range: AddrRange, r: Result<PageSize>) {
    match MergeSite(g, view, range)
    case Err(e) => r == Err(e)
    case Ok(l) =>
      var p := g.PathOf(range.start, l - 1);
      if IsLeaf(view, p) || Mergeable(g, view, p, l) then r.Ok? && g.LevelSupportsLeaf(l, r.value)
      else r == Err(NotCoalescable)
  }

  /** Whether merging `range` rewrites anything. */
  ghost predicate MergeHappens<F>(g: Geometry, view: View<F>, range: AddrRange) {
    var site := MergeSite(g, view, range);
    site.Ok? && Mergeable(g, view, g.PathOf(range.start, site.value - 1), site.value)
  }

  /** The piece of `bytes` bytes of a mapping that holds `v`. */
  function PieceAround<F>(m: Mapping<F>, bytes: nat, v: nat): Mapping<F>
    requires bytes > 0 && m.range.Contains(v)
  {
    var at := (v - m.range.start) / bytes * bytes;
    Mapping(AddrRange(m.range.start + at, m.range.start + at + bytes), m.paddr + at, m.flags)
  }

  lemma {:induction false} PieceNumber(offset: nat, span: nat, n: nat)
    requires span > 0 && offset < span * n
    ensures offset / span < n && offset / span * span <= offset < offset / span * span + span
  {
    DigitsOf(offset, span);
    assert n * span == span * n;
    if offset / span >= n {
      MulMonotone(n, offset / span, span);
    }
  }

  /** The piece of a block that holds `v` is the block of a slot one level down. */
  lemma {:induction false} PieceIsBlock(g: Geometry, range: AddrRange, level: nat, v: nat, i: nat, start: nat)
    requires g.Lawful() && IsBlock(g, range, level) && level >= 2 && range.Contains(v)
    requires i == (v - range.start) / g.Span(level - 1) && start == range.start + i * g.Span(level - 1)
    ensures i < g.EntriesPerTable() && IsBlock(g, AddrRange(start, start + g.Span(level - 1)), level - 1)
    ensures start <= v < start + g.Span(level - 1)
    ensures g.PathOf(start, level - 2) == Step(g.PathOf(range.start, level - 1), i)
  {
    hide Geometry.Lawful;
    hide Geometry.VaddrIsValid;
    hide Geometry.Span;
    hide Geometry.EntriesPerTable;
    hide Geometry.IndexAt;
    SpanStep(g, level - 1);
    PieceNumber(v - range.start, g.Span(level - 1), g.EntriesPerTable());
    PieceBlock(g, range.start, g.PathOf(range.start, level - 1), level, i);
  }

  /** The pieces of a block answer its queries. */
  lemma {:induction false} PieceAnswers<W(!new), F(!new)>(
      c: Config<W, F>, fine: View<F>, root: nat, range: AddrRange, level: nat, paddr: nat, flags: F, v: nat)
    requires c.geo.Lawful() && TreeOk(c, fine, root) && IsBlock(c.geo, range, level) && level >= 2
    requires range.Contains(v)
    requires FineAt(fine, c.geo.PathOf(range.start, level - 1), paddr, flags,
                    c.geo.Span(level - 1), c.geo.EntriesPerTable())
    ensures QueryResult(c.geo, fine, v) == Ok(PieceAround(Mapping(range, paddr, flags), c.geo.Span(level - 1), v))
  {
    hide TreeOk;
    hide Geometry.Lawful;
    hide Geometry.PathOf;
    hide IsBlock;
    hide Geometry.Span;
    hide Geometry.EntriesPerTable;
    hide QueryResult;
    var p, span := c.geo.PathOf(range.start, level - 1), c.geo.Span(level - 1);
    var i := (v - range.start) / span;
    var start := range.start + i * span;
    PieceIsBlock(c.geo, range, level, v, i, start);
    assert At(fine, Step(p, i)) == Leaf(paddr + i * span, flags);
    LeafAnswers(c, fine, root, AddrRange(start, start + span), level - 1, v);
  }

  /** After a split exactly the queries of `range` have another answer: their piece of the
      mapping found before. */
  lemma {:induction false} QueriesAfterSplit<W(!new), F(!new)>(
      c: Config<W, F>, view: View<F>, fine: View<F>, root: nat, range: AddrRange, level: nat, child: nat)
    requires c.geo.Lawful() && TreeOk(c, view, root) && TreeOk(c, fine, root)
    requires IsBlock(c.geo, range, level) && level >= 2 && IsLeaf(view, c.geo.PathOf(range.start, level - 1))
    requires var p := c.geo.PathOf(range.start, level - 1);
             fine == SplitView(view, p, child, view[p].paddr, view[p].flags,
                               c.geo.Span(level - 1), c.geo.EntriesPerTable())
    ensures QueryResult(c.geo, view, range.start).Ok? && QueryResult(c.geo, view, range.start).value.range == range
    ensures forall v: nat ::
              QueryResult(c.geo, fine, v) ==
              if range.Contains(v)
              then Ok(PieceAround(QueryResult(c.geo, view, range.start).value, c.geo.Span(level - 1), v))
              else QueryResult(c.geo, view, v)
  {
    hide TreeOk;
    hide IsBlock;
    hide Geometry.Lawful;
    hide Geometry.PathOf;
    hide QueryResult;
    hide SplitView;
    hide PieceAround;
    hide FineAt;
    hide Geometry.Span;
    hide Geometry.EntriesPerTable;
    var p, span, n := c.geo.PathOf(range.start, level - 1), c.geo.Span(level - 1), c.geo.EntriesPerTable();
    var leaf := view[p];
    SplitViewAt(view, p, child, leaf.paddr, leaf.flags, span, n);
    BlockStart(c.geo, range, level);
    LeafAnswers(c, view, root, range, level, range.start);
    forall v: nat
      ensures QueryResult(c.geo, fine, v) ==
              if range.Contains(v) then Ok(PieceAround(Mapping(range, leaf.paddr, leaf.flags), span, v))
              else QueryResult(c.geo, view, v)
    {
      if range.Contains(v) {
        PieceAnswers(c, fine, root, range, level, leaf.paddr, leaf.flags, v);
      } else {
        SplitElsewhere(c, view, fine, root, range, level, child, v);
      }
    }
  }

  lemma {:induction false} BlockStart(g: Geometry, range: AddrRange, level: nat)
    requires IsBlock(g, range, level)
    ensures range.Contains(range.start) && range.Size() == g.Span(level)
  {
  }

  /** Outside its block a split shows in no query. */
  lemma {:induction false} SplitElsewhere<W(!new), F(!new)>(
      c: Config<W, F>, view: View<F>, fine: View<F>, root: nat, range: AddrRange, level: nat, child: nat, v: nat)
    requires c.geo.Lawful() && TreeOk(c, view, root) && TreeOk(c, fine, root)
    requires IsBlock(c.geo, range, level) && level >= 2 && IsLeaf(view, c.geo.PathOf(range.start, level - 1))
    requires var p := c.geo.PathOf(range.start, level - 1);
             fine == SplitView(view, p, child, view[p].paddr, view[p].flags,
                               c.geo.Span(level - 1), c.geo.EntriesPerTable())
    requires !range.Contains(v)
    ensures QueryResult(c.geo, fine, v) == QueryResult(c.geo, view, v)
  {
    hide TreeOk;
    hide IsBlock;
    hide Geometry.Lawful;
    hide Geometry.IndexAt;
    hide QueryResult;
    hide SplitView;
    hide Geometry.Span;
    hide Geometry.EntriesPerTable;
    hide FineAt;
    hide Geometry.VaddrIsValid;
    var p, span, n := c.geo.PathOf(range.start, level - 1), c.geo.Span(level - 1), c.geo.EntriesPerTable();
    SplitViewAt(view, p, child, view[p].paddr, view[p].flags, span, n);
    BlockLevel(c.geo, range, level);
    if c.geo.VaddrIsValid(v) {
      forall l | 0 <= l < c.geo.levels
        ensures LeafAt(view, c.geo.PathOf(v, l)) == LeafAt(fine, c.geo.PathOf(v, l))
      {
        OtherBlockOtherSlot(c.geo, range, level, v, l);
        var q := c.geo.PathOf(v, l);
        if l + 1 < c.geo.levels {
          OtherBlockOtherSlot(c.geo, range, level, v, l + 1);
        }
        NotAnEntry(c.geo, p, n, v, l);
        assert At(fine, q) == At(view, q) && (q in fine <==> q in view);
      }
      SameLeavesAnswer(c, fine, view, root, v);
    } else {
      InvalidAnswer(c.geo, view, v);
      InvalidAnswer(c.geo, fine, v);
    }
  }

  lemma {:induction false} InvalidAnswer<F>(g: Geometry, view: View<F>, v: nat)
    requires !g.VaddrIsValid(v)
    ensures QueryResult(g, view, v) == Err(AddressOutOfRange)
  {
  }

  /** A slot whose table is not at `p` is no entry of the table at `p`. */
  lemma {:induction false} NotAnEntry(g: Geometry, p: Path, n: nat, v: nat, l: nat)
    requires l < g.levels && p != Root && (l + 1 < g.levels ==> g.PathOf(v, l + 1) != p)
    ensures g.PathOf(v, l) !in EntryPaths(p, n)
  {
  }

  /** Queries of `range` answer with aligned pieces of `bytes` bytes of one mapping. */
  ghost predicate AnswersInPieces<F>(g: Geometry, view: View<F>, range: AddrRange, bytes: nat)
    requires range.Size() > 0 && bytes > 0
  {
    var q := QueryResult(g, view, range.start);
    && q.Ok? && q.value.paddr % range.Size() == 0
    && forall v: nat | range.Contains(v) ::
         QueryResult(g, view, v) == Ok(PieceAround(Mapping(range, q.value.paddr, q.value.flags), bytes, v))
  }

  /** Levels have different spans. */
  lemma {:induction false} SpanIsStrict(g: Geometry, a: nat, b: nat)
    requires g.Lawful() && 1 <= a < b
    ensures g.Span(a) < g.Span(b)
  {
    ShiftIsStrict(g, a, b);
    Pow2Monotone(g.Shift(a) + 1, g.Shift(b));
  }

  lemma {:induction false} SameSpanSameLevel(g: Geometry, a: nat, b: nat)
    requires g.Lawful() && 1 <= a && 1 <= b && g.Span(a) == g.Span(b)
    ensures a == b
  {
    hide Geometry.Lawful;
    hide Geometry.Span;
    if a < b {
      SpanIsStrict(g, a, b);
    } else if b < a {
      SpanIsStrict(g, b, a);
    }
  }

  /** A child table is one aligned run of equal leaves exactly when queries of its block answer
      with pieces of one aligned mapping. */
  lemma {:induction false} MergeableIff<W(!new), F(!new)>(
      c: Config<W, F>, view: View<F>, root: nat, range: AddrRange, level: nat)
    requires c.geo.Lawful() && TreeOk(c, view, root) && IsBlock(c.geo, range, level) && level >= 2
    ensures range.Size() == c.geo.Span(level)
    ensures Mergeable(c.geo, view, c.geo.PathOf(range.start, level - 1), level) <==>
            AnswersInPieces(c.geo, view, range, c.geo.Span(level - 1))
  {
    hide TreeOk;
    hide IsBlock;
    hide Geometry.Lawful;
    hide Geometry.PathOf;
    hide QueryResult;
    hide PieceAround;
    hide Geometry.Span;
    hide Geometry.EntriesPerTable;
    hide FineAt;
    var p, span, n := c.geo.PathOf(range.start, level - 1), c.geo.Span(level - 1), c.geo.EntriesPerTable();
    BlockStart(c.geo, range, level);
    if Mergeable(c.geo, view, p, level) {
      var first := view[Step(p, 0)];
      forall v: nat | range.Contains(v)
        ensures QueryResult(c.geo, view, v) == Ok(PieceAround(Mapping(range, first.paddr, first.flags), span, v))
      {
        PieceAnswers(c, view, root, range, level, first.paddr, first.flags, v);
      }
      FirstPiece(Mapping(range, first.paddr, first.flags), span);
    }
    if AnswersInPieces(c.geo, view, range, span) {
      PiecesAreRun(c, view, root, range, level);
    }
  }

  lemma {:induction false} FirstPiece<F>(m: Mapping<F>, bytes: nat)
    requires bytes > 0 && m.range.Contains(m.range.start)
    ensures var piece := PieceAround(m, bytes, m.range.start);
            piece.paddr == m.paddr && piece.flags == m.flags
  {
    hide AddrRange.Contains;
    DivModUnique(0, bytes, 0, 0);
  }

  lemma {:induction false} PiecesAreRun<W(!new), F(!new)>(
      c: Config<W, F>, view: View<F>, root: nat, range: AddrRange, level: nat)
    requires c.geo.Lawful() && TreeOk(c, view, root) && IsBlock(c.geo, range, level) && level >= 2
    requires range.Size() == c.geo.Span(level) && AnswersInPieces(c.geo, view, range, c.geo.Span(level - 1))
    ensures Mergeable(c.geo, view, c.geo.PathOf(range.start, level - 1), level)
  {
    hide TreeOk;
    hide IsBlock;
    hide Geometry.Lawful;
    hide Geometry.PathOf;
    hide QueryResult;
    hide PieceAround;
    hide Geometry.Span;
    hide Geometry.EntriesPerTable;
    var p, span, n := c.geo.PathOf(range.start, level - 1), c.geo.Span(level - 1), c.geo.EntriesPerTable();
    var base := QueryResult(c.geo, view, range.start).value;
    forall i: nat | i < n ensures At(view, Step(p, i)) == Leaf(base.paddr + i * span, base.flags) {
      PieceOfRun(c, view, root, range, level, base.paddr, base.flags, i, base.paddr + i * span);
    }
    assert At(view, Step(p, 0)) == Leaf(base.paddr + 0 * span, base.flags);
    TableAbove(c, view, root, p, 0);
  }

  lemma {:induction false} TableAbove<W(!new), F(!new)>(c: Config<W, F>, view: View<F>, root: nat, p: Path, i: nat)
    requires TreeOk(c, view, root) && Step(p, i) in view
    ensures IsTable(view, p)
  {
    assert ChildOk(c, view, p, i);
  }

  /** What a query of the `i`-th piece finds is the leaf in the `i`-th slot. */
  lemma {:induction false} PieceOfRun<W(!new), F(!new)>(
      c: Config<W, F>, view: View<F>, root: nat, range: AddrRange, level: nat, paddr: nat, flags: F, i: nat,
      target: nat)
    requires c.geo.Lawful() && TreeOk(c, view, root) && IsBlock(c.geo, range, level) && level >= 2
    requires i < c.geo.EntriesPerTable() && target == paddr + i * c.geo.Span(level - 1)
    requires forall v: nat | range.Contains(v) ::
               QueryResult(c.geo, view, v) ==
               Ok(PieceAround(Mapping(range, paddr, flags), c.geo.Span(level - 1), v))
    ensures At(view, Step(c.geo.PathOf(range.start, level - 1), i)) == Leaf(target, flags)
  {
    hide TreeOk;
    hide IsBlock;
    hide Geometry.Lawful;
    hide Geometry.PathOf;
    hide QueryResult;
    hide Geometry.Span;
    hide Geometry.EntriesPerTable;
    hide ExactLevel;
    var span := c.geo.Span(level - 1);
    var v := range.start + i * span;
    PieceStart(c.geo, range, level, i, v);
    PieceIsBlock(c.geo, range, level, v, i, v);
    var piece := AddrRange(v, v + span);
    HoldsLeafIff(c, view, root, piece);
    var l := ExactLevel(c.geo, view, piece).value;
    BlockStart(c.geo, piece, level - 1);
    BlockLevel(c.geo, piece, l);
    SameSpanSameLevel(c.geo, l, level - 1);
  }

  lemma {:induction false} PieceStart(g: Geometry, range: AddrRange, level: nat, i: nat, v: nat)
    requires g.Lawful() && IsBlock(g, range, level) && level >= 2 && i < g.EntriesPerTable()
    requires v == range.start + i * g.Span(level - 1)
    ensures range.Contains(v) && (v - range.start) / g.Span(level - 1) == i
  {
    hide Geometry.Lawful;
    hide Geometry.VaddrIsValid;
    hide Geometry.Span;
    hide Geometry.EntriesPerTable;
    var span, n := g.Span(level - 1), g.EntriesPerTable();
    SpanStep(g, level - 1);
    MulMonotone(i + 1, n, span);
    assert (i + 1) * span == i * span + span && n * span == span * n;
    DivModUnique(i * span, span, i, 0);
  }

  /** After a merge exactly the queries of `range` have another answer: one leaf. */
  lemma {:induction false} QueriesAfterMerge<W(!new), F(!new)>(
      c: Config<W, F>, view: View<F>, coarse: View<F>, root: nat, range: AddrRange, level: nat)
    requires c.geo.Lawful() && TreeOk(c, view, root) && TreeOk(c, coarse, root)
    requires IsBlock(c.geo, range, level) && level >= 2
    requires var p := c.geo.PathOf(range.start, level - 1);
             && Mergeable(c.geo, view, p, level)
             && coarse == MergeView(view, p, view[Step(p, 0)].paddr, view[Step(p, 0)].flags, c.geo.EntriesPerTable())
    ensures QueryResult(c.geo, view, range.start).Ok?
    ensures forall v: nat ::
              var base := QueryResult(c.geo, view, range.start).value;
              QueryResult(c.geo, coarse, v) ==
              if range.Contains(v) then Ok(Mapping(range, base.paddr, base.flags))
              else QueryResult(c.geo, view, v)
  {
    hide TreeOk;
    hide IsBlock;
    hide Geometry.Lawful;
    hide Geometry.PathOf;
    hide QueryResult;
    hide MergeView;
    hide PieceAround;
    hide FineAt;
    hide Geometry.Span;
    hide Geometry.EntriesPerTable;
    var p, span, n := c.geo.PathOf(range.start, level - 1), c.geo.Span(level - 1), c.geo.EntriesPerTable();
    var first := view[Step(p, 0)];
    MergeViewAt(view, p, first.paddr, first.flags, n);
    BlockStart(c.geo, range, level);
    PieceAnswers(c, view, root, range, level, first.paddr, first.flags, range.start);
    FirstPiece(Mapping(range, first.paddr, first.flags), span);
    forall v: nat
      ensures QueryResult(c.geo, coarse, v) ==
              if range.Contains(v) then Ok(Mapping(range, first.paddr, first.flags))
              else QueryResult(c.geo, view, v)
    {
      if range.Contains(v) {
        LeafAnswers(c, coarse, root, range, level, v);
      } else {
        MergeElsewhere(c, view, coarse, root, range, level, v);
      }
    }
  }

  lemma {:induction false} MergeElsewhere<W(!new), F(!new)>(
      c: Config<W, F>, view: View<F>, coarse: View<F>, root: nat, range: AddrRange, level: nat, v: nat)
    requires c.geo.Lawful() && TreeOk(c, view, root) && TreeOk(c, coarse, root)
    requires IsBlock(c.geo, range, level) && level >= 2 && !range.Contains(v)
    requires var p := c.geo.PathOf(range.start, level - 1);
             && IsLeaf(view, Step(p, 0))
             && coarse == MergeView(view, p, view[Step(p, 0)].paddr, view[Step(p, 0)].flags, c.geo.EntriesPerTable())
    ensures QueryResult(c.geo, coarse, v) == QueryResult(c.geo, view, v)
  {
    hide TreeOk;
    hide IsBlock;
    hide Geometry.Lawful;
    hide Geometry.IndexAt;
    hide QueryResult;
    hide MergeView;
    hide Geometry.EntriesPerTable;
    hide Geometry.VaddrIsValid;
    var p, n := c.geo.PathOf(range.start, level - 1), c.geo.EntriesPerTable();
    MergeViewAt(view, p, view[Step(p, 0)].paddr, view[Step(p, 0)].flags, n);
    BlockLevel(c.geo, range, level);
    if c.geo.VaddrIsValid(v) {
      forall l | 0 <= l < c.geo.levels
        ensures LeafAt(view, c.geo.PathOf(v, l)) == LeafAt(coarse, c.geo.PathOf(v, l))
      {
        OtherBlockOtherSlot(c.geo, range, level, v, l);
        if l + 1 < c.geo.levels {
          OtherBlockOtherSlot(c.geo, range, level, v, l + 1);
        }
        NotAnEntry(c.geo, p, n, v, l);
      }
      SameLeavesAnswer(c, coarse, view, root, v);
    } else {
      InvalidAnswer(c.geo, view, v);
      InvalidAnswer(c.geo, coarse, v);
    }
  }

  /** A checked range of a supported size is the block of one slot. */
  lemma {:induction false} MergeTarget(g: Geometry, range: AddrRange, size: PageSize, level: nat)
    requires g.Lawful() && range.Valid()
    requires CheckLeafRange(g, range) == Ok(size) && g.LevelOfSize(size) == Some(level)
    ensures IsBlock(g, range, level) && g.LevelSupportsLeaf(level, size)
    ensures 1 <= level <= g.leafLevels <= g.levels
    ensures level >= 2 ==> g.LeafSizeAtLevel(level - 1).Some?
  {
    hide Canonical;
    LevelOfSizeIs(g, size, level);
    g.SizeIsSpan(level, size);
  }

  /** The block of a slot that may hold a leaf passes the checks of a merge. */
  lemma {:induction false} BlockPasses(g: Geometry, range: AddrRange, level: nat)
    requires g.Lawful() && IsBlock(g, range, level) && level <= g.leafLevels
    ensures CheckLeafRange(g, range).Ok? && g.LevelOfSize(CheckLeafRange(g, range).value) == Some(level)
  {
    hide Canonical;
    var size := g.LeafSizeAtLevel(level).value;
    g.SizeIsSpan(level, size);
    SameBytesSameSize(size, FromBytes(range.Size()));
    BlockIsValid(g, range, level, range.end - 1);
    LevelOfSizeIs(g, size, level);
  }

  lemma {:induction false} SameBytesSameSize(size: PageSize, found: Option<PageSize>)
    requires found == FromBytes(size.Bytes())
    ensures found == Some(size)
  {
  }

  /** Merging succeeds exactly on the block of a slot above level 1 that may hold a leaf, if it
      is mapped by that leaf already or queries answer with pieces of one aligned mapping. */
  lemma {:induction false} MergeMeaning<W(!new), F(!new)>(
      c: Config<W, F>, view: View<F>, root: nat, range: AddrRange, r: Result<PageSize>)
    requires c.geo.Lawful() && TreeOk(c, view, root) && range.Valid() && MergeAnswer(c.geo, view, range, r)
    ensures r.Ok? <==>
            exists l: nat ::
              && 2 <= l <= c.geo.leafLevels && IsBlock(c.geo, range, l) && range.Size() > 0
              && (HoldsLeaf(c.geo, view, range) || AnswersInPieces(c.geo, view, range, c.geo.Span(l - 1)))
    ensures r.Ok? ==> r.value.Bytes() == range.Size()
  {
    hide TreeOk;
    hide IsBlock;
    hide Geometry.Lawful;
    hide Geometry.PathOf;
    hide CheckLeafRange;
    hide Mergeable;
    hide AnswersInPieces;
    hide Geometry.Span;
    hide HoldsLeaf;
    hide Geometry.LevelOfSize;
    hide PageSize.Bytes;
    var size := CheckLeafRange(c.geo, range);
    if size.Ok? && c.geo.LevelOfSize(size.value).Some? {
      var l := c.geo.LevelOfSize(size.value).value;
      MergeTarget(c.geo, range, size.value, l);
      MergeAtBlock(c, view, root, range, l, r);
    }
    if l: nat :| 2 <= l <= c.geo.leafLevels && IsBlock(c.geo, range, l) {
      BlockPasses(c.geo, range, l);
    }
  }

  lemma {:induction false} MergeAtBlock<W(!new), F(!new)>(
      c: Config<W, F>, view: View<F>, root: nat, range: AddrRange, l: nat, r: Result<PageSize>)
    requires c.geo.Lawful() && TreeOk(c, view, root) && range.Valid() && MergeAnswer(c.geo, view, range, r)
    requires CheckLeafRange(c.geo, range).Ok? && c.geo.LevelOfSize(CheckLeafRange(c.geo, range).value) == Some(l)
    requires IsBlock(c.geo, range, l) && l <= c.geo.leafLevels
    ensures range.Size() == c.geo.Span(l)
    ensures r.Ok? <==>
            && 2 <= l
            && (HoldsLeaf(c.geo, view, range) || AnswersInPieces(c.geo, view, range, c.geo.Span(l - 1)))
    ensures r.Ok? ==> r.value.Bytes() == range.Size()
    ensures forall k: nat :: IsBlock(c.geo, range, k) ==> k == l
  {
    hide TreeOk;
    hide IsBlock;
    hide Geometry.Lawful;
    hide Geometry.PathOf;
    hide CheckLeafRange;
    hide AnswersInPieces;
    hide Geometry.Span;
    hide Geometry.LevelOfSize;
    hide PageSize.Bytes;
    hide Geometry.LeafSizeAtLevel;
    BlockStart(c.geo, range, l);
    BlockLevel(c.geo, range, l);
    forall k: nat | IsBlock(c.geo, range, k) ensures k == l {
      BlockStart(c.geo, range, k);
      BlockLevel(c.geo, range, k);
      SameSpanSameLevel(c.geo, k, l);
    }
    if l >= 2 {
      MergeableIff(c, view, root, range, l);
      MergeNeedsTable(c.geo, view, c.geo.PathOf(range.start, l - 1), l);
      if c.geo.PathOf(range.start, l - 1) in view {
        WalkedAbove(c, view, root, range.start, l - 1, l);
      }
      if r.Ok? {
        c.geo.SizeIsSpan(l, r.value);
      }
    }
  }

  /** Splitting succeeds exactly on the block of a leaf above level 1 and if a frame is granted;
      the pieces are as large as they are many, and an error names the condition that fails. */
  lemma {:induction false} SplitMeaning<W(!new), F(!new)>(
      c: Config<W, F>, s: Store<W>, view: View<F>, root: nat, range: AddrRange, after: View<F>, r: Result<PageSize>)
    requires c.geo.Lawful() && TreeOk(c, view, root)
    requires match ExactLevel(c.geo, view, range)
             case Err(e) => r == Err(e)
             case Ok(l) => if l == 1 then r == Err(NotMapped) else SplitOutcome(c, s, view, range, l, after, r)
    ensures r.Ok? <==> HoldsLeaf(c.geo, view, range) && range.Size() > c.geo.Span(1) && s.Alloc(c).1.Ok?
    ensures r.Ok? ==> r.value.Bytes() * c.geo.EntriesPerTable() == range.Size()
    ensures r.Err? ==>
              if !c.geo.VaddrIsValid(range.start) then r.error == AddressOutOfRange
              else if !HoldsLeaf(c.geo, view, range) || range.Size() == c.geo.Span(1) then r.error == NotMapped
              else s.Alloc(c).1 == Err(r.error)
  {
    hide TreeOk;
    hide IsBlock;
    hide HoldsLeaf;
    hide ExactLevel;
    hide QueryResult;
    hide SplitView;
    hide Geometry.Lawful;
    hide Geometry.PathOf;
    hide Geometry.Span;
    hide Geometry.EntriesPerTable;
    hide Store.Alloc;
    hide PageSize.Bytes;
    hide Geometry.LeafSizeAtLevel;
    hide Geometry.VaddrIsValid;
    HoldsLeafIff(c, view, root, range);
    if HoldsLeaf(c.geo, view, range) {
      var l := ExactLevel(c.geo, view, range).value;
      if l >= 2 {
        BlockLevel(c.geo, range, l);
        SpanIsStrict(c.geo, 1, l);
        SpanStep(c.geo, l - 1);
        if r.Ok? {
          c.geo.SizeIsSpan(l - 1, r.value);
        }
      }
    }
  }

  /** What queries say after a split, from its outcome. */
  lemma {:induction false} SplitAnswers<W(!new), F(!new)>(
      c: Config<W, F>, s: Store<W>, view: View<F>, root: nat, range: AddrRange, level: nat, after: View<F>,
      r: Result<PageSize>)
    requires c.geo.Lawful() && TreeOk(c, view, root) && TreeOk(c, after, root)
    requires ExactLevel(c.geo, view, range) == Ok(level) && level >= 2
    requires SplitOutcome(c, s, view, range, level, after, r) && r.Ok?
    ensures var q := QueryResult(c.geo, view, range.start);
            && q.Ok? && q.value.range == range
            && forall v: nat ::
                 QueryResult(c.geo, after, v) ==
                 if range.Contains(v) then Ok(PieceAround(q.value, r.value.Bytes(), v))
                 else QueryResult(c.geo, view, v)
  {
    hide TreeOk;
    hide IsBlock;
    hide ExactLevel;
    hide HoldsLeaf;
    hide QueryResult;
    hide SplitView;
    hide PieceAround;
    hide Geometry.Lawful;
    hide Geometry.PathOf;
    hide Geometry.Span;
    hide Geometry.EntriesPerTable;
    hide Store.Alloc;
    hide PageSize.Bytes;
    hide Geometry.LeafSizeAtLevel;
    HoldsLeafIff(c, view, root, range);
    c.geo.SizeIsSpan(level - 1, r.value);
    QueriesAfterSplit(c, view, after, root, range, level, s.Alloc(c).1.value);
  }

  /** What queries say after a merge that has succeeded: the whole range is one leaf. */
  lemma {:induction false} MergeAnswers<W(!new), F(!new)>(
      c: Config<W, F>, view: View<F>, root: nat, range: AddrRange, after: View<F>, r: Result<PageSize>)
    requires c.geo.Lawful() && TreeOk(c, view, root) && TreeOk(c, after, root) && range.Valid()
    requires MergeAnswer(c.geo, view, range, r) && r.Ok?
    requires MergeHappens(c.geo, view, range) ==>
               var p := c.geo.PathOf(range.start, MergeSite(c.geo, view, range).value - 1);
               after == MergeView(view, p, view[Step(p, 0)].paddr, view[Step(p, 0)].flags, c.geo.EntriesPerTable())
    requires !MergeHappens(c.geo, view, range) ==> after == view
    ensures var q := QueryResult(c.geo, view, range.start);
            && q.Ok?
            && forall v: nat ::
                 QueryResult(c.geo, after, v) ==
                 if range.Contains(v) then Ok(Mapping(range, q.value.paddr, q.value.flags))
                 else QueryResult(c.geo, view, v)
  {
    hide TreeOk;
    hide IsBlock;
    hide Geometry.Lawful;
    hide Geometry.PathOf;
    hide CheckLeafRange;
    hide Mergeable;
    hide QueryResult;
    hide MergeView;
    hide Geometry.Span;
    hide Geometry.LevelOfSize;
    hide PageSize.Bytes;
    hide Geometry.LeafSizeAtLevel;
    hide Geometry.EntriesPerTable;
    var l := MergeSite(c.geo, view, range).value;
    var p := c.geo.PathOf(range.start, l - 1);
    MergeTarget(c.geo, range, CheckLeafRange(c.geo, range).value, l);
    if Mergeable(c.geo, view, p, l) {
      FirstIsLeaf(c.geo, view, p, l);
      QueriesAfterMerge(c, view, after, root, range, l);
    } else {
      BlockStart(c.geo, range, l);
      forall v: nat | range.Contains(v)
        ensures QueryResult(c.geo, view, v) == Ok(Mapping(range, view[p].paddr, view[p].flags))
      {
        LeafAnswers(c, view, root, range, l, v);
      }
    }
  }

  lemma {:induction false} FirstIsLeaf<F>(g: Geometry, view: View<F>, p: Path, level: nat)
    requires Mergeable(g, view, p, level)
    ensures IsLeaf(view, Step(p, 0))
  {
  }

  /** The checks of a range that is to be one leaf, in their order: a length that is no page
      size, an address that is not valid, a misaligned start. */
  lemma {:induction false} LeafRangeErrors(g: Geometry, range: AddrRange)
    requires range.Valid()
    ensures var r := CheckLeafRange(g, range);
            if forall s: PageSize :: s.Bytes() != range.Size() then r == Err(UnsupportedSize)
            else if !g.VaddrIsValid(range.start) || !g.VaddrIsValid(range.end - 1) then r == Err(AddressOutOfRange)
            else if range.start % range.Size() != 0 then r == Err(NotAligned)
            else r.Ok? && r.value.Bytes() == range.Size()
  {
    hide FromBytes;
    hide Geometry.VaddrIsValid;
    hide PageSize.Bytes;
    if range.start < range.end {
      var size := FromBytes(range.Size());
      assert size.Some? ==> size.value.Bytes() == range.Size();
    }
  }

  /** The errors of a merge after those checks: a length that is no leaf size here, a single
      page, a slot that holds nothing, and last, entries that are not one run. */
  lemma {:induction false} MergeErrors<W(!new), F(!new)>(
      c: Config<W, F>, view: View<F>, root: nat, range: AddrRange, r: Result<PageSize>)
    requires c.geo.Lawful() && TreeOk(c, view, root) && range.Valid() && MergeAnswer(c.geo, view, range, r)
    ensures CheckLeafRange(c.geo, range).Err? ==> r == Err(CheckLeafRange(c.geo, range).error)
    ensures CheckLeafRange(c.geo, range).Ok? && r.Err? ==>
              if forall l: nat :: IsBlock(c.geo, range, l) ==> l > c.geo.leafLevels then r.error == UnsupportedSize
              else if IsBlock(c.geo, range, 1) then r.error == NotCoalescable
              else
                r.error == if exists l: nat :: IsBlock(c.geo, range, l) && c.geo.PathOf(range.start, l - 1) !in view
                           then NotMapped else NotCoalescable
  {
    hide TreeOk;
    hide IsBlock;
    hide Geometry.Lawful;
    hide Geometry.PathOf;
    hide CheckLeafRange;
    hide Mergeable;
    hide Geometry.Span;
    hide Geometry.LevelOfSize;
    hide PageSize.Bytes;
    hide Geometry.LeafSizeAtLevel;
    if CheckLeafRange(c.geo, range).Ok? {
      var level := c.geo.LevelOfSize(CheckLeafRange(c.geo, range).value);
      if level.Some? {
        MergeTarget(c.geo, range, CheckLeafRange(c.geo, range).value, level.value);
        MergeAtBlock(c, view, root, range, level.value, r);
        if c.geo.PathOf(range.start, level.value - 1) in view {
          WalkedAbove(c, view, root, range.start, level.value - 1, level.value);
        }
      }
      if l: nat :| IsBlock(c.geo, range, l) && l <= c.geo.leafLevels {
        BlockPasses(c.geo, range, l);
      }
    }
  }
}
