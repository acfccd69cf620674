/** The extents of a request, one at a time: what each contributes to the plan. */
module Segments {
  import opened Basics
  import opened PageSizes
  import opened Geometries
  import opened Memory
  import opened Trie
  import opened Tlb
  import opened MapWalks
  import opened Tilings
  import opened Costs
  import opened Requests
  import opened Extents
  import opened Plans
  import opened Runs

  /** `range` is the part of the request after its first `base` bytes that `phys` backs. */
  ghost predicate BackedBy(q: Request, base: nat, range: AddrRange, phys: AddrRange) {
    && range.Valid() && phys.Valid() && q.range.Valid()
    && range.start == q.range.start + base && 0 < range.Size() == phys.Size()
    && base + range.Size() <= q.range.Size()
    && (forall off: nat | base <= off < base + range.Size() ::
          TargetOf(q.extents, off) == Some(phys.start + (off - base)))
  }

  /** It is the last such part, or consists of whole leaves of the fixed size. */
  ghost predicate ExtentOf(q: Request, base: nat, range: AddrRange, phys: AddrRange) {
    && BackedBy(q, base, range, phys)
    && (base + range.Size() == q.range.Size() || (q.fixed.Some? && q.fixed.value.IsAligned(range.Size())))
  }

  /** The part goes on far enough for a leaf of the fixed size, unless the request ends with it. */
  ghost predicate HasRoom(q: Request, base: nat, range: AddrRange, offset: nat) {
    || base + range.Size() == q.range.Size()
    || (q.fixed.Some? && offset + q.fixed.value.Bytes() <= range.Size())
  }

  /** An offset that leaves of the fixed size lead to. */
  ghost predicate WithinExtent(q: Request, offset: nat) {
    q.fixed.Some? ==> q.fixed.value.IsAligned(offset)
  }

  lemma {:induction false} ExtentFacts(q: Request, base: nat, range: AddrRange, phys: AddrRange)
    requires ExtentOf(q, base, range, phys)
    ensures range.Valid() && phys.Valid() && q.range.Valid() && WithinExtent(q, 0)
    ensures range.start == q.range.start + base && 0 < range.Size() == phys.Size()
    ensures base + range.Size() <= q.range.Size()
  {
  }

  /** Whole leaves of the fixed size leave room for the next one. */
  lemma {:induction false} GranuleHasRoom(q: Request, base: nat, range: AddrRange, phys: AddrRange, offset: nat)
    requires ExtentOf(q, base, range, phys) && offset < range.Size() && WithinExtent(q, offset)
    ensures BackedBy(q, base, range, phys) && HasRoom(q, base, range, offset)
    ensures q.fixed.Some? ==> WithinExtent(q, offset + q.fixed.value.Bytes())
  {
    hide BackedBy;
    hide PageSize.Bytes;
    if q.fixed.Some? {
      var size := q.fixed.value;
      if base + range.Size() != q.range.Size() {
        DifferenceMod(offset, range.Size() - offset, size.Bytes());
        AtLeastOne(range.Size() - offset, size.Bytes());
      }
      SumItself(offset, size.Bytes());
    }
  }

  /** The next leaf of the extent is the next leaf of the request. */
  lemma {:induction false} NextInExtent(
      g: Geometry, q: Request, base: nat, range: AddrRange, phys: AddrRange, offset: nat)
    requires BackedBy(q, base, range, phys) && offset < range.Size() && HasRoom(q, base, range, offset)
    ensures match PieceSize(g, q.fixed, range.start + offset, phys.start + offset, range.Size() - offset)
            case Err(e) => NextLeaf(g, q, base + offset) == Err(e)
            case Ok(size) =>
              var leaf := LeafAt(range.start + offset, size, phys.start + offset);
              && NextLeaf(g, q, base + offset) == Ok(leaf) && LinearAt(q, base + offset, leaf)
              && offset + size.Bytes() <= range.Size() && (q.fixed.Some? ==> size == q.fixed.value)
  {
    hide BestSize;
    hide PageSize.Bytes;
    assert TargetOf(q.extents, base + offset) == Some(phys.start + offset);
    if q.fixed.None? {
      var best := BestSize(g, range.start + offset, phys.start + offset, range.Size() - offset);
      if best.Some? {
        BestFits(g, range.start + offset, phys.start + offset, range.Size() - offset, best.value);
      }
    }
  }

  lemma {:induction false} SumItself(x: nat, d: nat)
    requires d > 0 && x % d == 0
    ensures (x + d) % d == 0
  {
    SumMod(x, d, d);
  }

  /** An extent whose length decides its leaf is that leaf. */
  lemma {:induction false} ExactInExtent(
      g: Geometry, q: Request, base: nat, range: AddrRange, phys: AddrRange, size: PageSize, level: nat)
    requires ExtentOf(q, base, range, phys)
    requires ExactLeafSize(g, range, phys.start, q.fixed) == Ok(Some((size, level)))
    ensures var leaf := LeafAt(range.start, size, phys.start);
            && NextLeaf(g, q, base) == Ok(leaf) && LinearAt(q, base, leaf) && q.range.Valid()
            && size.Bytes() == range.Size() && base + size.Bytes() <= q.range.Size()
            && LeafCheck(g, leaf.Range(), phys.start) == Ok((size, level))
  {
    hide BestSize;
    hide LeafCheck;
    ExactIsLeafCheck(g, range, phys.start, q.fixed);
    ExactPiece(g, range, phys.start, q.fixed, (size, level));
    GranuleHasRoom(q, base, range, phys, 0);
    NextInExtent(g, q, base, range, phys, 0);
    assert LeafAt(range.start, size, phys.start).Range() == range;
  }

  /** A request that is one leaf is what the greedy cut would have chosen. */
  lemma {:induction false} ExactPiece(
      g: Geometry, range: AddrRange, paddr: nat, fixed: Option<PageSize>, leaf: (PageSize, nat))
    requires ExactLeafSize(g, range, paddr, fixed) == Ok(Some(leaf))
    ensures range.Size() == leaf.0.Bytes()
    ensures PieceSize(g, fixed, range.start, paddr, range.Size()) == Ok(leaf.0)
  {
    hide BestSize;
    var size := leaf.0;
    if fixed.None? {
      BestSizeIs(g, range.start, paddr, range.Size(), size);
      SizesOrdered(size);
    }
  }

  lemma {:induction false} SizesOrdered(size: PageSize)
    ensures forall t: PageSize :: t.Bytes() == size.Bytes() ==> t == size
  {
    forall t: PageSize ensures t.Bytes() == size.Bytes() ==> t == size {
      SameBytes(t, size);
    }
  }

  /** An extent of one granule that fails the one-leaf decision fails as the next leaf. */
  lemma {:induction false} RefusedInExtent(
      g: Geometry, q: Request, base: nat, range: AddrRange, phys: AddrRange, e: PagingError)
    requires ExtentOf(q, base, range, phys) && q.fixed.Some?
    requires ExactLeafSize(g, range, phys.start, q.fixed) == Err(e)
    ensures var next := NextLeaf(g, q, base);
            && next.Ok? && base + next.value.size.Bytes() <= q.range.Size()
            && LeafCheck(g, next.value.Range(), next.value.paddr) == Err(e)
  {
    hide LeafCheck;
    ExactIsLeafCheck(g, range, phys.start, q.fixed);
    OneGranule(g, range, phys.start, q.fixed);
    GranuleHasRoom(q, base, range, phys, 0);
    NextInExtent(g, q, base, range, phys, 0);
    assert LeafAt(range.start, q.fixed.value, phys.start).Range() == range;
  }

  lemma {:induction false} OneGranule(g: Geometry, range: AddrRange, paddr: nat, fixed: Option<PageSize>)
    requires fixed.Some? && ExactLeafSize(g, range, paddr, fixed).Err?
    ensures range.Size() == fixed.value.Bytes()
  {
    hide Canonical;
  }

  /** The next leaf lies within the range of the request. */
  lemma {:induction false} NextRange(g: Geometry, q: Request, d: nat, leaf: LeafAt)
    requires NextLeaf(g, q, d) == Ok(leaf) && q.range.Valid() && d + leaf.size.Bytes() <= q.range.Size()
    ensures leaf.start == q.range.start + d
    ensures leaf.Range().Valid() && leaf.Range().Size() == leaf.size.Bytes()
  {
    hide PieceSize;
  }

  lemma {:induction false} NextCost(g: Geometry, q: Request, leaves: seq<LeafAt>, leaf: LeafAt)
    ensures var v := q.range.start;
            ReadBound(g, v, SizesOf(leaves + [leaf])) ==
              ReadBound(g, v, SizesOf(leaves)) + 1
              + (if ColdTile(g, v, SizesOf(leaves) + [leaf.size], |leaves|) then g.levels - 1 else 0)
  {
    hide ColdTile;
    SizesAppend(leaves, leaf);
    BoundGrows(g, q.range.start, SizesOf(leaves), leaf.size);
  }

  lemma {:induction false} AsLeafEffect<W(!new), F(!new)>(
      c: Config<W, F>, root: nat, foreign: map<nat, seq<W>>, dirty: iset<nat>, range: AddrRange, paddr: nat, flags: F,
      s: Store<W>, view: View<F>, s1: Store<W>, after: View<F>, r: Result<()>, size: PageSize, level: nat)
    requires LeafCheck(c.geo, range, paddr) == Ok((size, level)) && level >= 1
    requires LeafRequest(c, range, paddr, flags, size, level)
    requires (s1, r) == MapWalk(c, s, root, c.geo.levels, level, range.start, c.codec.newLeaf(paddr, flags, size))
    requires MapOutcome(c, root, foreign, dirty, range, paddr, flags, level, s, view, s1, after, r)
    ensures LeafEffect(c, root, foreign, dirty, range, paddr, flags, s, view, s1, after, r)
  {
    hide MapOutcome;
    hide MapWalk;
  }

  lemma {:induction false} CheckOfEffect<W(!new), F(!new)>(
      c: Config<W, F>, root: nat, foreign: map<nat, seq<W>>, dirty: iset<nat>, range: AddrRange, paddr: nat, flags: F,
      s: Store<W>, view: View<F>, s1: Store<W>, after: View<F>, r: Result<()>)
    requires LeafEffect(c, root, foreign, dirty, range, paddr, flags, s, view, s1, after, r)
    ensures r.Ok? ==> LeafCheck(c.geo, range, paddr).Ok?
  {
    hide MapOutcome;
    hide MapWalk;
    hide LeafCheck;
  }

  /** A leaf fails its checks, or in its walk. */
  lemma {:induction false} FailureOfLeaf<W(!new), F(!new)>(
      c: Config<W, F>, root: nat, foreign: map<nat, seq<W>>, dirty: iset<nat>,
      s: Store<W>, view: View<F>, s1: Store<W>, after: View<F>, q: Request, flags: F, d: nat, leaf: LeafAt,
      r: Result<()>)
    requires NextLeaf(c.geo, q, d) == Ok(leaf) && r.Err?
    requires LeafEffect(c, root, foreign, dirty, leaf.Range(), leaf.paddr, flags, s, view, s1, after, r)
    ensures FailsChecks(c.geo, q, d, r.error) <==> LeafCheck(c.geo, leaf.Range(), leaf.paddr).Err?
  {
    hide NextLeaf;
    hide LeafCheck;
    hide MapOutcome;
    hide MapWalk;
  }

  /** The addresses done and those of the leaf after them. */
  lemma {:induction false} AddressesGrow(q: Request, d: nat, leaf: LeafAt)
    requires leaf.start == q.range.start + d
    ensures AddressesOf(q.First(d)) + AddressesOf(leaf.Range()) == AddressesOf(q.First(d + leaf.size.Bytes()))
  {
    hide PageSize.Bytes;
  }

  /** A scattered request that has passed its checks. */
  ghost predicate ScatterShape(range: AddrRange, extents: seq<AddrRange>, granule: PageSize) {
    && range.Valid() && range.Size() > 0 && SegmentsOk(extents, granule)
    && (forall i | 0 <= i < |extents| :: extents[i].Valid())
    && SegOffset(extents, |extents|) == range.Size()
  }

  lemma {:induction false} ShapeStarts(range: AddrRange, extents: seq<AddrRange>, granule: PageSize)
    ensures SegOffset(extents, 0) == 0 && granule.IsAligned(0)
    ensures SizesOf([]) == [] && DoneBytes([]) == 0
  {
  }

  /** The next extent of a scattered request. */
  lemma {:induction false} NextExtent(range: AddrRange, extents: seq<AddrRange>, granule: PageSize, k: nat)
    requires ScatterShape(range, extents, granule) && k < |extents| && granule.IsAligned(SegOffset(extents, k))
    ensures ExtentOf(Request(range, extents, Some(granule)), SegOffset(extents, k),
                     SegmentRange(range.start, extents, k), extents[k])
    ensures granule.IsAligned(SegOffset(extents, k + 1)) && SegOffset(extents, k + 1) <= range.Size()
  {
    hide PageSize.Bytes;
    var base := SegOffset(extents, k);
    SegmentFits(range, extents, granule, k);
    SegOffsetMonotone(extents, k + 1, |extents|);
    assert SegOffset(extents, 0) == 0;
    forall off: nat | base <= off < base + extents[k].Size()
      ensures TargetOf(extents, off) == Some(extents[k].start + (off - base))
    {
      TargetInSegment(extents, 0, k, off - base);
    }
  }

  /** A contiguous request has one extent. */
  lemma {:induction false} WholeExtent(range: AddrRange, phys: AddrRange)
    requires range.Valid() && phys.Valid()
    ensures range.Size() == phys.Size() > 0 ==> ExtentOf(Request(range, [phys], None), 0, range, phys)
  {
    forall off: nat | 0 <= off < phys.Size() ensures TargetOf([phys], off) == Some(phys.start + (off - 0)) {
      OneTarget(phys, off);
    }
  }
}
