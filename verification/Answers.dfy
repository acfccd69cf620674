/** When a request to map a range succeeds, and what a failure means. */
module Answers {
  import opened Basics
  import opened PageSizes
  import opened Geometries
  import opened Entries
  import opened Memory
  import opened Trie
  import opened Translation
  import opened Histories
  import opened MapWalks
  import opened Pruning
  import opened Tilings
  import opened Costs
  import opened Requests
  import opened Extents
  import opened Plans
  import opened Runs

  /** The allocator grants every frame it is asked for. */
  ghost predicate Generous<W, F>(c: Config<W, F>) {
    forall live, tick {:trigger c.grants(live, tick)} ::
      match c.grants(live, tick)
      case Granted(start, size) => size == c.geo.Span(1) && start % c.geo.Span(1) == 0
      case Denied(_) => false
  }

  /** Where the bytes of a request lie: all its virtual addresses valid, and all its physical
      ones representable. */
  ghost predicate InReach(g: Geometry, q: Request) {
    && (forall v: nat | q.range.Contains(v) :: g.VaddrIsValid(v))
    && (forall off: nat | off < q.range.Size() :: ReachesAt(g, q, off))
  }

  ghost predicate ReachesAt(g: Geometry, q: Request, off: nat) {
    TargetOf(q.extents, off).Some? && g.PaddrIsValid(TargetOf(q.extents, off).value)
  }

  /** A checked request of whole pages or granules, within reach. */
  ghost predicate WellFormed(g: Geometry, q: Request) {
    && q.range.Valid() && q.range.Size() > 0 && InReach(g, q)
    && match q.fixed
       case Some(size) =>
         && g.LevelOfSize(size).Some? && size.IsAligned(q.range.start) && size.IsAligned(q.range.Size())
         && SegmentsOk(q.extents, size)
       case None =>
         && |q.extents| == 1 && q.extents[0].Size() == q.range.Size()
         && q.range.start % g.Span(1) == 0 && q.extents[0].start % g.Span(1) == 0 && q.range.Size() % g.Span(1) == 0
  }

  /** Offsets of whole granules lead to aligned addresses. */
  lemma {:induction false} TargetAligned(extents: seq<AddrRange>, size: PageSize, j: nat, off: nat)
    requires j <= |extents| && SegmentsOk(extents, size) && size.IsAligned(off)
    ensures TargetFrom(extents, j, off).Some? ==> size.IsAligned(TargetFrom(extents, j, off).value)
    decreases |extents| - j
  {
    hide PageSize.Bytes;
    if j < |extents| {
      assert SegmentOk(extents[j], size);
      if off < extents[j].Size() {
        SumMod(extents[j].start, off, size.Bytes());
      } else {
        DifferenceMod(extents[j].Size(), off - extents[j].Size(), size.Bytes());
        TargetAligned(extents, size, j + 1, off - extents[j].Size());
      }
    }
  }

  /** What has been mapped of a well-formed request is whole pages or granules. */
  lemma {:induction false} PlannedPages(g: Geometry, q: Request, leaves: seq<LeafAt>, i: nat)
    requires g.Lawful() && WellFormed(g, q) && Planned(g, q, leaves) && i <= |leaves|
    ensures match q.fixed
            case Some(size) => size.IsAligned(Offset(SizesOf(leaves), i))
            case None => Offset(SizesOf(leaves), i) % g.Span(1) == 0
    decreases i
  {
    hide PageSize.Bytes;
    hide BestSize;
    hide InReach;
    hide Lawful;
    hide Geometry.Lawful;
    if i == 0 {
      NothingMod(g.Span(1));
      if q.fixed.Some? {
        NothingMod(q.fixed.value.Bytes());
      }
    } else {
      PlannedPages(g, q, leaves, i - 1);
      assert PlannedAt(g, q, leaves, i - 1);
      var done, size := Offset(SizesOf(leaves), i - 1), leaves[i - 1].size;
      if q.fixed.Some? {
        SelfMod(size.Bytes());
        SumMod(done, size.Bytes(), size.Bytes());
      } else {
        var p, remaining := leaves[i - 1].paddr, if done <= q.range.Size() then q.range.Size() - done else 0;
        BestFits(g, q.range.start + done, p, remaining, size);
        FitsIsPages(g, q.range.start + done, p, remaining, size);
        SumMod(done, size.Bytes(), g.Span(1));
      }
    }
  }

  lemma {:induction false} NothingMod(d: nat)
    requires d > 0
    ensures 0 % d == 0
  {
  }

  lemma {:induction false} SelfMod(d: nat)
    requires d > 0
    ensures d % d == 0
  {
  }

  /** A size that fits addresses within reach passes the checks of a leaf. */
  lemma {:induction false} FittingLeafPasses(g: Geometry, leaf: LeafAt)
    requires leaf.size.IsAligned(leaf.start) && leaf.size.IsAligned(leaf.paddr) && g.LevelOfSize(leaf.size).Some?
    requires g.VaddrIsValid(leaf.start) && g.VaddrIsValid(leaf.start + leaf.size.Bytes() - 1)
             && g.PaddrIsValid(leaf.paddr)
    ensures LeafCheck(g, leaf.Range(), leaf.paddr).Ok?
  {
    hide Canonical;
    SameBytes(leaf.size, FromBytes(leaf.Range().Size()).value);
  }

  /** A well-formed request always has a next leaf, and it passes its checks. */
  lemma {:induction false} NextLeafPasses(g: Geometry, q: Request, leaves: seq<LeafAt>)
    requires g.Lawful() && WellFormed(g, q) && Planned(g, q, leaves) && DoneBytes(leaves) < q.range.Size()
    ensures var next := NextLeaf(g, q, DoneBytes(leaves));
            next.Ok? && LeafCheck(g, next.value.Range(), next.value.paddr).Ok?
  {
    hide PageSize.Bytes;
    hide BestSize;
    hide LeafCheck;
    hide Canonical;
    hide Geometry.Lawful;
    hide Geometry.PaddrIsValid;
    hide SizeOfShift;
    hide Geometry.VaddrIsValid;
    var done := DoneBytes(leaves);
    PlannedPages(g, q, leaves, |leaves|);
    assert ReachesAt(g, q, done);
    var p, remaining := TargetOf(q.extents, done).value, q.range.Size() - done;
    match q.fixed {
      case Some(size) =>
        TargetAligned(q.extents, size, 0, done);
        DifferenceMod(done, remaining, size.Bytes());
        AtLeastOne(remaining, size.Bytes());
        SumMod(q.range.start, done, size.Bytes());
      case None =>
        OneTarget(q.extents[0], done);
        SumMod(q.range.start, done, g.Span(1));
        SumMod(q.extents[0].start, done, g.Span(1));
        DifferenceMod(done, remaining, g.Span(1));
        BasePageFits(g, q.range.start + done, p, remaining);
        BestFits(g, q.range.start + done, p, remaining, BestSize(g, q.range.start + done, p, remaining).value);
    }
    var leaf := NextLeaf(g, q, done).value;
    assert q.range.Contains(leaf.start) && q.range.Contains(leaf.start + leaf.size.Bytes() - 1);
    FittingLeafPasses(g, leaf);
  }

  /** A generous allocator refuses nothing. */
  lemma {:induction false} NeverRefused<W, F>(c: Config<W, F>, s: Store<W>, e: PagingError)
    requires Generous(c)
    ensures !RefusedLast(c, s, e)
  {
    if s.tick >= 1 {
      var _ := c.grants(s.words.Keys, s.tick - 1);
    }
  }

  lemma {:induction false} FreeIsUnoccupied<W, F>(c: Config<W, F>, root: nat, m: map<nat, seq<W>>, q: Request)
    requires MapsNothing(c, root, m, q.First(q.range.Size())) && q.range.Size() > 0
    ensures !Occupied(c, root, m, q.range)
  {
    hide Xlate;
    assert q.First(q.range.Size()) == q.range;
  }

  /** The answer of a well-formed request in a tight tree: it succeeds only if no address of
      its range was translated, says that one is mapped only if one was, and raises any other
      error only because the allocator has just refused a frame. */
  lemma {:induction false} AnswerIsExact<W(!new), F(!new)>(
      c: Config<W, F>, root: nat, s0: Store<W>, view0: View<F>, s1: Store<W>, view1: View<F>, q: Request, flags: F,
      r: Result<()>, leaves: seq<LeafAt>)
    requires c.geo.Lawful() && WellFormed(c.geo, q) && Tight(view0)
    requires RequestOutcome(c, root, s0, view0, s1, view1, q, flags, r, leaves)
    ensures r.Ok? ==> !Occupied(c, root, s0.words, q.range)
    ensures r == Err(AlreadyMapped) ==> Occupied(c, root, s0.words, q.range)
    ensures r.Err? && r.error != AlreadyMapped ==> RefusedLast(c, s1, r.error)
    ensures r.Ok? || !RefusedLast(c, s1, r.error) ==>
              r == if Occupied(c, root, s0.words, q.range) then Err(AlreadyMapped) else Ok(())
  {
    hide Lawful;
    hide NextLeaf;
    hide LeafCheck;
    hide Tight;
    hide Occupied;
    hide RefusedLast;
    hide RunRequest;
    hide AfterLeaves;
    hide Chained;
    hide MapsNothing;
    hide Stranded;
    hide NoChange;
    if r.Ok? {
      assert r.value == ();
      FreeIsUnoccupied(c, root, s0.words, q);
    } else {
      NextLeafPasses(c.geo, q, leaves);
    }
  }

  /** The alignment that a request's leaves call for. */
  ghost predicate WholePages<F>(g: Geometry, range: AddrRange, backing: MapBacking, flags: MappingFlags<F>) {
    match flags.contiguity
    case Scattered(granule) => granule.IsAligned(range.start)
    case Contiguous =>
      && range.start % g.Span(1) == 0 && range.Size() % g.Span(1) == 0
      && (backing.OneExtent? ==> backing.phys.start % g.Span(1) == 0)
  }

  /** A request that is taken up, of whole pages and within reach, is well-formed. */
  lemma {:induction false} TakenUpIsWellFormed<F>(
      g: Geometry, range: AddrRange, backing: MapBacking, flags: MappingFlags<F>)
    requires range.Valid() && RequestCheck(g, range, backing, flags).Ok? && WholePages(g, range, backing, flags)
    requires InReach(g, RequestCheck(g, range, backing, flags).value)
    ensures WellFormed(g, RequestCheck(g, range, backing, flags).value)
  {
    hide ExactLeafSize;
    hide InReach;
  }

  /** Errors about the shape of a request. */
  predicate ShapeError(e: PagingError) {
    e == InvalidMappingShape || e == UnsupportedSize
  }

  lemma {:induction false} TargetExists(extents: seq<AddrRange>, j: nat, off: nat)
    requires j <= |extents| && SegOffset(extents, j) + off < SegOffset(extents, |extents|)
    ensures TargetFrom(extents, j, off).Some?
    decreases |extents| - j
  {
    if j < |extents| && off >= extents[j].Size() {
      TargetExists(extents, j + 1, off - extents[j].Size());
    }
  }

  /** A scattered request that passed its checks always has a next leaf. */
  lemma {:induction false} NextGranule<W, F>(
      c: Config<W, F>, range: AddrRange, backing: MapBacking, granule: PageSize, q: Request, leaves: seq<LeafAt>)
    requires ScatterCheck(c.geo, range, backing, granule).Ok?
    requires q == Request(range, ExtentsOf(backing), Some(granule))
    requires Planned(c.geo, q, leaves) && DoneBytes(leaves) < range.Size()
    ensures var next := NextLeaf(c.geo, q, DoneBytes(leaves));
            next.Ok? && next.value.size == granule && next.value.start == range.start + DoneBytes(leaves)
    ensures granule.IsAligned(DoneBytes(leaves))
  {
    hide PageSize.Bytes;
    var done := DoneBytes(leaves);
    forall i | 0 <= i < |leaves| ensures SizesOf(leaves)[i] == granule {
      assert PlannedAt(c.geo, q, leaves, i);
    }
    OffsetUniform(SizesOf(leaves), granule, |leaves|);
    Power.MultipleMod(|leaves|, granule.Bytes());
    assert SegOffset(q.extents, 0) == 0;
    TargetExists(q.extents, 0, done);
    DifferenceMod(done, range.Size() - done, granule.Bytes());
    AtLeastOne(range.Size() - done, granule.Bytes());
  }

  /** Such a request never ends with a shape error. */
  lemma {:induction false} ScatteredErrors<W(!new), F(!new)>(
      c: Config<W, F>, root: nat, s0: Store<W>, view0: View<F>, s1: Store<W>, view1: View<F>,
      range: AddrRange, backing: MapBacking, granule: PageSize, flags: F, r: Result<()>, leaves: seq<LeafAt>)
    requires ConfigOk(c) && ScatterCheck(c.geo, range, backing, granule).Ok?
    requires RequestOutcome(c, root, s0, view0, s1, view1, Request(range, ExtentsOf(backing), Some(granule)), flags,
                            r, leaves)
    ensures r.Err? ==> !ShapeError(r.error)
  {
    hide ConfigOk;
    hide NextLeaf;
    hide LeafCheck;
    hide Tight;
    hide Occupied;
    hide RefusedLast;
    hide RunRequest;
    hide AfterLeaves;
    hide Chained;
    hide MapsNothing;
    hide Stranded;
    hide NoChange;
    hide ScatterCheck;
    if r.Err? {
      var q := Request(range, ExtentsOf(backing), Some(granule));
      NextGranule(c, range, backing, granule, q, leaves);
      var leaf := NextLeaf(c.geo, q, DoneBytes(leaves)).value;
      GranuleLevel(c.geo, range, backing, granule);
      LeafShape(c.geo, leaf);
      if RefusedLast(c, s1, r.error) {
        RefusalErrors(c, s1, r.error);
      }
    }
  }

  lemma {:induction false} GranuleLevel(g: Geometry, range: AddrRange, backing: MapBacking, granule: PageSize)
    requires ScatterCheck(g, range, backing, granule).Ok?
    ensures g.LevelOfSize(granule).Some? && range.Size() > 0
  {
  }

  lemma {:induction false} RefusalErrors<W(!new), F(!new)>(c: Config<W, F>, s: Store<W>, e: PagingError)
    requires ConfigOk(c) && RefusedLast(c, s, e)
    ensures e == OutOfMemory || e == NotAligned
  {
    hide ConfigOk;
    AllocStep(c, Store(s.words, s.tick - 1, s.log));
  }

  /** Checking one leaf of a supported size raises no shape error, and fails if it is not
      aligned to its size. */
  lemma {:induction false} LeafShape(g: Geometry, leaf: LeafAt)
    requires g.LevelOfSize(leaf.size).Some?
    ensures LeafCheck(g, leaf.Range(), leaf.paddr).Err? ==> !ShapeError(LeafCheck(g, leaf.Range(), leaf.paddr).error)
    ensures !leaf.size.IsAligned(leaf.start) ==>
              LeafCheck(g, leaf.Range(), leaf.paddr) in {Err(AddressOutOfRange), Err(NotAligned)}
  {
    hide Canonical;
    SameBytes(leaf.size, FromBytes(leaf.Range().Size()).value);
  }

  /** A scattered request whose range is not aligned to the granule fails at its first leaf,
      with nothing changed. */
  lemma {:induction false} MisalignedIsRefused<W, F>(
      c: Config<W, F>, s: Store<W>, root: nat, range: AddrRange, backing: MapBacking, granule: PageSize, flags: F)
    requires ScatterCheck(c.geo, range, backing, granule).Ok? && !granule.IsAligned(range.start)
    ensures var (s1, r, leaves) := RunRequest(c, s, root, Request(range, ExtentsOf(backing), Some(granule)), flags, 0);
            s1 == s && leaves == [] && r in {Err(AddressOutOfRange), Err(NotAligned)}
  {
    hide NextLeaf;
    hide LeafCheck;
    hide MapWalk;
    hide ScatterCheck;
    var q := Request(range, ExtentsOf(backing), Some(granule));
    GranuleLevel(c.geo, range, backing, granule);
    assert SizesOf([]) == [] && DoneBytes([]) == 0;
    NextGranule(c, range, backing, granule, q, []);
    LeafShape(c.geo, NextLeaf(c.geo, q, 0).value);
  }
}
