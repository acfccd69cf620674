/** Which requests are taken up, and what is said of the others, in bytes. */
module TakeUp {
  import opened Basics
  import opened Power
  import opened PageSizes
  import opened Geometries
  import opened Blocks
  import opened Translation
  import opened BlockEdits
  import opened BlockExactness
  import opened Requests
  import opened Extents
  import opened Plans
  import opened Answers

  /** A scattered request is taken up exactly when its length is a positive multiple of the
      granule, the granule is a leaf size of the format, and its extents, each a positive number
      of whole granules at a granule boundary, add up to the length. */
  lemma {:induction false} ScatteredTakenUpIff<F>(
      g: Geometry, range: AddrRange, backing: MapBacking, granule: PageSize, flags: F)
    requires g.Lawful()
    ensures RequestCheck(g, range, backing, MappingFlags(flags, Scattered(granule))).Ok? <==>
            var ranges := ExtentsOf(backing);
            && range.Size() > 0 && range.Size() % granule.Bytes() == 0
            && (exists level: nat :: g.LevelSupportsLeaf(level, granule))
            && SegOffset(ranges, |ranges|) == range.Size()
            && forall i: nat | i < |ranges| ::
                 && ranges[i].Size() > 0
                 && ranges[i].start % granule.Bytes() == 0
                 && ranges[i].Size() % granule.Bytes() == 0
    ensures match RequestCheck(g, range, backing, MappingFlags(flags, Scattered(granule)))
            case Ok(q) => q == Request(range, ExtentsOf(backing), Some(granule))
            case Err(e) =>
              e == if range.Size() == 0 || range.Size() % granule.Bytes() != 0 then InvalidMappingShape
                   else if forall level: nat :: !g.LevelSupportsLeaf(level, granule) then UnsupportedSize
                   else InvalidMappingShape
  {
    hide PageSize.Bytes;
    hide AddrRange.Size;
    hide SegmentsOk;
    hide Geometry.LevelSupportsLeaf;
    hide Geometry.LevelOfSize;
    hide ExtentsOf;
    SegmentsInBytes(ExtentsOf(backing), granule);
    SizeIsSupported(g, granule);
  }

  lemma {:induction false} SizeIsSupported(g: Geometry, size: PageSize)
    requires g.Lawful()
    ensures g.LevelOfSize(size).Some? <==> exists level: nat :: g.LevelSupportsLeaf(level, size)
  {
    hide Geometry.LevelSupportsLeaf;
    hide Geometry.Lawful;
    hide Geometry.LevelOfSize;
    if g.LevelOfSize(size).Some? {
      LevelOfSizeIs(g, size, g.LevelOfSize(size).value);
    }
    if level: nat :| g.LevelSupportsLeaf(level, size) {
      LevelOfSizeIs(g, size, level);
    }
  }

  /** A single leaf passes its checks exactly on the block of a slot that may hold one, for a
      valid target aligned to it; an error names the first condition that fails. */
  lemma {:induction false} LeafCheckIff(g: Geometry, range: AddrRange, paddr: nat)
    requires g.Lawful() && range.Valid()
    ensures LeafCheck(g, range, paddr).Ok? <==>
            && (exists l: nat :: IsBlock(g, range, l) && l <= g.leafLevels)
            && paddr < Pow2(g.paBits) && range.Size() > 0 && paddr % range.Size() == 0
    ensures match LeafCheck(g, range, paddr)
            case Ok((size, level)) => IsBlock(g, range, level) && size.Bytes() == range.Size()
            case Err(e) =>
              e == if forall s: PageSize :: s.Bytes() != range.Size() then UnsupportedSize
                   else if !g.VaddrIsValid(range.start) || !g.VaddrIsValid(range.end - 1) then AddressOutOfRange
                   else if range.start % range.Size() != 0 then NotAligned
                   else if paddr >= Pow2(g.paBits) then AddressOutOfRange
                   else if paddr % range.Size() != 0 then NotAligned
                   else UnsupportedSize
  {
    hide PageSize.Bytes;
    hide AddrRange.Size;
    hide IsBlock;
    hide Pow2;
    hide CheckLeafRange;
    hide Geometry.VaddrIsValid;
    hide Geometry.LevelOfSize;
    hide Geometry.LevelSupportsLeaf;
    hide Geometry.Lawful;
    hide Geometry.Span;
    LeafRangeErrors(g, range);
    if CheckLeafRange(g, range).Ok? {
      CheckedStart(g, range);
      var level := g.LevelOfSize(CheckLeafRange(g, range).value);
      if level.Some? {
        MergeTarget(g, range, CheckLeafRange(g, range).value, level.value);
      }
    }
    if l: nat :| IsBlock(g, range, l) && l <= g.leafLevels {
      BlockPasses(g, range, l);
    }
  }

  lemma {:induction false} CheckedStart(g: Geometry, range: AddrRange)
    requires CheckLeafRange(g, range).Ok?
    ensures CheckLeafRange(g, range).value.IsAligned(range.start) && range.Size() > 0
  {
    hide PageSize.Bytes;
    hide FromBytes;
    hide Geometry.VaddrIsValid;
  }

  /** Two page sizes of the same length are one. */
  lemma {:induction false} SizeByBytes(size: PageSize, bytes: nat)
    ensures size.Bytes() == bytes <==> FromBytes(bytes) == Some(size)
  {
  }

  /** A contiguous request is taken up exactly when it is backed by one extent of its own positive
      length and, if that length is a page size, one leaf of it can map the range. */
  lemma {:induction false} ContiguousTakenUpIff<F>(g: Geometry, range: AddrRange, backing: MapBacking, flags: F)
    requires g.Lawful()
    ensures RequestCheck(g, range, backing, MappingFlags(flags, Contiguous)).Ok? <==>
            && backing.OneExtent? && backing.phys.Size() == range.Size() > 0
            && forall size: PageSize | size.Bytes() == range.Size() ::
                 && g.VaddrIsValid(range.start) && g.VaddrIsValid(range.end - 1)
                 && g.PaddrIsValid(backing.phys.start)
                 && range.start % size.Bytes() == 0 && backing.phys.start % size.Bytes() == 0
                 && exists level: nat :: g.LevelSupportsLeaf(level, size)
    ensures match RequestCheck(g, range, backing, MappingFlags(flags, Contiguous))
            case Ok(q) => q == Request(range, ExtentsOf(backing), None)
            case Err(e) =>
              if !backing.OneExtent? || backing.phys.Size() != range.Size() || range.Size() == 0
              then e == InvalidMappingShape
              else
                e == if !g.VaddrIsValid(range.start) || !g.VaddrIsValid(range.end - 1) then AddressOutOfRange
                     else if range.start % range.Size() != 0 then NotAligned
                     else if !g.PaddrIsValid(backing.phys.start) then AddressOutOfRange
                     else if backing.phys.start % range.Size() != 0 then NotAligned
                     else UnsupportedSize
  {
    hide PageSize.Bytes;
    hide AddrRange.Size;
    hide FromBytes;
    hide Geometry.VaddrIsValid;
    hide Geometry.PaddrIsValid;
    hide Geometry.LevelSupportsLeaf;
    hide Geometry.LevelOfSize;
    hide Geometry.Lawful;
    forall size: PageSize
      ensures size.Bytes() == range.Size() <==> FromBytes(range.Size()) == Some(size)
    {
      SizeByBytes(size, range.Size());
    }
    if FromBytes(range.Size()).Some? {
      SizeIsSupported(g, FromBytes(range.Size()).value);
    }
  }

  /** The request has an answer that depends on the tree and on the allocator alone: its
      addresses are valid, its extents end at representable addresses, and it consists of whole
      aligned granules, or of whole aligned pages with a length that is a leaf size on its own
      boundary if it is a page size at all. */
  ghost predicate Answerable<F>(g: Geometry, range: AddrRange, backing: MapBacking, flags: MappingFlags<F>) {
    && range.Size() > 0 && (forall v: nat | range.Contains(v) :: g.VaddrIsValid(v))
    && match flags.contiguity
       case Scattered(granule) =>
         var ranges := ExtentsOf(backing);
         && range.start % granule.Bytes() == 0 && range.Size() % granule.Bytes() == 0
         && (exists level: nat :: g.LevelSupportsLeaf(level, granule))
         && SegOffset(ranges, |ranges|) == range.Size()
         && forall i: nat | i < |ranges| ::
              && ranges[i].Size() > 0 && ranges[i].end <= Pow2(g.paBits)
              && ranges[i].start % granule.Bytes() == 0 && ranges[i].Size() % granule.Bytes() == 0
       case Contiguous =>
         && backing.OneExtent?
         && backing.phys.Size() == range.Size() && backing.phys.end <= Pow2(g.paBits)
         && range.start % g.Span(1) == 0 && backing.phys.start % g.Span(1) == 0 && range.Size() % g.Span(1) == 0
         && forall size: PageSize | size.Bytes() == range.Size() ::
              && range.start % size.Bytes() == 0 && backing.phys.start % size.Bytes() == 0
              && exists level: nat :: g.LevelSupportsLeaf(level, size)
  }

  /** Extents that end below a limit lead only to addresses below it. */
  lemma {:induction false} TargetBelow(extents: seq<AddrRange>, limit: nat, j: nat, off: nat)
    requires j <= |extents| && forall i: nat | i < |extents| :: extents[i].end <= limit
    ensures TargetFrom(extents, j, off).Some? ==> TargetFrom(extents, j, off).value < limit
    decreases |extents| - j
  {
    if j < |extents| && off >= extents[j].Size() {
      TargetBelow(extents, limit, j + 1, off - extents[j].Size());
    }
  }

  lemma {:induction false} ExtentsInReach(g: Geometry, q: Request)
    requires SegOffset(q.extents, |q.extents|) == q.range.Size()
    requires forall i: nat | i < |q.extents| :: q.extents[i].end <= Pow2(g.paBits)
    requires forall v: nat | q.range.Contains(v) :: g.VaddrIsValid(v)
    ensures InReach(g, q)
  {
    hide Pow2;
    hide Geometry.VaddrIsValid;
    assert SegOffset(q.extents, 0) == 0;
    forall off: nat | off < q.range.Size() ensures ReachesAt(g, q, off) {
      TargetExists(q.extents, 0, off);
      TargetBelow(q.extents, Pow2(g.paBits), 0, off);
    }
  }

  /** Such a request is taken up, and well-formed. */
  lemma {:induction false} AnswerableIsTakenUp<F>(
      g: Geometry, range: AddrRange, backing: MapBacking, flags: MappingFlags<F>)
    requires g.Lawful() && range.Valid() && Answerable(g, range, backing, flags)
    ensures RequestCheck(g, range, backing, flags) ==
            Ok(Request(range, ExtentsOf(backing),
                       if flags.contiguity.Scattered? then Some(flags.contiguity.granule) else None))
    ensures WellFormed(g, Request(range, ExtentsOf(backing),
                                  if flags.contiguity.Scattered? then Some(flags.contiguity.granule) else None))
  {
    hide PageSize.Bytes;
    hide RequestCheck;
    hide InReach;
    hide Geometry.VaddrIsValid;
    hide Geometry.LevelSupportsLeaf;
    hide Geometry.Lawful;
    hide Pow2;
    hide WellFormed;
    match flags.contiguity {
      case Scattered(granule) =>
        ScatteredTakenUpIff(g, range, backing, granule, flags.leaf);
        ExtentsInReach(g, Request(range, ExtentsOf(backing), Some(granule)));
      case Contiguous =>
        var phys := backing.phys;
        ContiguousTakenUpIff(g, range, backing, flags.leaf);
        assert SegOffset([phys], 1) == SegOffset([phys], 0) + phys.Size();
        ExtentsInReach(g, Request(range, [phys], None));
        assert range.Contains(range.start) && range.Contains(range.end - 1);
    }
    TakenUpIsWellFormed(g, range, backing, flags);
  }
}
