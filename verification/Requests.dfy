/** Requests to map a range, and the checks they have to pass before memory is touched. */
module Requests {
  import opened Basics
  import opened PageSizes
  import opened Geometries
  import opened Entries
  import opened Memory
  import opened MapWalks
  import opened Tilings
  import opened LeafEdits
  import opened BlockEdits
  import opened BlockExactness
  import opened Walker

  /** Physical backing of a request: one extent, or an ordered list of extents. */
  datatype MapBacking = OneExtent(phys: AddrRange) | ManyExtents(ranges: seq<AddrRange>)

  /** Every extent has a representable end. */
  ghost predicate BackingValid(backing: MapBacking) {
    match backing
    case OneExtent(phys) => phys.Valid()
    case ManyExtents(ranges) => forall i | 0 <= i < |ranges| :: ranges[i].Valid()
  }

  /** Whether the backing has to be one extent or every leaf has one fixed size. */
  datatype Contiguity = Contiguous | Scattered(granule: PageSize)

  datatype MappingFlags<+F> = MappingFlags(leaf: F, contiguity: Contiguity)

  /** Checks before mapping `range` to `paddr` as one leaf; its size and level. */
  function LeafCheck(g: Geometry, range: AddrRange, paddr: nat): Result<(PageSize, nat)> {
    var size :- CheckLeafRange(g, range);
    var _ :- CheckPaddr(g, paddr);
    if !size.IsAligned(range.start) || !size.IsAligned(paddr) then Err(NotAligned)
    else
      var level :- g.LevelOfSize(size).OkOr(UnsupportedSize);
      Ok((size, level))
  }

  /** Whether the whole request is to be one leaf: decided by its byte length alone. */
  function ExactLeafSize(g: Geometry, range: AddrRange, paddr: nat, fixed: Option<PageSize>)
      : Result<Option<(PageSize, nat)>>
  {
    match FromBytes(range.Size())
    case None => Ok(None)
    case Some(size) =>
      if fixed.Some? && fixed.value != size then Ok(None)
      else
        var _ :- CheckVaddr(g, range.start);
        var _ :- CheckVaddr(g, range.end - 1);
        if !size.IsAligned(range.start) then Err(NotAligned)
        else
          var _ :- CheckPaddr(g, paddr);
          if !size.IsAligned(paddr) then Err(NotAligned)
          else
            var level :- g.LevelOfSize(size).OkOr(UnsupportedSize);
            Ok(Some((size, level)))
  }

  /** The largest leaf size that fits, tried from the largest down. */
  method BestLeafSize(g: Geometry, vaddr: nat, paddr: nat, remaining: nat) returns (r: Result<PageSize>)
    ensures r == BestSize(g, vaddr, paddr, remaining).OkOr(UnsupportedSize)
  {
    for i := 0 to |LEAF_SIZES_DESC|
      invariant FirstFit(g, vaddr, paddr, remaining, LEAF_SIZES_DESC[i..]) == BestSize(g, vaddr, paddr, remaining)
    {
      var size := LEAF_SIZES_DESC[i];
      assert LEAF_SIZES_DESC[i..][1..] == LEAF_SIZES_DESC[i + 1..];
      if remaining >= size.Bytes() && size.IsAligned(vaddr) && size.IsAligned(paddr) {
        var level := SizeToLevel(g, size);
        if level.Some? {
          return Ok(size);
        }
      }
    }
    return Err(UnsupportedSize);
  }

  /** An address `offset` further on, if it is representable. */
  function OffsetAddress(base: nat, offset: nat): Result<nat> {
    if base + offset < ADDRESS_LIMIT then Ok(base + offset) else Err(AddressOutOfRange)
  }

  /** A leaf that passes the checks is a well-formed request. */
  lemma {:induction false} CheckedLeaf<W(!new), F(!new)>(c: Config<W, F>, range: AddrRange, paddr: nat, flags: F)
    requires ConfigOk(c) && range.Valid() && c.codec.encodable(flags)
    ensures match LeafCheck(c.geo, range, paddr)
            case Ok((size, level)) => LeafRequest(c, range, paddr, flags, size, level) && range.Size() == size.Bytes()
            case Err(_) => true
  {
    hide Lawful;
    hide AllocatorOk;
    hide Canonical;
    match LeafCheck(c.geo, range, paddr)
    case Ok((size, level)) =>
      MergeTarget(c.geo, range, size, level);
      c.geo.SizeIsSpan(level, size);
      AlignedTargetFits(c, level, paddr);
    case Err(_) =>
  }

  /** The one-leaf decision makes the checks of a single leaf. */
  lemma {:induction false} ExactIsLeafCheck(g: Geometry, range: AddrRange, paddr: nat, fixed: Option<PageSize>)
    requires range.Valid()
    ensures match ExactLeafSize(g, range, paddr, fixed)
            case Ok(Some(leaf)) => LeafCheck(g, range, paddr) == Ok(leaf)
            case Ok(None) => FromBytes(range.Size()).None? || (fixed.Some? && fixed.value.Bytes() != range.Size())
            case Err(e) => LeafCheck(g, range, paddr) == Err(e)
  {
  }

  /** A contiguous request of valid addresses in whole base pages, as its documentation
      allows: leaves of any legal size may cover it. */
  ghost predicate PageRequest(g: Geometry, range: AddrRange, paddr: nat) {
    && range.Valid() && range.start < range.end
    && g.VaddrIsValid(range.start) && g.VaddrIsValid(range.end - 1) && g.PaddrIsValid(paddr)
    && range.start % g.Span(1) == 0 && paddr % g.Span(1) == 0 && range.Size() % g.Span(1) == 0
  }

  /** Every such request can be cut into legal leaves; the code takes it up exactly when its
      length is none of the ten leaf sizes, or is one that the format has and both addresses
      are aligned to it. In the remaining cases it fails without trying smaller leaves. */
  lemma {:induction false} TakenUpIff(g: Geometry, range: AddrRange, paddr: nat)
    requires g.Lawful() && PageRequest(g, range, paddr)
    ensures GreedyCut(g, range.start, paddr, range.Size()).Some?
    ensures ExactLeafSize(g, range, paddr, None).Ok? <==>
            match FromBytes(range.Size())
            case None => true
            case Some(size) => g.LevelOfSize(size).Some? && size.IsAligned(range.start) && size.IsAligned(paddr)
    ensures ExactLeafSize(g, range, paddr, None).Err? ==>
              ExactLeafSize(g, range, paddr, None).error in {NotAligned, UnsupportedSize}
  {
    hide Canonical;
    CutExistsIff(g, range.start, paddr, range.Size());
  }

  /** The checks of a contiguous request as a whole. */
  function ContiguousCheck(g: Geometry, range: AddrRange, phys: AddrRange, fixed: Option<PageSize>)
      : Result<Option<(PageSize, nat)>>
  {
    if range.Size() == 0 || phys.Size() == 0 || range.Size() != phys.Size() then Err(InvalidMappingShape)
    else ExactLeafSize(g, range, phys.start, fixed)
  }
}
