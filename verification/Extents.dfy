/** The physical extents that back a virtual range. */
module Extents {
  import opened Basics
  import opened PageSizes
  import opened Geometries
  import opened Tilings
  import opened Requests

  /** Bytes in the first `j` extents. */
  function SegOffset(ranges: seq<AddrRange>, j: nat): nat
    requires j <= |ranges|
    decreases j
  {
    if j == 0 then 0 else SegOffset(ranges, j - 1) + ranges[j - 1].Size()
  }

  /** The physical address `off` bytes into the extents from the `j`-th on. */
  function TargetFrom(ranges: seq<AddrRange>, j: nat, off: nat): Option<nat>
    requires j <= |ranges|
    decreases |ranges| - j
  {
    if j == |ranges| then None
    else if off < ranges[j].Size() then Some(ranges[j].start + off)
    else TargetFrom(ranges, j + 1, off - ranges[j].Size())
  }

  /** The concatenation of the extents. */
  function TargetOf(ranges: seq<AddrRange>, off: nat): Option<nat> {
    TargetFrom(ranges, 0, off)
  }

  lemma {:induction false} SegOffsetMonotone(ranges: seq<AddrRange>, i: nat, j: nat)
    requires i <= j <= |ranges|
    ensures SegOffset(ranges, i) <= SegOffset(ranges, j)
    ensures i < j ==> SegOffset(ranges, i) + ranges[i].Size() <= SegOffset(ranges, j)
    decreases j
  {
    if i < j {
      SegOffsetMonotone(ranges, i, j - 1);
    }
  }

  lemma {:induction false} TargetInSegment(ranges: seq<AddrRange>, i: nat, j: nat, k: nat)
    requires i <= j < |ranges| && k < ranges[j].Size()
    ensures SegOffset(ranges, i) <= SegOffset(ranges, j)
    ensures TargetFrom(ranges, i, SegOffset(ranges, j) - SegOffset(ranges, i) + k) == Some(ranges[j].start + k)
    decreases j - i
  {
    SegOffsetMonotone(ranges, i, j);
    if i < j {
      TargetInSegment(ranges, i + 1, j, k);
    }
  }

  /** An extent is non-empty and consists of whole, aligned granules. */
  predicate SegmentOk(phys: AddrRange, granule: PageSize) {
    phys.Size() > 0 && granule.IsAligned(phys.start) && granule.IsAligned(phys.Size())
  }

  predicate SegmentsOk(ranges: seq<AddrRange>, granule: PageSize) {
    forall i | 0 <= i < |ranges| :: SegmentOk(ranges[i], granule)
  }

  /** The extents of a backing. */
  function ExtentsOf(backing: MapBacking): seq<AddrRange> {
    match backing
    case OneExtent(phys) => [phys]
    case ManyExtents(ranges) => ranges
  }

  /** The checks of a scattered request. */
  function ScatterCheck(g: Geometry, range: AddrRange, backing: MapBacking, granule: PageSize): Result<()> {
    var ranges := ExtentsOf(backing);
    if range.Size() == 0 || !granule.IsAligned(range.Size()) then Err(InvalidMappingShape)
    else if g.LevelOfSize(granule).None? then Err(UnsupportedSize)
    else if !SegmentsOk(ranges, granule) || SegOffset(ranges, |ranges|) != range.Size() then Err(InvalidMappingShape)
    else Ok(())
  }

  /** One extent fits a granule, or the request is misshapen. */
  function CheckScatterSegment(phys: AddrRange, granule: PageSize): Result<()> {
    if phys.Size() == 0 || !granule.IsAligned(phys.start) || !granule.IsAligned(phys.Size())
    then Err(InvalidMappingShape) else Ok(())
  }

  /** The extents fit exactly if each is a positive number of whole granules at a boundary. */
  lemma {:induction false} SegmentsInBytes(ranges: seq<AddrRange>, granule: PageSize)
    ensures SegmentsOk(ranges, granule) <==>
            forall i: nat | i < |ranges| ::
              && ranges[i].Size() > 0
              && ranges[i].start % granule.Bytes() == 0
              && ranges[i].Size() % granule.Bytes() == 0
  {
    hide PageSize.Bytes;
    hide AddrRange.Size;
    forall i: nat | i < |ranges|
      ensures SegmentOk(ranges[i], granule) <==>
              ranges[i].Size() > 0 && ranges[i].start % granule.Bytes() == 0
              && ranges[i].Size() % granule.Bytes() == 0
    {
    }
  }

  /** All extents fit the granule and fill exactly `size` bytes. */
  method CheckSegments(ranges: seq<AddrRange>, granule: PageSize, size: nat) returns (r: Result<()>)
    requires 0 < size < ADDRESS_LIMIT
    ensures r == if SegmentsOk(ranges, granule) && SegOffset(ranges, |ranges|) == size then Ok(())
                 else Err(InvalidMappingShape)
    ensures r.Ok? <==>
              && SegOffset(ranges, |ranges|) == size
              && forall i: nat | i < |ranges| ::
                   && ranges[i].Size() > 0
                   && ranges[i].start % granule.Bytes() == 0
                   && ranges[i].Size() % granule.Bytes() == 0
  {
    hide AddrRange.Size;
    hide PageSize.Bytes;
    SegmentsInBytes(ranges, granule);
    if |ranges| == 0 {
      return Err(InvalidMappingShape);
    }
    var total := 0;
    for i := 0 to |ranges|
      invariant total == SegOffset(ranges, i) <= size
      invariant forall k | 0 <= k < i :: SegmentOk(ranges[k], granule)
    {
      var phys := ranges[i];
      SegOffsetMonotone(ranges, i + 1, |ranges|);
      var segment := CheckScatterSegment(phys, granule);
      if segment.Err? {
        assert !SegmentOk(ranges[i], granule);
        return Err(segment.error);
      }
      if total + phys.Size() >= ADDRESS_LIMIT || total + phys.Size() > size {
        return Err(InvalidMappingShape);
      }
      total := total + phys.Size();
    }
    if total != size {
      return Err(InvalidMappingShape);
    }
    return Ok(());
  }

  /** The virtual range that extent `j` backs. */
  function SegmentRange(start: nat, ranges: seq<AddrRange>, j: nat): AddrRange
    requires j < |ranges|
  {
    AddrRange(start + SegOffset(ranges, j), start + SegOffset(ranges, j) + ranges[j].Size())
  }

  lemma {:induction false} SegmentFits(range: AddrRange, ranges: seq<AddrRange>, granule: PageSize, j: nat)
    requires j < |ranges| && SegmentsOk(ranges, granule) && SegOffset(ranges, |ranges|) == range.Size()
    requires SegOffset(ranges, j) % granule.Bytes() == 0
    ensures SegOffset(ranges, j) + ranges[j].Size() <= range.Size()
    ensures SegOffset(ranges, j + 1) % granule.Bytes() == 0
    ensures ranges[j].Size() > 0 && ranges[j].Size() % granule.Bytes() == 0
  {
    SegOffsetMonotone(ranges, j + 1, |ranges|);
    assert SegmentOk(ranges[j], granule);
    SumMod(SegOffset(ranges, j), ranges[j].Size(), granule.Bytes());
  }

  lemma {:induction false} OneSegment(phys: AddrRange, granule: PageSize)
    ensures SegmentsOk([phys], granule) <==> CheckScatterSegment(phys, granule).Ok?
    ensures SegOffset([phys], 0) == 0 && SegOffset([phys], 1) == phys.Size()
  {
    assert SegmentsOk([phys], granule) ==> SegmentOk([phys][0], granule);
    assert SegOffset([phys], 1) == SegOffset([phys], 0) + [phys][0].Size();
  }

  /** A single extent is linear. */
  lemma {:induction false} OneTarget(phys: AddrRange, off: nat)
    ensures TargetOf([phys], off) == if off < phys.Size() then Some(phys.start + off) else None
  {
    assert TargetFrom([phys], 1, 0).None?;
    assert off >= phys.Size() ==> TargetFrom([phys], 1, off - phys.Size()).None?;
  }
}
