/** Table geometry: how a virtual address is cut into per-level indices, and which
    blocks of addresses share a slot. */
module Geometries {
  import opened Basics
  import opened Power
  import opened PageSizes

  /** Capacity of the walker's per-level buffers. */
  const MAX_LEVELS: nat := 6

  /** A table position: the indices taken from the root down to it. */
  datatype Path = Root | Step(up: Path, index: nat)

  /** Shape of a paging format. Level 1 is the finest; level `levels` is the root, which
      may be narrower than the other tables. Leaves may stand at levels `1..leafLevels`. */
  datatype Geometry = Geometry(
    levels: nat,
    baseShift: nat,
    indexBits: nat,
    rootBits: nat,
    paBits: nat,
    leafLevels: nat,
    signExtended: bool)
  {
    function Shift(level: nat): nat
      decreases level
    {
      if level <= 1 then baseShift else Shift(level - 1) + indexBits
    }

    function LevelIndexBits(level: nat): nat {
      if level == levels then rootBits else indexBits
    }

    function VaBits(): nat {
      Shift(levels) + rootBits
    }

    /** Bytes covered by one slot at `level`. */
    function Span(level: nat): (n: nat)
      ensures n >= 1
    {
      Pow2(Shift(level))
    }

    /** Number of slots that addresses can select in a table at `level`. */
    function Fan(level: nat): (n: nat)
      ensures n >= 1
    {
      Pow2(LevelIndexBits(level))
    }

    function EntriesPerTable(): (n: nat)
      ensures n >= 1
    {
      Pow2(indexBits)
    }

    /** The finest translation granule, which is also the size of a table frame. */
    function BasePageSize(): PageSize {
      match LeafSizeAtLevel(1)
      case Some(size) => size
      case None => Size4K
    }

    function LeafSizeAtLevel(level: nat): Option<PageSize> {
      SizeOfShift(Shift(level))
    }

    predicate LevelSupportsLeaf(level: nat, size: PageSize) {
      1 <= level <= leafLevels && LeafSizeAtLevel(level) == Some(size)
    }

    /** The first level, counting up from `level`, whose leaves have `size`. */
    function FirstLevelFor(size: PageSize, level: nat): Option<nat>
      decreases levels + 1 - level
    {
      if level > levels then None
      else if LevelSupportsLeaf(level, size) then Some(level)
      else FirstLevelFor(size, level + 1)
    }

    function LevelOfSize(size: PageSize): Option<nat> {
      FirstLevelFor(size, 1)
    }

    predicate Lawful() {
      && 1 <= leafLevels <= levels <= MAX_LEVELS
      && 1 <= rootBits <= indexBits
      && indexBits + 3 <= baseShift
      && VaBits() < 64
      && (forall l | 1 <= l <= leafLevels :: LeafSizeAtLevel(l).Some?)
      && Shift(leafLevels) <= paBits < 64
    }

    function IndexAt(level: nat, v: nat): (i: nat)
      ensures i < Fan(level)
    {
      (v / Span(level)) % Fan(level)
    }

    /** Sign-extended formats accept the two canonical halves, the others plain offsets. */
    predicate VaddrIsValid(v: nat) {
      v < ADDRESS_LIMIT && (if signExtended then Canonical(v, VaBits()) else v < Pow2(VaBits()))
    }

    predicate PaddrIsValid(p: nat) {
      p < Pow2(paBits)
    }

    /** The position of the table at `level` on the walk of `v`; level 0 names the slot
        that `v` selects in the finest table. */
    function PathOf(v: nat, level: nat): (p: Path)
      ensures LevelOf(p) == if level <= levels then levels - level else 0
      decreases levels - level
    {
      if level >= levels then Root else Step(PathOf(v, level + 1), IndexAt(level + 1, v))
    }

    /** The bytes of a leaf size are the span of the level that has it. */
    lemma {:induction false} SizeIsSpan(level: nat, size: PageSize)
      requires LeafSizeAtLevel(level) == Some(size)
      ensures size.Bytes() == Span(level)
    {
      size.BytesIsPow2();
    }

    /** The block of `Span(level)` bytes holding `v`, if its end is representable. */
    function LeafRange(v: nat, level: nat): Option<AddrRange> {
      RangeFromStartSize(AlignDown(v, Span(level)), Span(level))
    }
  }

  /** How many indices have been taken from the root. */
  function LevelOf(p: Path): nat {
    match p
    case Root => 0
    case Step(up, _) => LevelOf(up) + 1
  }

  predicate Canonical(v: nat, bits: nat) {
    bits >= 64 ||
    var upper := v / Pow2(bits);
    if bits >= 1 && (v / Pow2(bits - 1)) % 2 == 1 then upper == Pow2(64 - bits) - 1 else upper == 0
  }

  lemma {:induction false} AddressLimitIsPow2()
    ensures ADDRESS_LIMIT == Pow2(64)
  {
    hide Pow2;
    SixteenIsPow2();
    Pow2Add(4, 4);
    Pow2Add(8, 8);
    Pow2Add(16, 16);
    Pow2Add(32, 32);
  }

  lemma {:induction false} SixteenIsPow2()
    ensures Pow2(4) == 16
  {
  }

  /** A number below `rest * 2 * half`, written as `(upper * 2 + sign) * half + low`. */
  lemma {:induction false} OuterHalves(v: nat, half: nat, rest: nat, upper: nat, sign: nat, low: nat)
    requires half > 0 && sign < 2 && low < half && upper < rest
    requires v == upper * (half * 2) + (sign * half + low)
    ensures (if sign == 1 then upper == rest - 1 else upper == 0) <==>
            v < half || rest * (half * 2) - half <= v
  {
    var w := half * 2;
    assert (rest - 1) * w == rest * w - w;
    if upper < rest - 1 {
      MulMonotone(upper, rest - 2, w);
      assert (rest - 2) * w == rest * w - 2 * w;
    }
    if upper > 0 {
      MulAtLeast(upper, w);
    }
  }

  /** Canonical addresses are the lowest and the highest `2^(bits-1)` machine addresses. */
  lemma {:induction false} CanonicalHalves(v: nat, bits: nat)
    requires 1 <= bits < 64 && v < ADDRESS_LIMIT
    ensures Canonical(v, bits) <==> v < Pow2(bits - 1) || ADDRESS_LIMIT - Pow2(bits - 1) <= v
  {
    var half, rest := Pow2(bits - 1), Pow2(64 - bits);
    assert Pow2(bits) == half * 2;
    assert ADDRESS_LIMIT == rest * (half * 2) by {
      AddressLimitIsPow2();
      Pow2Add(64 - bits, bits);
    }
    QuotientBound(v, half * 2, rest);
    HalvesOf(v, half, rest);
  }

  lemma {:induction false} HalvesOf(v: nat, half: nat, rest: nat)
    requires half > 0 && v / (half * 2) < rest
    ensures (if (v / half) % 2 == 1 then v / (half * 2) == rest - 1 else v / (half * 2) == 0) <==>
            v < half || rest * (half * 2) - half <= v
  {
    var upper, sign, low := v / (half * 2), (v / half) % 2, v % half;
    DivDiv(v, half, 2);
    assert v == upper * (half * 2) + v % (half * 2);
    OuterHalves(v, half, rest, upper, sign, low);
  }
}
