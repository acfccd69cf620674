/** The eleven shipped paging geometries, as instances of the symbolic one. */
module Formats {
  import opened Basics
  import opened Power
  import opened PageSizes
  import opened Geometries
  import opened Blocks
  import opened Entries
  import opened Requests

  const X86_48 := Geometry(4, 12, 9, 9, 52, 3, true)
  const X86_57 := Geometry(5, 12, 9, 9, 52, 3, true)
  const RV_39 := Geometry(3, 12, 9, 9, 56, 3, true)
  const RV_48 := Geometry(4, 12, 9, 9, 56, 4, true)
  const RV_57 := Geometry(5, 12, 9, 9, 56, 4, true)
  const A64_4K_48 := Geometry(4, 12, 9, 9, 48, 3, true)
  const A64_4K_52 := Geometry(5, 12, 9, 4, 52, 3, true)
  const A64_16K_48 := Geometry(4, 14, 11, 1, 48, 3, true)
  const A64_16K_52 := Geometry(4, 14, 11, 5, 52, 3, true)
  const A64_64K_48 := Geometry(3, 16, 13, 6, 48, 3, true)
  const A64_64K_52 := Geometry(3, 16, 13, 10, 52, 3, true)

  /** The formats with 4 KiB, 16 KiB and 64 KiB base pages. */
  const FORMATS_4K: set<Geometry> := {X86_48, X86_57, RV_39, RV_48, RV_57, A64_4K_48, A64_4K_52}
  const FORMATS_16K: set<Geometry> := {A64_16K_48, A64_16K_52}
  const FORMATS_64K: set<Geometry> := {A64_64K_48, A64_64K_52}

  /** Level shifts are linear in the level. */
  lemma {:induction false} ShiftIsLinear(g: Geometry, level: nat)
    requires level >= 1
    ensures g.Shift(level) == g.baseShift + (level - 1) * g.indexBits
    decreases level
  {
    if level > 1 {
      ShiftIsLinear(g, level - 1);
    }
  }

  lemma {:induction false} FirstShifts(g: Geometry)
    ensures g.Shift(1) == g.baseShift && g.Shift(2) == g.baseShift + g.indexBits
    ensures g.Shift(3) == g.baseShift + 2 * g.indexBits && g.Shift(4) == g.baseShift + 3 * g.indexBits
    ensures g.Shift(5) == g.baseShift + 4 * g.indexBits
  {
    ShiftIsLinear(g, 2);
    ShiftIsLinear(g, 3);
    ShiftIsLinear(g, 4);
    ShiftIsLinear(g, 5);
  }

  lemma {:induction false} Lawful4K(g: Geometry)
    requires g in FORMATS_4K
    ensures g.Lawful()
  {
    hide Geometry.Shift;
    FirstShifts(g);
    assert g.leafLevels == 3 || g.leafLevels == 4;
    forall l | 1 <= l <= g.leafLevels ensures g.LeafSizeAtLevel(l).Some? {
      assert l == 1 || l == 2 || l == 3 || l == 4;
    }
  }

  lemma {:induction false} Lawful16K(g: Geometry)
    requires g in FORMATS_16K
    ensures g.Lawful()
  {
    hide Geometry.Shift;
    FirstShifts(g);
    forall l | 1 <= l <= g.leafLevels ensures g.LeafSizeAtLevel(l).Some? {
      assert l == 1 || l == 2 || l == 3;
    }
  }

  lemma {:induction false} Lawful64K(g: Geometry)
    requires g in FORMATS_64K
    ensures g.Lawful()
  {
    hide Geometry.Shift;
    FirstShifts(g);
    forall l | 1 <= l <= g.leafLevels ensures g.LeafSizeAtLevel(l).Some? {
      assert l == 1 || l == 2 || l == 3;
    }
  }

  /** The address widths the formats declare. */
  lemma {:induction false} AddressWidths()
    ensures X86_48.VaBits() == 48 && X86_57.VaBits() == 57
    ensures RV_39.VaBits() == 39 && RV_48.VaBits() == 48 && RV_57.VaBits() == 57
    ensures A64_4K_48.VaBits() == A64_16K_48.VaBits() == A64_64K_48.VaBits() == 48
    ensures A64_4K_52.VaBits() == A64_16K_52.VaBits() == A64_64K_52.VaBits() == 52
  {
    FirstShifts(X86_48);
    FirstShifts(X86_57);
    FirstShifts(A64_4K_52);
    FirstShifts(A64_16K_48);
    FirstShifts(A64_64K_48);
  }

  /** The addresses of a format with sign extension: two halves of `2^(vaBits-1)` bytes at the
      bottom and at the top of the address space, and physical addresses below `2^paBits`. */
  ghost predicate Accepts(g: Geometry, vaBits: nat, paBits: nat)
    requires vaBits >= 1
  {
    && (forall v: nat :: g.VaddrIsValid(v) <==>
          v < Pow2(vaBits - 1) || ADDRESS_LIMIT - Pow2(vaBits - 1) <= v < ADDRESS_LIMIT)
    && (forall p: nat :: g.PaddrIsValid(p) <==> p < Pow2(paBits))
  }

  lemma {:induction false} AcceptsHalves(g: Geometry, vaBits: nat, paBits: nat)
    requires g.signExtended && g.VaBits() == vaBits && g.paBits == paBits && 1 <= vaBits < 64
    ensures Accepts(g, vaBits, paBits)
  {
    hide Canonical;
    hide Pow2;
    HalfBelowLimit(vaBits);
    forall v: nat
      ensures g.VaddrIsValid(v) <==>
              v < Pow2(vaBits - 1) || ADDRESS_LIMIT - Pow2(vaBits - 1) <= v < ADDRESS_LIMIT
    {
      if v < ADDRESS_LIMIT {
        CanonicalHalves(v, vaBits);
      }
    }
  }

  lemma {:induction false} HalfBelowLimit(bits: nat)
    requires 1 <= bits < 64
    ensures Pow2(bits - 1) < ADDRESS_LIMIT
  {
    hide Pow2;
    AddressLimitIsPow2();
    Pow2Monotone(bits - 1, 63);
    Pow2Add(63, 1);
    SixteenIsPow2();
    Pow2Monotone(1, 4);
    TwoIsPow2();
  }

  lemma {:induction false} TwoIsPow2()
    ensures Pow2(1) == 2
  {
  }

  /** The virtual and physical addresses that each format accepts. */
  lemma {:induction false} ValidAddresses()
    ensures Accepts(X86_48, 48, 52) && Accepts(X86_57, 57, 52)
    ensures Accepts(RV_39, 39, 56) && Accepts(RV_48, 48, 56) && Accepts(RV_57, 57, 56)
    ensures Accepts(A64_4K_48, 48, 48) && Accepts(A64_4K_52, 52, 52)
    ensures Accepts(A64_16K_48, 48, 48) && Accepts(A64_16K_52, 52, 52)
    ensures Accepts(A64_64K_48, 48, 48) && Accepts(A64_64K_52, 52, 52)
  {
    hide Accepts;
    AddressWidths();
    AcceptsHalves(X86_48, 48, 52);
    AcceptsHalves(X86_57, 57, 52);
    AcceptsHalves(RV_39, 39, 56);
    AcceptsHalves(RV_48, 48, 56);
    AcceptsHalves(RV_57, 57, 56);
    AcceptsHalves(A64_4K_48, 48, 48);
    AcceptsHalves(A64_4K_52, 52, 52);
    AcceptsHalves(A64_16K_48, 48, 48);
    AcceptsHalves(A64_16K_52, 52, 52);
    AcceptsHalves(A64_64K_48, 48, 48);
    AcceptsHalves(A64_64K_52, 52, 52);
  }

  lemma {:induction false} FansAsPowers()
    ensures Pow2(1) == 2 && Pow2(4) == 16 && Pow2(5) == 32 && Pow2(6) == 64 && Pow2(9) == 512
    ensures Pow2(10) == 1024 && Pow2(11) == 2048 && Pow2(13) == 8192
  {
  }

  /** How many bits of an address each level takes, and how large the tables are. */
  function TableEntries(g: Geometry, level: nat): nat {
    if g in FORMATS_4K then (if g == A64_4K_52 && level == 5 then 16 else 512)
    else if g in FORMATS_16K then (if level < 4 then 2048 else if g == A64_16K_48 then 2 else 32)
    else if level < 3 then 8192
    else if g == A64_64K_48 then 64
    else 1024
  }

  /** The slot that an address selects in each table of each format. */
  lemma {:induction false} IndexLayout(g: Geometry, level: nat, v: nat)
    requires g in FORMATS_4K + FORMATS_16K + FORMATS_64K && 1 <= level <= g.levels
    ensures g in FORMATS_4K ==>
              g.IndexAt(level, v) == v / Pow2(12 + 9 * (level - 1)) % TableEntries(g, level)
              && g.EntriesPerTable() == 512
    ensures g in FORMATS_16K ==>
              g.IndexAt(level, v) == v / Pow2(14 + 11 * (level - 1)) % TableEntries(g, level)
              && g.EntriesPerTable() == 2048
    ensures g in FORMATS_64K ==>
              g.IndexAt(level, v) == v / Pow2(16 + 13 * (level - 1)) % TableEntries(g, level)
              && g.EntriesPerTable() == 8192
  {
    hide Pow2;
    hide Geometry.Shift;
    ShiftIsLinear(g, level);
    FansAsPowers();
  }

  /** The leaf sizes of the formats, level by level. */
  lemma {:induction false} LeafLevels4K(g: Geometry, level: nat, size: PageSize)
    requires g in FORMATS_4K
    ensures g.LevelSupportsLeaf(level, size) <==>
            (level, size) in {(1, Size4K), (2, Size2M), (3, Size1G)}
            || ((level, size) == (4, Size512G) && g in {RV_48, RV_57})
  {
    hide Geometry.Shift;
    FirstShifts(g);
    assert level == 1 || level == 2 || level == 3 || level == 4 || level == 0 || level > 4;
    assert g.leafLevels == if g in {RV_48, RV_57} then 4 else 3;
  }

  lemma {:induction false} LeafLevels16K(g: Geometry, level: nat, size: PageSize)
    requires g in FORMATS_16K
    ensures g.LevelSupportsLeaf(level, size) <==> (level, size) in {(1, Size16K), (2, Size32M), (3, Size64G)}
  {
    hide Geometry.Shift;
    FirstShifts(g);
  }

  lemma {:induction false} LeafLevels64K(g: Geometry, level: nat, size: PageSize)
    requires g in FORMATS_64K
    ensures g.LevelSupportsLeaf(level, size) <==> (level, size) in {(1, Size64K), (2, Size512M), (3, Size4T)}
  {
    hide Geometry.Shift;
    FirstShifts(g);
  }

  lemma {:induction false} LowAddressIsValid(v: nat)
    requires v < 0x100_0000
    ensures X86_48.VaddrIsValid(v) && X86_48.PaddrIsValid(v)
  {
    hide Canonical;
    AddressWidths();
    assert Pow2(12) == 0x1000;
    Pow2Add(12, 12);
    Pow2Monotone(24, 47);
    Pow2Monotone(24, 52);
    CanonicalHalves(v, 48);
  }

  /** Two mebibytes at a 4 KiB boundary are refused, although 512 pages would cover them. */
  lemma {:induction false} RefusedAtPageBoundary()
    ensures var range := AddrRange(0x1000, 0x20_1000);
            PageRequest(X86_48, range, 0) && ExactLeafSize(X86_48, range, 0, None) == Err(NotAligned)
  {
    hide Geometry.VaddrIsValid;
    hide Geometry.PaddrIsValid;
    LowAddressIsValid(0x1000);
    LowAddressIsValid(0x20_0fff);
    LowAddressIsValid(0);
    X86_48.SizeIsSpan(1, Size4K);
  }

  /** Sixteen kibibytes are refused where that is no leaf size, although four pages would
      cover them. */
  lemma {:induction false} RefusedAsForeignSize()
    ensures var range := AddrRange(0, 0x4000);
            PageRequest(X86_48, range, 0) && ExactLeafSize(X86_48, range, 0, None) == Err(UnsupportedSize)
  {
    hide Geometry.VaddrIsValid;
    hide Geometry.PaddrIsValid;
    LowAddressIsValid(0x3fff);
    LowAddressIsValid(0);
    X86_48.SizeIsSpan(1, Size4K);
    Lawful4K(X86_48);
    if X86_48.LevelOfSize(Size16K).Some? {
      LevelOfSizeIs(X86_48, Size16K, X86_48.LevelOfSize(Size16K).value);
      LeafLevels4K(X86_48, X86_48.LevelOfSize(Size16K).value, Size16K);
    }
  }

  lemma {:induction false} PageBytes()
    ensures Pow2(12) == 0x1000
  {
  }

  /** An aligned target below the limit is a page-aligned 52-bit address. */
  lemma {:induction false} TargetIsPage(g: Geometry, l: nat, p: nat)
    requires g.Lawful() && g.baseShift == 12 && 1 <= l <= g.leafLevels && TargetOk(g, l, p)
    ensures p % 0x1000 == 0 && p < Pow2(g.paBits)
  {
    hide Lawful;
    hide Pow2;
    PageBytes();
    ShiftMonotone(g, 1, l);
    Pow2Divides(12, g.Shift(l));
    ModOfMultiple(p, 0x1000, Pow2(g.Shift(l) - 12));
  }
}
