/** The RISC-V page-table entry, with and without page-based memory types (RISC-V Privileged
    Architecture, version 20211203, sections 4.3.2 and 4.4, and its Svpbmt chapter). */
module RiscvEntries {
  import opened Power
  import opened PageSizes
  import opened Geometries
  import opened Entries
  import opened Attributes
  import opened Words
  import opened Formats

  const VALID: bv64 := 0x1
  const PTE_READ: bv64 := 0x2
  const PTE_WRITE: bv64 := 0x4
  const PTE_LEAF: bv64 := 0xe
  const ACCESSED: bv64 := 0x40
  const PPN_MASK: bv64 := 0x003f_ffff_ffff_fc00
  const PBMT_MASK: bv64 := 0x6000_0000_0000_0000
  const HIGH_RESERVED_MASK: bv64 := 0xffc0_0000_0000_0000

  const PBMT_PMA: bv64 := 0
  const PBMT_NC: bv64 := 1
  const PBMT_IO: bv64 := 2
  const PBMT_RESERVED: bv64 := 3

  function Pbmt(cache: CachePolicy): bv64 {
    match cache
    case Writeback => PBMT_PMA
    case WriteThrough => PBMT_PMA
    case WriteCombine => PBMT_NC
    case Uncached => PBMT_IO
  }

  function PbmtBits(svpbmt: bool, cache: CachePolicy): bv64 {
    if !svpbmt then 0 else Pbmt(cache) << 61
  }

  function CacheOf(svpbmt: bool, bits: bv64): CachePolicy {
    if !svpbmt then Writeback
    else
      var pbmt := (bits & PBMT_MASK) >> 61;
      if pbmt == PBMT_PMA then Writeback
      else if pbmt == PBMT_NC then WriteCombine
      else if pbmt == PBMT_IO then Uncached
      else Writeback
  }

  /** Permission bits with reading added to writing. */
  function Readable(access: bv64): bv64 {
    access | ((access & WRITE) >> 1)
  }

  function AccessBits(access: bv64): bv64 {
    var a := Readable(access);
    VALID | ((a & ALL_ACCESS) << 1) | ACCESSED | (Bit(a & WRITE != 0) << 7)
  }

  function FlagBits(access: bv64, pbmt: bv64): bv64 {
    AccessBits(access) | pbmt
  }

  function LeafBits(svpbmt: bool, f: LeafFlags): bv64 {
    FlagBits(f.access.bits, PbmtBits(svpbmt, f.attrs.cache))
  }

  function AccessOf(bits: bv64): bv64 {
    (bits >> 1) & ALL_ACCESS
  }

  function FlagsOf(svpbmt: bool, bits: bv64): LeafFlags {
    LeafFlags(FromBitsTruncate(AccessOf(bits)), DEFAULT_ATTRIBUTES.(cache := CacheOf(svpbmt, bits)))
  }

  function ToPpn(address: bv64): bv64 {
    ((address >> 12) << 10) & PPN_MASK
  }

  function FromPpn(bits: bv64): bv64 {
    ((bits & PPN_MASK) >> 10) << 12
  }

  function WithFlags(address: bv64, low: bv64): bv64 {
    ToPpn(address) | low
  }

  function NewLeaf(svpbmt: bool, paddr: nat, f: LeafFlags): bv64 {
    WithFlags(ToWord(paddr, 64), LeafBits(svpbmt, f))
  }

  function NewTable(paddr: nat): bv64 {
    WithFlags(ToWord(paddr, 64), VALID)
  }

  function Paddr(w: bv64): nat {
    FromWord(FromPpn(w), 64)
  }

  predicate IsPresent(w: bv64) {
    w & VALID != 0
  }

  function HighReserved(svpbmt: bool, bits: bv64): bv64 {
    if svpbmt then bits & 0x9fc0_0000_0000_0000 else bits & HIGH_RESERVED_MASK
  }

  predicate ValidEncoding(svpbmt: bool, bits: bv64) {
    && bits & VALID != 0
    && HighReserved(svpbmt, bits) == 0
    && !(bits & PTE_WRITE != 0 && bits & PTE_READ == 0)
    && !(svpbmt && (bits & PBMT_MASK) >> 61 == PBMT_RESERVED)
  }

  predicate HasAccess(bits: bv64) {
    bits & PTE_LEAF != 0
  }

  function Kind(svpbmt: bool, w: bv64, level: nat): EntryKind {
    if !ValidEncoding(svpbmt, w) then KindInvalid
    else if HasAccess(w) then KindLeaf
    else if level > 1 then KindTable
    else KindInvalid
  }

  predicate SomeAccess(access: bv64) {
    access & (READ | WRITE | EXECUTE) != 0
  }

  /** Flags that grant some access; others do not encode as a leaf. */
  predicate GrantsAccess(f: LeafFlags) {
    SomeAccess(f.access.bits)
  }

  function CodecFor(svpbmt: bool): Codec<bv64, LeafFlags> {
    Codec((p, f, s) => NewLeaf(svpbmt, p, f), (p, l) => NewTable(p), Paddr, w => FlagsOf(svpbmt, w), IsPresent,
          (w, l) => Kind(svpbmt, w, l), 0, f => GrantsAccess(f))
  }

  /** The policies that the format keeps. */
  function KeptCache(svpbmt: bool, cache: CachePolicy): CachePolicy {
    if !svpbmt || cache == WriteThrough then Writeback else cache
  }

  /** Flags as they read back. */
  function Normal(svpbmt: bool, f: LeafFlags): LeafFlags {
    LeafFlags(FromBitsTruncate(Readable(f.access.bits)),
              DEFAULT_ATTRIBUTES.(cache := KeptCache(svpbmt, f.attrs.cache)))
  }

  /** A memory type the format can hold. */
  predicate LegalPbmt(svpbmt: bool, pbmt: bv64) {
    pbmt == 0 || (svpbmt && (pbmt == PBMT_NC << 61 || pbmt == PBMT_IO << 61))
  }

  predicate HasPbmt(w: bv64, pbmt: bv64) {
    w & PBMT_MASK == pbmt
  }

  lemma {:induction false} FieldsApart(svpbmt: bool, address: bv64, access: bv64, pbmt: bv64)
    requires LegalPbmt(svpbmt, pbmt)
    ensures var w := WithFlags(address, FlagBits(access, pbmt));
            && FromPpn(w) == FromPpn(ToPpn(address))
            && IsPresent(w) && ValidEncoding(svpbmt, w)
            && (HasAccess(w) <==> SomeAccess(access)) && HasPbmt(w, pbmt)
  {
  }

  lemma {:induction false} AccessReadsBack(svpbmt: bool, address: bv64, access: bv64, pbmt: bv64)
    requires LegalPbmt(svpbmt, pbmt)
    ensures FromBitsTruncate(AccessOf(WithFlags(address, FlagBits(access, pbmt)))) == FromBitsTruncate(Readable(access))
  {
    hide FromBitsTruncate;
    hide AccessOf;
    hide Readable;
    hide WithFlags;
    hide FlagBits;
    AccessApart(svpbmt, address, access, pbmt);
    TruncateSame(AccessOf(WithFlags(address, FlagBits(access, pbmt))), Readable(access));
  }

  lemma {:induction false} AccessApart(svpbmt: bool, address: bv64, access: bv64, pbmt: bv64)
    requires LegalPbmt(svpbmt, pbmt)
    ensures AccessOf(WithFlags(address, FlagBits(access, pbmt))) & ALL_ACCESS == Readable(access) & ALL_ACCESS
  {
  }

  lemma {:induction false} TruncateSame(a: bv64, b: bv64)
    requires a & ALL_ACCESS == b & ALL_ACCESS
    ensures FromBitsTruncate(a) == FromBitsTruncate(b)
  {
  }

  lemma {:induction false} TableField(svpbmt: bool, address: bv64)
    ensures var w := WithFlags(address, VALID);
            FromPpn(w) == FromPpn(ToPpn(address)) && IsPresent(w) && ValidEncoding(svpbmt, w) && !HasAccess(w)
  {
  }

  lemma {:induction false} CacheReadsBack(svpbmt: bool, w: bv64, cache: CachePolicy)
    requires HasPbmt(w, PbmtBits(svpbmt, cache))
    ensures CacheOf(svpbmt, w) == KeptCache(svpbmt, cache)
  {
  }

  lemma {:induction false} PolicyIsLegal(svpbmt: bool, cache: CachePolicy)
    ensures LegalPbmt(svpbmt, PbmtBits(svpbmt, cache))
  {
  }

  /** A page-aligned 56-bit address survives the page-number field. */
  lemma {:induction false} AddressSurvives(paddr: nat)
    requires paddr % 0x1000 == 0 && paddr < Pow2(56)
    ensures FromPpn(ToPpn(ToWord(paddr, 64))) == ToWord(paddr, 64)
    ensures FromWord(ToWord(paddr, 64), 64) == paddr
  {
    hide ToWord;
    hide FromWord;
    hide LowMask;
    hide FromPpn;
    hide ToPpn;
    AddressWord(paddr, 56);
    Masks();
    InField(ToWord(paddr, 64));
  }

  lemma {:induction false} InField(x: bv64)
    requires x & 0xfff == 0 && Within(x, 0x00ff_ffff_ffff_ffff)
    ensures FromPpn(ToPpn(x)) == x
  {
  }

  /** A word written as a leaf of a legal address is always present and validly encoded and
      keeps its address and its normalised flags; it is a leaf exactly when the flags grant
      some access, and otherwise reads as a table pointer, or is invalid at level 1. */
  lemma {:induction false} LeafReadsBack(svpbmt: bool, paddr: nat, f: LeafFlags, level: nat)
    requires paddr % 0x1000 == 0 && paddr < Pow2(56)
    ensures var w := NewLeaf(svpbmt, paddr, f);
            && IsPresent(w) && Paddr(w) == paddr && FlagsOf(svpbmt, w) == Normal(svpbmt, f)
            && Kind(svpbmt, w, level) ==
                 if GrantsAccess(f) then KindLeaf else if level > 1 then KindTable else KindInvalid
  {
    hide ToWord;
    hide FromWord;
    hide FromPpn;
    hide ToPpn;
    hide WithFlags;
    hide FlagBits;
    hide AccessOf;
    hide IsPresent;
    hide HasAccess;
    hide ValidEncoding;
    hide Readable;
    hide CacheOf;
    hide KeptCache;
    hide PbmtBits;
    hide FromBitsTruncate;
    hide LegalPbmt;
    hide HasPbmt;
    hide SomeAccess;
    var w := NewLeaf(svpbmt, paddr, f);
    AddressSurvives(paddr);
    PolicyIsLegal(svpbmt, f.attrs.cache);
    FieldsApart(svpbmt, ToWord(paddr, 64), f.access.bits, PbmtBits(svpbmt, f.attrs.cache));
    AccessReadsBack(svpbmt, ToWord(paddr, 64), f.access.bits, PbmtBits(svpbmt, f.attrs.cache));
    CacheReadsBack(svpbmt, w, f.attrs.cache);
  }

  /** The permission bits of a leaf word: valid in bit 0, readable in bit 1 when reading or
      writing is granted, writable, executable, user and global in bits 2 to 5, accessed in
      bit 6, and dirty in bit 7 when the page is writable. Bits 8, 9, 54-60 and 63 stay clear. */
  lemma {:induction false} LeafLayout(svpbmt: bool, paddr: nat, f: LeafFlags, size: PageSize)
    ensures var w, a := CodecFor(svpbmt).newLeaf(paddr, f, size), f.access.bits;
            && w & 0x41 == 0x41
            && (w & 0x2 != 0 <==> a & 0x3 != 0)
            && (w & 0x4 != 0 <==> a & 0x2 != 0)
            && (w & 0x8 != 0 <==> a & 0x4 != 0)
            && (w & 0x10 != 0 <==> a & 0x8 != 0)
            && (w & 0x20 != 0 <==> a & 0x10 != 0)
            && (w & 0x80 != 0 <==> a & 0x2 != 0)
            && w & 0x9fc0_0000_0000_0300 == 0
  {
    hide ToWord;
    hide PbmtBits;
    hide LegalPbmt;
    PolicyIsLegal(svpbmt, f.attrs.cache);
    PermissionLayout(svpbmt, ToWord(paddr, 64), f.access.bits, PbmtBits(svpbmt, f.attrs.cache));
  }

  lemma {:induction false} PermissionLayout(svpbmt: bool, address: bv64, a: bv64, pbmt: bv64)
    requires LegalPbmt(svpbmt, pbmt)
    ensures var w := WithFlags(address, FlagBits(a, pbmt));
            && w & 0x41 == 0x41
            && (w & 0x2 != 0 <==> a & 0x3 != 0)
            && (w & 0x4 != 0 <==> a & 0x2 != 0)
            && (w & 0x8 != 0 <==> a & 0x4 != 0)
            && (w & 0x10 != 0 <==> a & 0x8 != 0)
            && (w & 0x20 != 0 <==> a & 0x10 != 0)
            && (w & 0x80 != 0 <==> a & 0x2 != 0)
            && w & 0x9fc0_0000_0000_0300 == 0
  {
  }

  /** Bits 10-53 of a leaf word are the page number of its address. */
  lemma {:induction false} LeafAddressLayout(svpbmt: bool, paddr: nat, f: LeafFlags, size: PageSize)
    requires paddr % 0x1000 == 0 && paddr < Pow2(56)
    ensures (CodecFor(svpbmt).newLeaf(paddr, f, size) & 0x003f_ffff_ffff_fc00) << 2 == ToWord(paddr, 64)
  {
    hide ToWord;
    hide NewLeaf;
    hide Pow2;
    LeafAddressBits(svpbmt, paddr, f);
  }

  lemma {:induction false} LeafAddressBits(svpbmt: bool, paddr: nat, f: LeafFlags)
    requires paddr % 0x1000 == 0 && paddr < Pow2(56)
    ensures (NewLeaf(svpbmt, paddr, f) & 0x003f_ffff_ffff_fc00) << 2 == ToWord(paddr, 64)
  {
    hide ToWord;
    hide NewLeaf;
    hide FromPpn;
    hide Pow2;
    AddressOfLeaf(svpbmt, paddr, f);
    PpnLayout(NewLeaf(svpbmt, paddr, f), ToWord(paddr, 64));
  }

  lemma {:induction false} AddressOfLeaf(svpbmt: bool, paddr: nat, f: LeafFlags)
    requires paddr % 0x1000 == 0 && paddr < Pow2(56)
    ensures FromPpn(NewLeaf(svpbmt, paddr, f)) == ToWord(paddr, 64)
  {
    hide Pow2;
    hide ToWord;
    hide PbmtBits;
    hide FlagBits;
    hide LegalPbmt;
    hide WithFlags;
    hide FromPpn;
    hide ToPpn;
    hide IsPresent;
    hide ValidEncoding;
    hide HasAccess;
    hide SomeAccess;
    hide HasPbmt;
    PolicyIsLegal(svpbmt, f.attrs.cache);
    AddressSurvives(paddr);
    FieldsApart(svpbmt, ToWord(paddr, 64), f.access.bits, PbmtBits(svpbmt, f.attrs.cache));
  }

  /** Bits 61 and 62 of a leaf word hold the memory type, 0 unless the format has one. */
  lemma {:induction false} LeafCacheLayout(svpbmt: bool, paddr: nat, f: LeafFlags, size: PageSize)
    ensures CodecFor(svpbmt).newLeaf(paddr, f, size) & 0x6000_0000_0000_0000 ==
            if svpbmt && f.attrs.cache == WriteCombine then 0x2000_0000_0000_0000
            else if svpbmt && f.attrs.cache == Uncached then 0x4000_0000_0000_0000
            else 0
  {
    hide ToWord;
    hide NewLeaf;
    hide HasPbmt;
    hide PbmtBits;
    CacheOfLeaf(svpbmt, paddr, f);
    PbmtMask(NewLeaf(svpbmt, paddr, f), PbmtBits(svpbmt, f.attrs.cache));
    PbmtLayout(svpbmt, f.attrs.cache);
  }

  lemma {:induction false} CacheOfLeaf(svpbmt: bool, paddr: nat, f: LeafFlags)
    ensures HasPbmt(NewLeaf(svpbmt, paddr, f), PbmtBits(svpbmt, f.attrs.cache))
  {
    hide ToWord;
    hide PbmtBits;
    hide FlagBits;
    hide LegalPbmt;
    hide WithFlags;
    hide FromPpn;
    hide ToPpn;
    hide IsPresent;
    hide ValidEncoding;
    hide HasAccess;
    hide SomeAccess;
    hide HasPbmt;
    PolicyIsLegal(svpbmt, f.attrs.cache);
    FieldsApart(svpbmt, ToWord(paddr, 64), f.access.bits, PbmtBits(svpbmt, f.attrs.cache));
  }

  /** The page number moves two bits up. */
  lemma {:induction false} PpnLayout(w: bv64, address: bv64)
    requires FromPpn(w) == address
    ensures (w & 0x003f_ffff_ffff_fc00) << 2 == address
  {
  }

  lemma {:induction false} PbmtMask(w: bv64, pbmt: bv64)
    requires HasPbmt(w, pbmt)
    ensures w & 0x6000_0000_0000_0000 == pbmt
  {
  }

  lemma {:induction false} ValidMask(w: bv64)
    ensures IsPresent(w) <==> w & 0x1 != 0
  {
  }

  lemma {:induction false} AccessMask(w: bv64)
    ensures HasAccess(w) <==> w & 0xe != 0
  {
  }

  lemma {:induction false} PbmtLayout(svpbmt: bool, cache: CachePolicy)
    ensures PbmtBits(svpbmt, cache) ==
              if svpbmt && cache == WriteCombine then 0x2000_0000_0000_0000
              else if svpbmt && cache == Uncached then 0x4000_0000_0000_0000
              else 0
  {
  }

  /** A table pointer holds its page number in bits 10-53 and has no other bit set than the
      valid one. */
  lemma {:induction false} TableLayout(svpbmt: bool, paddr: nat, level: nat)
    requires paddr % 0x1000 == 0 && paddr < Pow2(56)
    ensures (CodecFor(svpbmt).newTable(paddr, level) & 0x003f_ffff_ffff_fc00) << 2 == ToWord(paddr, 64)
    ensures CodecFor(svpbmt).newTable(paddr, level) & 0xffc0_0000_0000_03ff == 0x1
  {
    hide ToWord;
    hide NewTable;
    hide Pow2;
    TableAddressBits(svpbmt, paddr);
    FlagsOfTable(paddr);
  }

  lemma {:induction false} TableAddressBits(svpbmt: bool, paddr: nat)
    requires paddr % 0x1000 == 0 && paddr < Pow2(56)
    ensures (NewTable(paddr) & 0x003f_ffff_ffff_fc00) << 2 == ToWord(paddr, 64)
  {
    hide ToWord;
    hide NewTable;
    hide FromPpn;
    hide Pow2;
    AddressOfTable(svpbmt, paddr);
    PpnLayout(NewTable(paddr), ToWord(paddr, 64));
  }

  lemma {:induction false} AddressOfTable(svpbmt: bool, paddr: nat)
    requires paddr % 0x1000 == 0 && paddr < Pow2(56)
    ensures FromPpn(NewTable(paddr)) == ToWord(paddr, 64)
  {
    hide Pow2;
    hide ToWord;
    hide WithFlags;
    hide FromPpn;
    hide ToPpn;
    hide IsPresent;
    hide ValidEncoding;
    hide HasAccess;
    AddressSurvives(paddr);
    TableField(svpbmt, ToWord(paddr, 64));
  }

  lemma {:induction false} FlagsOfTable(paddr: nat)
    ensures NewTable(paddr) & 0xffc0_0000_0000_03ff == 0x1
  {
    hide ToWord;
    hide WithFlags;
    TableBits(ToWord(paddr, 64));
  }

  lemma {:induction false} TableBits(address: bv64)
    ensures WithFlags(address, VALID) & 0xffc0_0000_0000_03ff == 0x1
  {
  }

  /** What the hardware's bits mean to the walker, for any word: a word is invalid if its valid
      bit is clear, if it is writable but not readable, or if a reserved bit is set or the
      memory type is the reserved one. */
  lemma {:induction false} DecodeLayout(svpbmt: bool, w: bv64, level: nat)
    ensures CodecFor(svpbmt).isPresent(w) <==> w & 0x1 != 0
    ensures var readable := w & 0x4 != 0 ==> w & 0x2 != 0;
            var reserved := if svpbmt then w & 0x9fc0_0000_0000_0000 != 0
                                           || w & 0x6000_0000_0000_0000 == 0x6000_0000_0000_0000
                            else w & 0xffc0_0000_0000_0000 != 0;
            CodecFor(svpbmt).entryKind(w, level) ==
              if w & 0x1 == 0 || !readable || reserved then KindInvalid
              else if w & 0xe != 0 then KindLeaf
              else if level > 1 then KindTable
              else KindInvalid
    ensures CodecFor(svpbmt).paddr(w) == FromWord((w & 0x003f_ffff_ffff_fc00) << 2, 64)
    ensures CodecFor(svpbmt).flags(w).access.bits == (w & 0x3e) >> 1
    ensures CodecFor(svpbmt).flags(w).attrs == MemoryAttributes(
              if svpbmt && w & 0x6000_0000_0000_0000 == 0x2000_0000_0000_0000 then WriteCombine
              else if svpbmt && w & 0x6000_0000_0000_0000 == 0x4000_0000_0000_0000 then Uncached
              else Writeback, Inner, Coherent)
  {
    hide FromWord;
    hide FromPpn;
    hide ValidEncoding;
    hide CacheOf;
    hide AccessOf;
    hide FromBitsTruncate;
    hide IsPresent;
    hide HasAccess;
    PpnLayout(w, FromPpn(w));
    ValidMask(w);
    AccessMask(w);
    EncodingLayout(svpbmt, w);
    PolicyLayout(svpbmt, w);
    AccessLayout(w);
  }

  lemma {:induction false} EncodingLayout(svpbmt: bool, w: bv64)
    ensures ValidEncoding(svpbmt, w) <==>
            && w & 0x1 != 0 && (w & 0x4 != 0 ==> w & 0x2 != 0)
            && (if svpbmt then w & 0x9fc0_0000_0000_0000 == 0 && w & 0x6000_0000_0000_0000 != 0x6000_0000_0000_0000
                else w & 0xffc0_0000_0000_0000 == 0)
  {
    hide HighReserved;
    MemoryType(w);
    if svpbmt {
      ReservedWithType(w);
    } else {
      ReservedPlain(w);
    }
  }

  lemma {:induction false} ReservedWithType(w: bv64)
    ensures HighReserved(true, w) == w & 0x9fc0_0000_0000_0000
  {
  }

  lemma {:induction false} ReservedPlain(w: bv64)
    ensures HighReserved(false, w) == w & 0xffc0_0000_0000_0000
  {
  }

  lemma {:induction false} MemoryType(w: bv64)
    ensures (w & PBMT_MASK) >> 61 == PBMT_RESERVED <==> w & 0x6000_0000_0000_0000 == 0x6000_0000_0000_0000
  {
  }

  lemma {:induction false} PolicyLayout(svpbmt: bool, w: bv64)
    ensures CacheOf(svpbmt, w) ==
              if svpbmt && w & 0x6000_0000_0000_0000 == 0x2000_0000_0000_0000 then WriteCombine
              else if svpbmt && w & 0x6000_0000_0000_0000 == 0x4000_0000_0000_0000 then Uncached
              else Writeback
  {
  }

  lemma {:induction false} AccessLayout(w: bv64)
    ensures FromBitsTruncate(AccessOf(w)).bits == (w & 0x3e) >> 1
  {
  }

  lemma {:induction false} TableReadsBack(svpbmt: bool, paddr: nat, level: nat)
    requires paddr % 0x1000 == 0 && paddr < Pow2(56) && level >= 2
    ensures var w := NewTable(paddr);
            IsPresent(w) && Paddr(w) == paddr && Kind(svpbmt, w, level) == KindTable
  {
    hide ToWord;
    hide FromWord;
    hide FromPpn;
    hide ToPpn;
    hide WithFlags;
    hide IsPresent;
    hide HasAccess;
    hide ValidEncoding;
    AddressSurvives(paddr);
    TableField(svpbmt, ToWord(paddr, 64));
  }

  /** Normalised flags still grant access and are not changed again. */
  lemma {:induction false} NormalTwice(svpbmt: bool, f: LeafFlags)
    ensures Normal(svpbmt, Normal(svpbmt, f)) == Normal(svpbmt, f)
    ensures GrantsAccess(f) ==> GrantsAccess(Normal(svpbmt, f))
  {
    ReadableTwice(f.access.bits);
  }

  lemma {:induction false} ReadableTwice(access: bv64)
    ensures Readable(Readable(access) & ALL_ACCESS) & ALL_ACCESS == Readable(access) & ALL_ACCESS
    ensures SomeAccess(access) ==> SomeAccess(Readable(access) & ALL_ACCESS)
  {
  }

  lemma {:induction false} NormIs(svpbmt: bool, f: LeafFlags)
    ensures CodecFor(svpbmt).Norm(f) == Normal(svpbmt, f)
  {
    hide NewLeaf;
    hide FlagsOf;
    hide Normal;
    hide Kind;
    LeafReadsBack(svpbmt, 0, f, 1);
  }

  lemma {:induction false} ZeroIsAbsent()
    ensures !IsPresent(0)
  {
  }

  lemma {:induction false} LeafWord(svpbmt: bool, g: Geometry, l: nat, s: PageSize, p: nat, f: LeafFlags)
    requires g == RV_39 || g == RV_48 || g == RV_57
    requires g.LevelSupportsLeaf(l, s) && TargetOk(g, l, p) && GrantsAccess(f)
    ensures LeafWordOk(CodecFor(svpbmt), l, NewLeaf(svpbmt, p, f), p, f)
  {
    hide NewLeaf;
    hide FlagsOf;
    hide Paddr;
    hide IsPresent;
    hide Kind;
    hide Normal;
    Lawful4K(g);
    TargetIsPage(g, l, p);
    LeafReadsBack(svpbmt, p, f, l);
    NormIs(svpbmt, f);
  }

  /** No word is a table pointer at level 1. */
  lemma {:induction false} NoTableAtOne(svpbmt: bool, w: bv64)
    ensures Kind(svpbmt, w, 1) != KindTable
  {
  }

  /** Both RISC-V entries satisfy the walker's laws for Sv39, Sv48 and Sv57. */
  lemma {:induction false} RiscvIsLawful(svpbmt: bool, g: Geometry)
    requires g == RV_39 || g == RV_48 || g == RV_57
    ensures g.Lawful() && Lawful(CodecFor(svpbmt), g)
  {
    hide NewLeaf;
    hide NewTable;
    hide Paddr;
    hide FlagsOf;
    hide IsPresent;
    hide Kind;
    hide Normal;
    hide GrantsAccess;
    hide Geometry.Lawful;
    var c := CodecFor(svpbmt);
    Lawful4K(g);
    ZeroIsAbsent();
    forall w ensures c.entryKind(w, 1) != KindTable {
      NoTableAtOne(svpbmt, w);
    }
    forall p, l | 2 <= l <= g.levels && FrameOk(g, p) ensures c.Decode(c.newTable(p, l), l) == Table(p) {
      FirstShifts(g);
      PageBytes();
      TableReadsBack(svpbmt, p, l);
    }
    forall f ensures c.Norm(f) == Normal(svpbmt, f) && c.Norm(c.Norm(f)) == c.Norm(f)
                     && (c.encodable(f) ==> c.encodable(c.Norm(f)))
    {
      NormIs(svpbmt, f);
      NormIs(svpbmt, Normal(svpbmt, f));
      NormalTwice(svpbmt, f);
    }
    forall p, f, l, s | g.LevelSupportsLeaf(l, s) && TargetOk(g, l, p) && c.encodable(f)
      ensures LeafWordOk(c, l, c.newLeaf(p, f, s), p, f)
    {
      LeafWord(svpbmt, g, l, s, p, f);
    }
  }

  /** A page written without any access at level 2 is taken for a table. */
  lemma {:induction false} NoAccessReadsAsTable(svpbmt: bool)
    ensures var w := NewLeaf(svpbmt, 0x20_0000, LeafFlags(AccessFlags(0), DEFAULT_ATTRIBUTES));
            IsPresent(w) && Kind(svpbmt, w, 2) == KindTable && Paddr(w) == 0x20_0000
  {
    hide NewLeaf;
    hide IsPresent;
    hide Kind;
    hide Paddr;
    hide FlagsOf;
    PageBytes();
    Pow2Monotone(22, 56);
    assert Pow2(22) == 0x40_0000 by { Pow2Add(12, 10); }
    LeafReadsBack(svpbmt, 0x20_0000, LeafFlags(AccessFlags(0), DEFAULT_ATTRIBUTES), 2);
  }

  /** Flags made from a permission set, which always includes reading. */
  function FlagsFor(access: AccessFlags): LeafFlags {
    LeafFlags(AccessFlags(access.bits | READ), DEFAULT_ATTRIBUTES)
  }

  /** Such flags always encode as a leaf. */
  lemma {:induction false} FlagsForGrantAccess(access: AccessFlags)
    ensures GrantsAccess(FlagsFor(access))
  {
  }
}
