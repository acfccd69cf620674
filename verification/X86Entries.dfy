/** The x86-64 page-table entry (Intel SDM Volume 3A, section 4.5). */
module X86Entries {
  import opened Power
  import opened PageSizes
  import opened Geometries
  import opened Entries
  import opened Attributes
  import opened Words
  import opened Formats

  const ADDR_MASK: bv64 := 0x000f_ffff_ffff_f000
  const PRESENT: bv64 := 0x1
  const WRITABLE: bv64 := 0x2
  const USER_ACCESSIBLE: bv64 := 0x4
  const WRITE_THROUGH: bv64 := 0x8
  const NO_CACHE: bv64 := 0x10
  const HUGE_PAGE: bv64 := 0x80
  const GLOBAL_PAGE: bv64 := 0x100
  const NO_EXECUTE: bv64 := 0x8000_0000_0000_0000
  const TABLE_FLAGS: bv64 := 0x7

  /** The PAT index that a policy selects. */
  function PatIndex(cache: CachePolicy): bv64 {
    match cache
    case Writeback => 0
    case Uncached => 3
    case WriteCombine => 2
    case WriteThrough => 1
  }

  function CacheBits(cache: CachePolicy): bv64 {
    var index := PatIndex(cache);
    ((index & 1) << 3) | ((index & 2) << 3)
  }

  function AccessBits(access: bv64): bv64 {
    PRESENT | (access & WRITE) | ((access & USER) >> 1) | ((access & GLOBAL) << 4) | (Bit(access & EXECUTE == 0) << 63)
  }

  function FlagBits(access: bv64, huge: bool, cache: bv64): bv64 {
    AccessBits(access) | (Bit(huge) << 7) | cache
  }

  function LeafBits(f: LeafFlags, size: PageSize): bv64 {
    FlagBits(f.access.bits, IsBlockSize(size), CacheBits(f.attrs.cache))
  }

  /** The sizes whose leaves carry the block bit. */
  predicate IsBlockSize(size: PageSize) {
    size == Size2M || size == Size1G
  }

  function AccessOf(bits: bv64): bv64 {
    (bits & PRESENT) | (bits & WRITABLE) | ((bits & USER_ACCESSIBLE) << 1) | ((bits & GLOBAL_PAGE) >> 4)
    | (Bit(bits & NO_EXECUTE == 0) << 2)
  }

  function CacheOf(bits: bv64): CachePolicy {
    if bits & NO_CACHE == 0 then (if bits & WRITE_THROUGH == 0 then Writeback else WriteThrough)
    else if bits & WRITE_THROUGH == 0 then WriteCombine else Uncached
  }

  function FlagsOf(bits: bv64): LeafFlags {
    LeafFlags(FromBitsTruncate(AccessOf(bits)), DEFAULT_ATTRIBUTES.(cache := CacheOf(bits)))
  }

  function AddressField(w: bv64): bv64 {
    w & ADDR_MASK
  }

  function WithFlags(address: bv64, low: bv64): bv64 {
    AddressField(address) | low
  }

  function NewLeaf(paddr: nat, f: LeafFlags, size: PageSize): bv64 {
    WithFlags(ToWord(paddr, 64), LeafBits(f, size))
  }

  function NewTable(paddr: nat, level: nat): bv64 {
    WithFlags(ToWord(paddr, 64), TABLE_FLAGS)
  }

  function Paddr(w: bv64): nat {
    FromWord(AddressField(w), 64)
  }

  predicate IsPresent(w: bv64) {
    w & PRESENT != 0
  }

  predicate HasBlockBit(w: bv64) {
    w & HUGE_PAGE != 0
  }

  function Kind(w: bv64, level: nat): EntryKind {
    if level == 1 || HasBlockBit(w) then KindLeaf else KindTable
  }

  /** The format as the walker uses it; every flag bundle is encodable. */
  const CODEC: Codec<bv64, LeafFlags> :=
    Codec(NewLeaf, NewTable, Paddr, FlagsOf, IsPresent, Kind, 0, _ => true)

  function WithRead(access: bv64): bv64 {
    access | READ
  }

  /** Flags as they read back: readable, within the five bits, sharing defaulted. */
  function Normal(f: LeafFlags): LeafFlags {
    LeafFlags(FromBitsTruncate(WithRead(f.access.bits)), DEFAULT_ATTRIBUTES.(cache := f.attrs.cache))
  }

  /** Two words agree in the permission bits. */
  predicate SameAccess(w: bv64, low: bv64) {
    w & 0x8000_0000_0000_0117 == low & 0x8000_0000_0000_0117
  }

  /** A word's cache bits. */
  predicate HasCache(w: bv64, cache: bv64) {
    w & 0x18 == cache
  }

  /** Flag bits stay clear of the address field, and the other way round. */
  lemma {:induction false} FieldsApart(address: bv64, access: bv64, huge: bool, cache: bv64)
    requires HasCache(cache, cache)
    ensures var low := FlagBits(access, huge, cache);
            var w := WithFlags(address, low);
            && AddressField(w) == AddressField(address)
            && IsPresent(w) && (HasBlockBit(w) <==> huge)
            && SameAccess(w, low) && HasCache(w, cache)
  {
  }

  lemma {:induction false} TableField(address: bv64)
    ensures var w := WithFlags(address, TABLE_FLAGS);
            AddressField(w) == AddressField(address) && IsPresent(w) && !HasBlockBit(w)
  {
  }

  /** What permissions read back as: readable, and nothing beyond the five bits. */
  lemma {:induction false} AccessReadsBack(w: bv64, access: bv64, huge: bool, cache: bv64)
    requires HasCache(cache, cache) && SameAccess(w, FlagBits(access, huge, cache))
    ensures FromBitsTruncate(AccessOf(w)) == FromBitsTruncate(WithRead(access))
  {
  }

  lemma {:induction false} CacheReadsBack(w: bv64, cache: CachePolicy)
    requires HasCache(w, CacheBits(cache))
    ensures CacheOf(w) == cache
  {
  }

  lemma {:induction false} CacheField(cache: CachePolicy)
    ensures HasCache(CacheBits(cache), CacheBits(cache))
  {
  }

  /** A page-aligned 52-bit address survives the address field. */
  lemma {:induction false} AddressSurvives(paddr: nat)
    requires paddr % 0x1000 == 0 && paddr < Pow2(52)
    ensures AddressField(ToWord(paddr, 64)) == ToWord(paddr, 64)
    ensures FromWord(ToWord(paddr, 64), 64) == paddr
  {
    hide ToWord;
    hide FromWord;
    hide LowMask;
    AddressWord(paddr, 52);
    Masks();
    InField(ToWord(paddr, 64));
  }

  lemma {:induction false} InField(x: bv64)
    requires x & 0xfff == 0 && Within(x, 0x000f_ffff_ffff_ffff)
    ensures AddressField(x) == x
  {
  }

  /** The fields of a leaf word, whatever its address bits. */
  lemma {:induction false} LeafFields(address: bv64, f: LeafFlags, size: PageSize)
    ensures var w := WithFlags(address, LeafBits(f, size));
            && AddressField(w) == AddressField(address)
            && IsPresent(w) && (HasBlockBit(w) <==> IsBlockSize(size))
            && FlagsOf(w) == Normal(f)
  {
    hide FlagBits;
    hide CacheBits;
    hide IsBlockSize;
    hide WithFlags;
    hide AddressField;
    hide IsPresent;
    hide HasBlockBit;
    hide SameAccess;
    hide HasCache;
    hide FlagsOf;
    hide Normal;
    var huge, cache := IsBlockSize(size), CacheBits(f.attrs.cache);
    CacheField(f.attrs.cache);
    FieldsApart(address, f.access.bits, huge, cache);
    FlagsReadBack(WithFlags(address, LeafBits(f, size)), f, huge);
  }

  /** A word with the permission and cache bits of `f` reads back as `f`, normalised. */
  lemma {:induction false} FlagsReadBack(w: bv64, f: LeafFlags, huge: bool)
    requires SameAccess(w, FlagBits(f.access.bits, huge, CacheBits(f.attrs.cache)))
    requires HasCache(w, CacheBits(f.attrs.cache))
    ensures FlagsOf(w) == Normal(f)
  {
    hide FlagBits;
    hide CacheBits;
    hide SameAccess;
    hide HasCache;
    hide AccessOf;
    hide CacheOf;
    hide FromBitsTruncate;
    hide WithRead;
    CacheField(f.attrs.cache);
    AccessReadsBack(w, f.access.bits, huge, CacheBits(f.attrs.cache));
    CacheReadsBack(w, f.attrs.cache);
  }

  /** Every leaf of a legal address reads back: present, terminal when its size says so, with
      its address, and with its flags normalised. */
  lemma {:induction false} LeafReadsBack(paddr: nat, f: LeafFlags, size: PageSize)
    requires paddr % 0x1000 == 0 && paddr < Pow2(52)
    ensures var w := NewLeaf(paddr, f, size);
            && IsPresent(w) && Paddr(w) == paddr
            && (HasBlockBit(w) <==> IsBlockSize(size))
            && FlagsOf(w) == Normal(f)
  {
    hide ToWord;
    hide FromWord;
    hide LeafBits;
    hide FlagsOf;
    hide Normal;
    hide WithFlags;
    hide AddressField;
    hide IsPresent;
    hide HasBlockBit;
    AddressSurvives(paddr);
    LeafFields(ToWord(paddr, 64), f, size);
  }

  /** The permission bits of a leaf word: present in bit 0, writable in bit 1, user in bit 2,
      global in bit 8, and no-execute in bit 63 exactly when execution is not granted. The
      page-size bit is bit 7, and bits 5, 6, 9-11 and 52-62 stay clear. */
  lemma {:induction false} LeafLayout(paddr: nat, f: LeafFlags, size: PageSize)
    ensures var w, a := CODEC.newLeaf(paddr, f, size), f.access.bits;
            && w & 0x1 != 0
            && (w & 0x2 != 0 <==> a & 0x2 != 0)
            && (w & 0x4 != 0 <==> a & 0x8 != 0)
            && (w & 0x80 != 0 <==> size == Size2M || size == Size1G)
            && (w & 0x100 != 0 <==> a & 0x10 != 0)
            && (w & 0x8000_0000_0000_0000 != 0 <==> a & 0x4 == 0)
            && w & 0x7ff0_0000_0000_0e60 == 0
  {
    hide ToWord;
    hide CacheBits;
    hide FlagBits;
    hide WithFlags;
    hide HasCache;
    CacheField(f.attrs.cache);
    PermissionLayout(ToWord(paddr, 64), f.access.bits, IsBlockSize(size), CacheBits(f.attrs.cache));
  }

  lemma {:induction false} PermissionLayout(address: bv64, a: bv64, huge: bool, cache: bv64)
    requires HasCache(cache, cache)
    ensures var w := WithFlags(address, FlagBits(a, huge, cache));
            && w & 0x1 != 0
            && (w & 0x2 != 0 <==> a & 0x2 != 0)
            && (w & 0x4 != 0 <==> a & 0x8 != 0)
            && (w & 0x80 != 0 <==> huge)
            && (w & 0x100 != 0 <==> a & 0x10 != 0)
            && (w & 0x8000_0000_0000_0000 != 0 <==> a & 0x4 == 0)
            && w & 0x7ff0_0000_0000_0e60 == 0
  {
  }

  /** Bits 12-51 of a leaf word are those of its address. */
  lemma {:induction false} LeafAddressLayout(paddr: nat, f: LeafFlags, size: PageSize)
    requires paddr % 0x1000 == 0 && paddr < Pow2(52)
    ensures CODEC.newLeaf(paddr, f, size) & 0x000f_ffff_ffff_f000 == ToWord(paddr, 64)
  {
    hide ToWord;
    hide NewLeaf;
    hide Pow2;
    LeafAddressBits(paddr, f, size);
  }

  /** Bits 3 and 4 of a leaf word hold the PAT index of its cache policy. */
  lemma {:induction false} LeafCacheLayout(paddr: nat, f: LeafFlags, size: PageSize)
    ensures CODEC.newLeaf(paddr, f, size) & 0x18 ==
            match f.attrs.cache
            case Writeback => 0
            case WriteThrough => 0x8
            case WriteCombine => 0x10
            case Uncached => 0x18
  {
    hide ToWord;
    hide NewLeaf;
    hide HasCache;
    hide CacheBits;
    CacheOfLeaf(paddr, f, size);
    CacheMask(NewLeaf(paddr, f, size), CacheBits(f.attrs.cache));
    CacheLayout(f.attrs.cache);
  }

  lemma {:induction false} LeafAddressBits(paddr: nat, f: LeafFlags, size: PageSize)
    requires paddr % 0x1000 == 0 && paddr < Pow2(52)
    ensures NewLeaf(paddr, f, size) & 0x000f_ffff_ffff_f000 == ToWord(paddr, 64)
  {
    hide ToWord;
    hide NewLeaf;
    hide AddressField;
    hide Pow2;
    AddressOfLeaf(paddr, f, size);
    AddressMask(NewLeaf(paddr, f, size), ToWord(paddr, 64));
  }

  lemma {:induction false} AddressOfLeaf(paddr: nat, f: LeafFlags, size: PageSize)
    requires paddr % 0x1000 == 0 && paddr < Pow2(52)
    ensures AddressField(NewLeaf(paddr, f, size)) == ToWord(paddr, 64)
  {
    hide Pow2;
    hide ToWord;
    hide CacheBits;
    hide FlagBits;
    hide WithFlags;
    hide AddressField;
    hide HasCache;
    hide IsPresent;
    hide HasBlockBit;
    hide SameAccess;
    CacheField(f.attrs.cache);
    AddressSurvives(paddr);
    FieldsApart(ToWord(paddr, 64), f.access.bits, IsBlockSize(size), CacheBits(f.attrs.cache));
  }

  lemma {:induction false} CacheOfLeaf(paddr: nat, f: LeafFlags, size: PageSize)
    ensures HasCache(NewLeaf(paddr, f, size), CacheBits(f.attrs.cache))
  {
    hide ToWord;
    hide CacheBits;
    hide FlagBits;
    hide WithFlags;
    hide AddressField;
    hide HasCache;
    hide IsPresent;
    hide HasBlockBit;
    hide SameAccess;
    CacheField(f.attrs.cache);
    FieldsApart(ToWord(paddr, 64), f.access.bits, IsBlockSize(size), CacheBits(f.attrs.cache));
  }

  lemma {:induction false} AddressMask(w: bv64, address: bv64)
    requires AddressField(w) == address
    ensures w & 0x000f_ffff_ffff_f000 == address
  {
  }

  lemma {:induction false} CacheMask(w: bv64, cache: bv64)
    requires HasCache(w, cache)
    ensures w & 0x18 == cache
  {
  }

  lemma {:induction false} PresentMask(w: bv64)
    ensures IsPresent(w) <==> w & 0x1 != 0
  {
  }

  lemma {:induction false} BlockMask(w: bv64)
    ensures HasBlockBit(w) <==> w & 0x80 != 0
  {
  }

  lemma {:induction false} CacheLayout(cache: CachePolicy)
    ensures match cache
            case Writeback => CacheBits(cache) == 0
            case WriteThrough => CacheBits(cache) == 0x8
            case WriteCombine => CacheBits(cache) == 0x10
            case Uncached => CacheBits(cache) == 0x18
  {
  }

  /** A table pointer holds its address in bits 12-51 and has its three lowest bits set, so
      that only the leaf restricts access; all other bits are clear. */
  lemma {:induction false} TableLayout(paddr: nat, level: nat)
    requires paddr % 0x1000 == 0 && paddr < Pow2(52)
    ensures var w := CODEC.newTable(paddr, level);
            && w & 0x000f_ffff_ffff_f000 == ToWord(paddr, 64)
            && w & 0xfff0_0000_0000_0fff == 0x7
  {
    hide ToWord;
    hide WithFlags;
    hide AddressField;
    AddressSurvives(paddr);
    TableBits(ToWord(paddr, 64));
    AddressMask(CODEC.newTable(paddr, level), ToWord(paddr, 64));
  }

  lemma {:induction false} TableBits(address: bv64)
    ensures var w := WithFlags(address, TABLE_FLAGS);
            AddressField(w) == AddressField(address) && w & 0xfff0_0000_0000_0fff == 0x7
  {
  }

  /** What the hardware's bits mean to the walker, for any word. */
  lemma {:induction false} DecodeLayout(w: bv64, level: nat)
    ensures CODEC.isPresent(w) <==> w & 0x1 != 0
    ensures CODEC.entryKind(w, level) == if level == 1 || w & 0x80 != 0 then KindLeaf else KindTable
    ensures CODEC.paddr(w) == FromWord(w & 0x000f_ffff_ffff_f000, 64)
    ensures var a := CODEC.flags(w).access.bits;
            && (a & 0x1 != 0 <==> w & 0x1 != 0) && (a & 0x2 != 0 <==> w & 0x2 != 0)
            && (a & 0x4 != 0 <==> w & 0x8000_0000_0000_0000 == 0)
            && (a & 0x8 != 0 <==> w & 0x4 != 0) && (a & 0x10 != 0 <==> w & 0x100 != 0)
            && a & 0x1f == a
    ensures CODEC.flags(w).attrs == MemoryAttributes(
              if w & 0x18 == 0 then Writeback else if w & 0x18 == 0x8 then WriteThrough
              else if w & 0x18 == 0x10 then WriteCombine else Uncached, Inner, Coherent)
  {
    hide FromWord;
    hide AddressField;
    hide IsPresent;
    hide HasBlockBit;
    hide FromBitsTruncate;
    hide AccessOf;
    hide CacheOf;
    AddressMask(w, AddressField(w));
    PresentMask(w);
    BlockMask(w);
    AccessLayout(w);
    PolicyLayout(w);
  }

  lemma {:induction false} AccessLayout(w: bv64)
    ensures var a := FromBitsTruncate(AccessOf(w)).bits;
            && (a & 0x1 != 0 <==> w & 0x1 != 0) && (a & 0x2 != 0 <==> w & 0x2 != 0)
            && (a & 0x4 != 0 <==> w & 0x8000_0000_0000_0000 == 0)
            && (a & 0x8 != 0 <==> w & 0x4 != 0) && (a & 0x10 != 0 <==> w & 0x100 != 0)
            && a & 0x1f == a
  {
  }

  lemma {:induction false} PolicyLayout(w: bv64)
    ensures CacheOf(w) == if w & 0x18 == 0 then Writeback else if w & 0x18 == 0x8 then WriteThrough
                          else if w & 0x18 == 0x10 then WriteCombine else Uncached
  {
  }

  lemma {:induction false} TableReadsBack(paddr: nat, level: nat)
    requires paddr % 0x1000 == 0 && paddr < Pow2(52) && level >= 2
    ensures var w := NewTable(paddr, level);
            IsPresent(w) && Paddr(w) == paddr && Kind(w, level) == KindTable
  {
    hide ToWord;
    hide FromWord;
    hide WithFlags;
    hide AddressField;
    hide IsPresent;
    hide HasBlockBit;
    AddressSurvives(paddr);
    TableField(ToWord(paddr, 64));
  }

  /** Reading back twice changes nothing more. */
  lemma {:induction false} TruncateTwice(access: bv64)
    ensures WithRead(WithRead(access) & ALL_ACCESS) & ALL_ACCESS == WithRead(access) & ALL_ACCESS
  {
  }

  /** The x86-64 entry satisfies the walker's laws, for four and for five levels. */
  lemma {:induction false} X86IsLawful(g: Geometry)
    requires g == X86_48 || g == X86_57
    ensures g.Lawful() && Lawful(CODEC, g)
  {
    hide NewLeaf;
    hide NewTable;
    hide Paddr;
    hide FlagsOf;
    hide IsPresent;
    Lawful4K(g);
    ZeroIsAbsent();
    forall p, l | 2 <= l <= g.levels && FrameOk(g, p) ensures CODEC.Decode(CODEC.newTable(p, l), l) == Table(p) {
      FirstShifts(g);
      PageBytes();
      TableReadsBack(p, l);
    }
    forall f ensures CODEC.Norm(f) == Normal(f) && CODEC.Norm(CODEC.Norm(f)) == CODEC.Norm(f) {
      NormIs(f);
      NormIs(Normal(f));
      TruncateTwice(f.access.bits);
    }
    forall p, f, l, s | g.LevelSupportsLeaf(l, s) && TargetOk(g, l, p)
      ensures LeafWordOk(CODEC, l, CODEC.newLeaf(p, f, s), p, f)
    {
      LeafWord(g, l, s, p, f);
    }
  }

  lemma {:induction false} ZeroIsAbsent()
    ensures !IsPresent(0)
  {
  }

  lemma {:induction false} NormIs(f: LeafFlags)
    ensures CODEC.Norm(f) == Normal(f)
  {
    hide NewLeaf;
    hide FlagsOf;
    LeafReadsBack(0, f, Size4K);
  }

  lemma {:induction false} LeafWord(g: Geometry, l: nat, s: PageSize, p: nat, f: LeafFlags)
    requires g == X86_48 || g == X86_57
    requires g.LevelSupportsLeaf(l, s) && TargetOk(g, l, p)
    ensures LeafWordOk(CODEC, l, NewLeaf(p, f, s), p, f)
  {
    hide NewLeaf;
    hide FlagsOf;
    hide Paddr;
    hide IsPresent;
    hide TargetOk;
    hide HasBlockBit;
    hide Geometry.Lawful;
    hide Geometry.LevelSupportsLeaf;
    hide Pow2;
    Lawful4K(g);
    LeafLevels4K(g, l, s);
    TargetIsPage(g, l, p);
    LeafReadsBack(p, f, s);
    NormIs(f);
  }
}
