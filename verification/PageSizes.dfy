/** The ten leaf sizes any supported format can use. */
module PageSizes {
  import opened Basics
  import opened Power

  datatype PageSize =
    | Size4K | Size16K | Size64K | Size2M | Size32M
    | Size512M | Size1G | Size64G | Size512G | Size4T
  {
    function Bytes(): (n: nat)
      ensures n > 0
    {
      match this
      case Size4K => 0x1000
      case Size16K => 0x4000
      case Size64K => 0x1_0000
      case Size2M => 0x20_0000
      case Size32M => 0x200_0000
      case Size512M => 0x2000_0000
      case Size1G => 0x4000_0000
      case Size64G => 0x10_0000_0000
      case Size512G => 0x80_0000_0000
      case Size4T => 0x400_0000_0000
    }

    predicate IsAligned(n: nat) {
      n % Bytes() == 0
    }

    /** The exponent of the size: every page size is a power of two. */
    function Shift(): nat {
      match this
      case Size4K => 12
      case Size16K => 14
      case Size64K => 16
      case Size2M => 21
      case Size32M => 25
      case Size512M => 29
      case Size1G => 30
      case Size64G => 36
      case Size512G => 39
      case Size4T => 42
    }

    lemma {:induction false} BytesIsPow2()
      ensures Bytes() == Pow2(Shift())
    {
      assert Pow2(12) == 0x1000;
      Pow2Add(12, 2);
      Pow2Add(12, 4);
      Pow2Add(12, 9);
      Pow2Add(12, 13);
      assert Pow2(13) == 0x2000;
      Pow2Add(16, 13);
      Pow2Add(16, 14);
      Pow2Add(16, 20);
      Pow2Add(30, 9);
      Pow2Add(30, 12);
      assert Pow2(20) == 0x10_0000 by { Pow2Add(12, 8); }
    }
  }

  function FromBytes(n: nat): (r: Option<PageSize>)
    ensures r.Some? ==> r.value.Bytes() == n
    ensures r.None? ==> forall s: PageSize :: s.Bytes() != n
  {
    match n
    case 0x1000 => Some(Size4K)
    case 0x4000 => Some(Size16K)
    case 0x1_0000 => Some(Size64K)
    case 0x20_0000 => Some(Size2M)
    case 0x200_0000 => Some(Size32M)
    case 0x2000_0000 => Some(Size512M)
    case 0x4000_0000 => Some(Size1G)
    case 0x10_0000_0000 => Some(Size64G)
    case 0x80_0000_0000 => Some(Size512G)
    case 0x400_0000_0000 => Some(Size4T)
    case _ => None
  }

  /** The leaf size whose exponent is `shift`, if it is one of the ten. */
  function SizeOfShift(shift: nat): (r: Option<PageSize>)
    ensures r.Some? ==> r.value.Shift() == shift
    ensures r.None? ==> forall s: PageSize :: s.Shift() != shift
  {
    match shift
    case 12 => Some(Size4K)
    case 14 => Some(Size16K)
    case 16 => Some(Size64K)
    case 21 => Some(Size2M)
    case 25 => Some(Size32M)
    case 29 => Some(Size512M)
    case 30 => Some(Size1G)
    case 36 => Some(Size64G)
    case 39 => Some(Size512G)
    case 42 => Some(Size4T)
    case _ => None
  }

  /** The largest-first order in which a contiguous request tries leaf sizes. */
  const LEAF_SIZES_DESC: seq<PageSize> :=
    [Size4T, Size512G, Size64G, Size1G, Size512M, Size32M, Size2M, Size64K, Size16K, Size4K]
}
