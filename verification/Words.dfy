/** Addresses as 64-bit words, bit by bit. */
module Words {
  import opened Power

  function Bit(b: bool): bv64 {
    if b then 1 else 0
  }

  /** Append a lowest bit. */
  function Push(x: bv64, bit: bool): bv64 {
    (x << 1) | (if bit then 1 else 0)
  }

  function Pop(x: bv64): bv64 {
    x >> 1
  }

  predicate LowBit(x: bv64) {
    x & 1 == 1
  }

  /** All set bits of `x` are set in `mask`. */
  predicate Within(x: bv64, mask: bv64) {
    x & mask == x
  }

  /** The lowest `width` bits of `n` as a word. */
  function ToWord(n: nat, width: nat): bv64
    decreases width
  {
    if width == 0 then 0 else Push(ToWord(n / 2, width - 1), n % 2 == 1)
  }

  /** The number that the lowest `width` bits of a word stand for. */
  function FromWord(b: bv64, width: nat): nat
    decreases width
  {
    if width == 0 then 0 else 2 * FromWord(Pop(b), width - 1) + (if LowBit(b) then 1 else 0)
  }

  /** The word with the lowest `width` bits set. */
  function LowMask(width: nat): bv64
    decreases width
  {
    if width == 0 then 0 else Push(LowMask(width - 1), true)
  }

  lemma {:induction false} PushWithin(x: bv64, mask: bv64, bit: bool)
    requires Within(x, mask)
    ensures Within(Push(x, bit), Push(mask, true))
  {
    if bit {
      PushOne(x, mask);
    } else {
      PushZero(x, mask);
    }
  }

  lemma {:induction false} PushOne(x: bv64, mask: bv64)
    ensures Push(x & mask, true) & Push(mask, true) == Push(x & mask, true)
  {
  }

  lemma {:induction false} PushZero(x: bv64, mask: bv64)
    ensures Push(x & mask, false) & Push(mask, true) == Push(x & mask, false)
  {
  }

  lemma {:induction false} ZeroWithin(mask: bv64)
    ensures Within(0, mask) && Push(0, false) == 0
  {
  }

  lemma {:induction false} WithinTrans(x: bv64, a: bv64, b: bv64)
    requires Within(x, a) && Within(a, b)
    ensures Within(x, b)
  {
    assert x & b == (x & a) & b == x & (a & b);
  }

  /** Nothing is lost by appending to a word whose top bit is clear. */
  lemma {:induction false} PopPush(x: bv64, bit: bool)
    requires Within(x, 0x7fff_ffff_ffff_ffff)
    ensures Pop(Push(x, bit)) == x && LowBit(Push(x, bit)) == bit
  {
  }

  /** A number is confined to as many bits as it is converted with. */
  lemma {:induction false} WordWithinMask(n: nat, width: nat)
    ensures Within(ToWord(n, width), LowMask(width))
    decreases width
  {
    hide Push;
    hide Within;
    if width == 0 {
      ZeroWithin(0);
    } else {
      WordWithinMask(n / 2, width - 1);
      PushWithin(ToWord(n / 2, width - 1), LowMask(width - 1), n % 2 == 1);
    }
  }

  lemma {:induction false} ZeroWord(width: nat)
    ensures ToWord(0, width) == 0
    decreases width
  {
    hide Push;
    if width > 0 {
      ZeroWord(width - 1);
      ZeroWithin(0);
    }
  }

  /** Bits above a number's width are clear. */
  lemma {:induction false} HighBitsClear(n: nat, width: nat, more: nat)
    requires width <= more && n < Pow2(width)
    ensures ToWord(n, more) == ToWord(n, width)
    decreases more
  {
    hide Push;
    if width == 0 {
      ZeroWord(more);
    } else {
      HighBitsClear(n / 2, width - 1, more - 1);
    }
  }

  lemma {:induction false} MaskInNext(width: nat)
    ensures Within(LowMask(width), LowMask(width + 1))
    decreases width
  {
    hide Push;
    hide Within;
    if width == 0 {
      ZeroWithin(LowMask(1));
    } else {
      MaskInNext(width - 1);
      PushWithin(LowMask(width - 1), LowMask(width), true);
    }
  }

  lemma {:induction false} MaskMonotone(width: nat, more: nat)
    requires width <= more
    ensures Within(LowMask(width), LowMask(more))
    decreases more - width
  {
    hide Push;
    hide Within;
    if width == more {
      MaskInItself(LowMask(width));
    } else {
      MaskInNext(width);
      MaskMonotone(width + 1, more);
      WithinTrans(LowMask(width), LowMask(width + 1), LowMask(more));
    }
  }

  lemma {:induction false} MaskInItself(x: bv64)
    ensures Within(x, x)
  {
  }

  function PushFour(x: bv64): bv64 {
    (x << 4) | 0xf
  }

  lemma {:induction false} FourPushes(x: bv64)
    ensures Push(Push(Push(Push(x, true), true), true), true) == PushFour(x)
  {
  }

  lemma {:induction false} MaskStep(width: nat)
    ensures LowMask(width + 4) == PushFour(LowMask(width))
  {
    hide Push;
    hide PushFour;
    var m := LowMask(width);
    assert LowMask(width + 1) == Push(m, true);
    assert LowMask(width + 2) == Push(LowMask(width + 1), true);
    assert LowMask(width + 3) == Push(LowMask(width + 2), true);
    assert LowMask(width + 4) == Push(LowMask(width + 3), true);
    FourPushes(m);
  }

  lemma {:induction false} LowMasks()
    ensures LowMask(32) == 0xffff_ffff
  {
    hide LowMask;
    assert LowMask(0) == 0 by { MaskOfNothing(); }
    MaskStep(0);
    MaskStep(4);
    MaskStep(8);
    MaskStep(12);
    MaskStep(16);
    MaskStep(20);
    MaskStep(24);
    MaskStep(28);
  }

  lemma {:induction false} MaskOfNothing()
    ensures LowMask(0) == 0
  {
  }

  /** The masks of the address fields. */
  lemma {:induction false} Masks()
    ensures LowMask(52) == 0x000f_ffff_ffff_ffff
    ensures LowMask(56) == 0x00ff_ffff_ffff_ffff
    ensures LowMask(64) == 0xffff_ffff_ffff_ffff
  {
    hide LowMask;
    LowMasks();
    MaskStep(32);
    MaskStep(36);
    MaskStep(40);
    MaskStep(44);
    MaskStep(48);
    MaskStep(52);
    MaskStep(56);
    MaskStep(60);
  }

  lemma {:induction false} TopBitMask()
    ensures LowMask(63) == 0x7fff_ffff_ffff_ffff
  {
    hide LowMask;
    Masks();
    MaskStep(56);
    MaskStep(52);
    ThreePushes();
  }

  lemma {:induction false} ThreePushes()
    ensures LowMask(63) == Push(Push(Push(LowMask(60), true), true), true)
  {
    hide Push;
  }

  /** Converting to a word and back. */
  lemma {:induction false} WordRoundTrip(n: nat, width: nat)
    requires width <= 64 && n < Pow2(width)
    ensures FromWord(ToWord(n, width), width) == n
    decreases width
  {
    hide Push;
    hide Pop;
    hide LowBit;
    hide Within;
    if width > 0 {
      WordRoundTrip(n / 2, width - 1);
      PopWord(n, width);
    }
  }

  /** Dropping the lowest bit of a number's word gives the word of half the number. */
  lemma {:induction false} WordShift(n: nat, half: nat, width: nat)
    requires n / 2 == half && width < 64
    ensures ToWord(n, width + 1) >> 1 == ToWord(half, width)
  {
    hide ToWord;
    hide Pop;
    hide LowBit;
    PopWord(n, width + 1);
    ShiftIsPop(ToWord(n, width + 1), ToWord(half, width));
  }

  /** The lowest bit of a number's word says whether the number is odd; so, with `WordShift`,
      bit `k` of the word is the digit of `2^k`. */
  lemma {:induction false} WordLowBit(n: nat, odd: bool, width: nat)
    requires (n % 2 == 1) == odd && width < 64
    ensures ToWord(n, width + 1) & 0x1 == if odd then 1 else 0
  {
    hide ToWord;
    hide Pop;
    hide LowBit;
    PopWord(n, width + 1);
    BitIsSet(ToWord(n, width + 1), odd);
  }

  lemma {:induction false} PopWord(n: nat, width: nat)
    requires 1 <= width <= 64
    ensures Pop(ToWord(n, width)) == ToWord(n / 2, width - 1) && (LowBit(ToWord(n, width)) <==> n % 2 == 1)
  {
    hide Push;
    hide Pop;
    hide LowBit;
    hide Within;
    hide LowMask;
    var rest := ToWord(n / 2, width - 1);
    WordWithinMask(n / 2, width - 1);
    MaskMonotone(width - 1, 63);
    WithinTrans(rest, LowMask(width - 1), LowMask(63));
    TopBitMask();
    PopPush(rest, n % 2 == 1);
  }

  lemma {:induction false} ShiftIsPop(x: bv64, y: bv64)
    requires Pop(x) == y
    ensures x >> 1 == y
  {
  }

  lemma {:induction false} BitIsSet(x: bv64, bit: bool)
    requires LowBit(x) == bit
    ensures x & 0x1 == if bit then 1 else 0
  {
  }

  function PushEmpty(x: bv64): bv64 {
    x << 4
  }

  lemma {:induction false} FourEmptyPushes(x: bv64)
    ensures Push(Push(Push(Push(x, false), false), false), false) == PushEmpty(x)
  {
  }

  lemma {:induction false} FourClear(n: nat, width: nat)
    requires width >= 4 && n % 16 == 0
    ensures ToWord(n, width) == PushEmpty(ToWord(n / 16, width - 4))
  {
    hide Push;
    hide PushEmpty;
    assert n % 2 == 0 && (n / 2) % 2 == 0 && (n / 4) % 2 == 0 && (n / 8) % 2 == 0;
    assert (n / 2) / 2 == n / 4 && (n / 4) / 2 == n / 8 && (n / 8) / 2 == n / 16;
    assert ToWord(n, width) == Push(ToWord(n / 2, width - 1), false);
    assert ToWord(n / 2, width - 1) == Push(ToWord(n / 4, width - 2), false);
    assert ToWord(n / 4, width - 2) == Push(ToWord(n / 8, width - 3), false);
    assert ToWord(n / 8, width - 3) == Push(ToWord(n / 16, width - 4), false);
    FourEmptyPushes(ToWord(n / 16, width - 4));
  }

  lemma {:induction false} TwelveClear(x: bv64)
    ensures PushEmpty(PushEmpty(PushEmpty(x))) & 0xfff == 0
  {
  }

  /** A multiple of `2^12` has its twelve lowest bits clear. */
  lemma {:induction false} LowBitsClear(n: nat, width: nat)
    requires width >= 12 && n % 0x1000 == 0
    ensures ToWord(n, width) & 0xfff == 0
  {
    hide PushEmpty;
    hide ToWord;
    assert (n / 16) / 16 == n / 256 && (n / 256) / 16 == n / 0x1000;
    FourClear(n, width);
    FourClear(n / 16, width - 4);
    FourClear(n / 256, width - 8);
    TwelveClear(ToWord(n / 0x1000, width - 12));
  }

  /** A page-aligned address below `2^bits`, as a word, has only bits from 12 up to `bits`,
      and converts back. */
  lemma {:induction false} AddressWord(n: nat, bits: nat)
    requires 12 <= bits <= 64 && n % 0x1000 == 0 && n < Pow2(bits)
    ensures ToWord(n, 64) & 0xfff == 0 && Within(ToWord(n, 64), LowMask(bits))
    ensures FromWord(ToWord(n, 64), 64) == n
  {
    hide ToWord;
    hide FromWord;
    hide LowMask;
    hide Within;
    LowBitsClear(n, 64);
    HighBitsClear(n, bits, 64);
    WordWithinMask(n, bits);
    Pow2Monotone(bits, 64);
    WordRoundTrip(n, 64);
  }
}
