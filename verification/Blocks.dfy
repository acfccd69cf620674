/** Valid addresses walk to the same slot exactly when they lie in the same aligned block. */
module Blocks {
  import opened Basics
  import opened Power
  import opened PageSizes
  import opened Geometries

  lemma {:induction false} SpanStep(g: Geometry, level: nat)
    requires g.Lawful() && 1 <= level < g.levels
    ensures g.Span(level + 1) == g.Span(level) * g.Fan(level)
    ensures g.Fan(level) == g.EntriesPerTable()
  {
    Pow2Add(g.Shift(level), g.indexBits);
  }

  lemma {:induction false} ShiftMonotone(g: Geometry, a: nat, b: nat)
    requires a <= b
    ensures g.Shift(a) <= g.Shift(b)
    decreases b
  {
    if a < b && b > 1 {
      if a <= b - 1 { ShiftMonotone(g, a, b - 1); }
    }
  }

  /** A block number is the block number one level up followed by the index. */
  lemma {:induction false} BlockStep(g: Geometry, v: nat, level: nat)
    requires g.Lawful() && 1 <= level < g.levels
    ensures v / g.Span(level + 1) == (v / g.Span(level)) / g.Fan(level)
    ensures v / g.Span(level) == (v / g.Span(level + 1)) * g.Fan(level) + g.IndexAt(level, v)
  {
    SpanStep(g, level);
    DivTwice(v, g.Span(level), g.Fan(level));
    MiddleDigit(v, g.Span(level), g.Fan(level));
  }

  /** The digit `(n / half) % 2` of a number with low part `i < 2 * half`. */
  lemma {:induction false} SignDigit(n: nat, half: nat, upper: nat, i: nat)
    requires half > 0 && n == upper * (2 * half) + i && i < 2 * half
    ensures (n / half) % 2 == if i < half then 0 else 1
  {
    var sign := if i < half then 0 else 1;
    assert upper * (2 * half) == (2 * upper) * half;
    assert n == (2 * upper + sign) * half + (i - sign * half);
    DivModUnique(n, half, 2 * upper + sign, i - sign * half);
  }

  lemma {:induction false} VaSplit(g: Geometry)
    requires g.Lawful()
    ensures g.Fan(g.levels) == 2 * Pow2(g.rootBits - 1)
    ensures Pow2(g.VaBits()) == g.Span(g.levels) * g.Fan(g.levels)
    ensures Pow2(g.VaBits() - 1) == g.Span(g.levels) * Pow2(g.rootBits - 1)
  {
    Pow2Add(g.Shift(g.levels), g.rootBits);
    Pow2Add(g.Shift(g.levels), g.rootBits - 1);
  }

  lemma {:induction false} SignOfNumber(n: nat, half: nat)
    requires half > 0
    ensures (n / half) % 2 == if n % (2 * half) < half then 0 else 1
  {
    SignDigit(n, half, n / (2 * half), n % (2 * half));
  }

  lemma {:induction false} UpperDigits(v: nat, a: nat, fan: nat, whole: nat)
    requires a > 0 && fan > 0 && whole == a * fan
    ensures whole > 0 && v / whole == (v / a) / fan
  {
    DivTwice(v, a, fan);
  }

  lemma {:induction false} SignOfQuotient(v: nat, a: nat, half: nat, cut: nat)
    requires a > 0 && half > 0 && cut == a * half
    ensures cut > 0 && (v / cut) % 2 == if (v / a) % (2 * half) < half then 0 else 1
  {
    UpperDigits(v, a, half, cut);
    SignOfNumber(v / a, half);
  }

  lemma {:induction false} SmallQuotient(v: nat, d: nat)
    requires v < d
    ensures v / d == 0
  {
    DivModUnique(v, d, 0, v);
  }

  /** The bits above the root index of a plain address are clear. */
  lemma {:induction false} UpperBitsPlain(g: Geometry, v: nat)
    requires g.Lawful() && g.VaddrIsValid(v) && !g.signExtended
    ensures (v / g.Span(g.levels)) / g.Fan(g.levels) == 0
  {
    assert v / Pow2(g.VaBits()) == (v / g.Span(g.levels)) / g.Fan(g.levels) by {
      VaSplit(g);
      UpperDigits(v, g.Span(g.levels), g.Fan(g.levels), Pow2(g.VaBits()));
    }
    SmallQuotient(v, Pow2(g.VaBits()));
  }

  /** The bits above the root index of a canonical address repeat its top bit. */
  lemma {:induction false} UpperBitsCanonical(g: Geometry, v: nat)
    requires g.Lawful() && g.VaddrIsValid(v) && g.signExtended
    ensures (v / g.Span(g.levels)) / g.Fan(g.levels) ==
            if g.IndexAt(g.levels, v) < Pow2(g.rootBits - 1) then 0 else Pow2(64 - g.VaBits()) - 1
  {
    var upper, sign := v / Pow2(g.VaBits()), (v / Pow2(g.VaBits() - 1)) % 2;
    assert upper == (v / g.Span(g.levels)) / g.Fan(g.levels) by {
      VaSplit(g);
      UpperDigits(v, g.Span(g.levels), g.Fan(g.levels), Pow2(g.VaBits()));
    }
    assert sign == if g.IndexAt(g.levels, v) < Pow2(g.rootBits - 1) then 0 else 1 by {
      VaSplit(g);
      SignOfQuotient(v, g.Span(g.levels), Pow2(g.rootBits - 1), Pow2(g.VaBits() - 1));
    }
  }

  /** Addresses with the same root index lie in the same root block. */
  lemma {:induction false} SameRootBlock(g: Geometry, v: nat, w: nat)
    requires g.Lawful() && g.VaddrIsValid(v) && g.VaddrIsValid(w)
    ensures g.IndexAt(g.levels, v) == g.IndexAt(g.levels, w) <==> v / g.Span(g.levels) == w / g.Span(g.levels)
  {
    hide Canonical;
    hide Geometry.Lawful;
    hide Geometry.VaddrIsValid;
    hide Geometry.VaBits;
    hide Geometry.Span;
    hide Geometry.Fan;
    hide Pow2;
    if g.signExtended {
      UpperBitsCanonical(g, v);
      UpperBitsCanonical(g, w);
    } else {
      UpperBitsPlain(g, v);
      UpperBitsPlain(g, w);
    }
    SameDigits(v / g.Span(g.levels), w / g.Span(g.levels), g.Fan(g.levels));
  }

  lemma {:induction false} SameDigits(x: nat, y: nat, d: nat)
    requires d > 0
    ensures x == y <==> x / d == y / d && x % d == y % d
  {
    assert x == (x / d) * d + x % d;
    assert y == (y / d) * d + y % d;
  }

  /** The correspondence between walks and blocks, at every level. */
  lemma {:induction false} SamePathSameBlock(g: Geometry, v: nat, w: nat, level: nat)
    requires g.Lawful() && g.VaddrIsValid(v) && g.VaddrIsValid(w)
    requires 1 <= level <= g.levels
    ensures g.PathOf(v, level - 1) == g.PathOf(w, level - 1) <==> v / g.Span(level) == w / g.Span(level)
    decreases g.levels - level
  {
    if level == g.levels {
      SameRootBlock(g, v, w);
    } else {
      SamePathSameBlock(g, v, w, level + 1);
      BlockStep(g, v, level);
      BlockStep(g, w, level);
    }
  }

  lemma {:induction false} ShiftIsStrict(g: Geometry, a: nat, b: nat)
    requires g.Lawful() && 1 <= a < b
    ensures g.Shift(a) < g.Shift(b)
    decreases b
  {
    ShiftMonotone(g, a, b - 1);
  }

  /** At most one level has a given leaf size, and the search for it finds it. */
  lemma {:induction false} LevelOfSizeIs(g: Geometry, size: PageSize, level: nat)
    requires g.Lawful()
    ensures g.LevelOfSize(size) == Some(level) <==> g.LevelSupportsLeaf(level, size)
  {
    FirstLevelIs(g, size, 1, level);
  }

  lemma {:induction false} FirstLevelIs(g: Geometry, size: PageSize, from: nat, level: nat)
    requires g.Lawful() && 1 <= from
    ensures from <= level ==> (g.FirstLevelFor(size, from) == Some(level) <==> g.LevelSupportsLeaf(level, size))
    ensures g.FirstLevelFor(size, from) == Some(level) ==> from <= level
    decreases g.levels + 1 - from
  {
    if from <= g.levels {
      if g.LevelSupportsLeaf(from, size) {
        if from < level && g.LevelSupportsLeaf(level, size) {
          ShiftIsStrict(g, from, level);
        }
      } else {
        FirstLevelIs(g, size, from + 1, level);
      }
    }
  }
}
