/** Cutting a contiguous request into leaves: the greedy choice and why no cut does better. */
module Tilings {
  import opened Basics
  import opened Power
  import opened PageSizes
  import opened Geometries
  import opened Blocks

  /** Bytes covered by the first `i` tiles. */
  function Offset(tiles: seq<PageSize>, i: nat): nat
    requires i <= |tiles|
    decreases i
  {
    if i == 0 then 0 else Offset(tiles, i - 1) + tiles[i - 1].Bytes()
  }

  function Total(tiles: seq<PageSize>): nat {
    Offset(tiles, |tiles|)
  }

  /** A leaf of `s` may map `v` to `p` when `n` bytes are left. */
  predicate Fits(g: Geometry, v: nat, p: nat, n: nat, s: PageSize) {
    n >= s.Bytes() && s.IsAligned(v) && s.IsAligned(p) && g.LevelOfSize(s).Some?
  }

  /** The first size of a list that fits. */
  function FirstFit(g: Geometry, v: nat, p: nat, n: nat, sizes: seq<PageSize>): Option<PageSize> {
    if sizes == [] then None
    else if Fits(g, v, p, n, sizes[0]) then Some(sizes[0])
    else FirstFit(g, v, p, n, sizes[1..])
  }

  /** The greedy choice: the largest leaf size that fits. */
  function BestSize(g: Geometry, v: nat, p: nat, n: nat): Option<PageSize> {
    FirstFit(g, v, p, n, LEAF_SIZES_DESC)
  }

  ghost predicate Descending(sizes: seq<PageSize>) {
    forall i, j | 0 <= i < j < |sizes| :: sizes[i].Bytes() > sizes[j].Bytes()
  }

  lemma {:induction false} FirstFitIs(g: Geometry, v: nat, p: nat, n: nat, sizes: seq<PageSize>)
    requires Descending(sizes)
    ensures match FirstFit(g, v, p, n, sizes)
            case Some(s) => s in sizes && Fits(g, v, p, n, s)
                            && forall t | t in sizes && Fits(g, v, p, n, t) :: t.Bytes() <= s.Bytes()
            case None => forall t | t in sizes :: !Fits(g, v, p, n, t)
    decreases |sizes|
  {
    if sizes != [] {
      assert Descending(sizes[1..]);
      FirstFitIs(g, v, p, n, sizes[1..]);
    }
  }

  lemma {:induction false} EverySize(s: PageSize)
    ensures s in LEAF_SIZES_DESC && Descending(LEAF_SIZES_DESC)
  {
    match s
    case Size4T => assert LEAF_SIZES_DESC[0] == s;
    case Size512G => assert LEAF_SIZES_DESC[1] == s;
    case Size64G => assert LEAF_SIZES_DESC[2] == s;
    case Size1G => assert LEAF_SIZES_DESC[3] == s;
    case Size512M => assert LEAF_SIZES_DESC[4] == s;
    case Size32M => assert LEAF_SIZES_DESC[5] == s;
    case Size2M => assert LEAF_SIZES_DESC[6] == s;
    case Size64K => assert LEAF_SIZES_DESC[7] == s;
    case Size16K => assert LEAF_SIZES_DESC[8] == s;
    case Size4K => assert LEAF_SIZES_DESC[9] == s;
  }

  /** The greedy choice fits and no size that fits is larger; without one nothing fits. */
  lemma {:induction false} BestSizeIs(g: Geometry, v: nat, p: nat, n: nat, t: PageSize)
    ensures match BestSize(g, v, p, n)
            case Some(s) => Fits(g, v, p, n, s) && (Fits(g, v, p, n, t) ==> t.Bytes() <= s.Bytes())
            case None => !Fits(g, v, p, n, t)
  {
    hide Fits;
    EverySize(t);
    FirstFitIs(g, v, p, n, LEAF_SIZES_DESC);
  }

  /** Of two page sizes the smaller divides the larger. */
  lemma {:induction false} SizesDivide(s: PageSize, t: PageSize)
    requires s.Bytes() <= t.Bytes()
    ensures t.Bytes() % s.Bytes() == 0
  {
    s.BytesIsPow2();
    t.BytesIsPow2();
    Pow2Order(s.Shift(), t.Shift());
    Pow2Divides(s.Shift(), t.Shift());
  }

  lemma {:induction false} MultipleOfMultiple(x: nat, s: nat, t: nat)
    requires t > 0 && s > 0 && s % t == 0 && x % s == 0
    ensures x % t == 0
  {
    DigitsOf(s, t);
    ModOfMultiple(x, t, s / t);
  }

  lemma {:induction false} DifferenceMod(v: nat, d: nat, t: nat)
    requires t > 0 && v % t == 0 && (v + d) % t == 0
    ensures d % t == 0
  {
    DigitsOf(v, t);
    AddMultipleMod(d, v / t, t);
  }

  /** A smaller tile that starts inside an aligned block ends inside it. */
  lemma {:induction false} NoCrossing(v: nat, d: nat, s: nat, t: nat)
    requires t > 0 && s > 0 && s % t == 0 && v % s == 0 && (v + d) % t == 0 && d < s
    ensures d + t <= s
  {
    MultipleOfMultiple(v, s, t);
    DifferenceMod(v, d, t);
    DigitsOf(s, t);
    DigitsOf(d, t);
    QuotientBound(d, t, s / t);
    MulMonotone(d / t + 1, s / t, t);
    assert (d / t + 1) * t == (d / t) * t + t;
  }

  /** A larger tile that starts inside an aligned block starts at its beginning. */
  lemma {:induction false} LargerStartsThere(v: nat, d: nat, s: nat, t: nat)
    requires s > 0 && t > 0 && t % s == 0 && v % s == 0 && (v + d) % t == 0 && d < s
    ensures d == 0
  {
    MultipleOfMultiple(v + d, t, s);
    DifferenceMod(v, d, s);
    DivModUnique(d, s, 0, d);
  }

  /** Tile `i` fits where it stands in a request of `n` bytes. */
  ghost predicate TileFits(g: Geometry, v: nat, p: nat, n: nat, tiles: seq<PageSize>, i: nat)
    requires i < |tiles|
  {
    var at := Offset(tiles, i);
    at <= n && Fits(g, v + at, p + at, n - at, tiles[i])
  }

  /** A cut of `[v, v + n)` into supported leaves, each aligned virtually and physically. */
  ghost predicate Tiling(g: Geometry, v: nat, p: nat, n: nat, tiles: seq<PageSize>) {
    && Total(tiles) == n
    && forall i: nat | i < |tiles| :: TileFits(g, v, p, n, tiles, i)
  }

  /** Tile `i` is the greedy choice where it stands. */
  ghost predicate TileIsBest(g: Geometry, v: nat, p: nat, n: nat, tiles: seq<PageSize>, i: nat)
    requires i < |tiles|
  {
    var at := Offset(tiles, i);
    at <= n && BestSize(g, v + at, p + at, n - at) == Some(tiles[i])
  }

  /** A prefix of the greedy cut of `[v, v + n)`. */
  ghost predicate GreedyRun(g: Geometry, v: nat, p: nat, n: nat, tiles: seq<PageSize>) {
    forall i: nat | i < |tiles| :: TileIsBest(g, v, p, n, tiles, i)
  }

  lemma {:induction false} OffsetAppend(tiles: seq<PageSize>, t: PageSize, i: nat)
    requires i <= |tiles|
    ensures Offset(tiles + [t], i) == Offset(tiles, i)
    decreases i
  {
    if i > 0 {
      OffsetAppend(tiles, t, i - 1);
    }
  }

  lemma {:induction false} TotalAppend(tiles: seq<PageSize>, t: PageSize)
    ensures Total(tiles + [t]) == Total(tiles) + t.Bytes()
    ensures forall i: nat | i <= |tiles| :: Offset(tiles + [t], i) == Offset(tiles, i)
  {
    forall i: nat | i <= |tiles| ensures Offset(tiles + [t], i) == Offset(tiles, i) {
      OffsetAppend(tiles, t, i);
    }
  }

  lemma {:induction false} BestFits(g: Geometry, v: nat, p: nat, n: nat, t: PageSize)
    requires BestSize(g, v, p, n) == Some(t)
    ensures Fits(g, v, p, n, t) && t.Bytes() <= n
  {
    BestSizeIs(g, v, p, n, t);
  }

  lemma {:induction false} OffsetMonotone(tiles: seq<PageSize>, i: nat, j: nat)
    requires i <= j <= |tiles|
    ensures Offset(tiles, i) + (j - i) <= Offset(tiles, j)
    decreases j
  {
    if i < j {
      OffsetMonotone(tiles, i, j - 1);
    }
  }

  /** A complete greedy run is itself a tiling. */
  lemma {:induction false} GreedyIsTiling(g: Geometry, v: nat, p: nat, n: nat, tiles: seq<PageSize>)
    requires GreedyRun(g, v, p, n, tiles) && Total(tiles) == n
    ensures Tiling(g, v, p, n, tiles)
  {
    hide Fits;
    forall i: nat | i < |tiles| ensures TileFits(g, v, p, n, tiles, i) {
      assert TileIsBest(g, v, p, n, tiles, i);
      var at := Offset(tiles, i);
      BestFits(g, v + at, p + at, n - at, tiles[i]);
    }
  }

  /** Within the block of a greedy tile at `o`, a tile of any cut that starts there ends there. */
  lemma {:induction false} StaysInside(g: Geometry, v: nat, p: nat, n: nat, o: nat, s: PageSize, q: nat, t: PageSize)
    requires o <= q < o + s.Bytes() && o <= n && q <= n
    requires BestSize(g, v + o, p + o, n - o) == Some(s) && Fits(g, v + q, p + q, n - q, t)
    ensures q + t.Bytes() <= o + s.Bytes()
  {
    BestFits(g, v + o, p + o, n - o, s);
    var d := q - o;
    if t.Bytes() <= s.Bytes() {
      SizesDivide(t, s);
      NoCrossing(v + o, d, s.Bytes(), t.Bytes());
    } else {
      SizesDivide(s, t);
      LargerStartsThere(v + o, d, s.Bytes(), t.Bytes());
      BestSizeIs(g, v + o, p + o, n - o, t);
    }
  }

  /** Every cut that has a boundary at `o` also has one where the greedy tile at `o` ends. */
  lemma {:induction false} NextBoundary(
      g: Geometry, v: nat, p: nat, n: nat, cut: seq<PageSize>, j: nat, o: nat, s: PageSize) returns (k: nat)
    requires Tiling(g, v, p, n, cut) && j <= |cut|
    requires o <= Offset(cut, j) <= o + s.Bytes() <= n
    requires BestSize(g, v + o, p + o, n - o) == Some(s)
    ensures j <= k <= |cut| && Offset(cut, k) == o + s.Bytes()
    decreases |cut| - j
  {
    hide Fits;
    if Offset(cut, j) == o + s.Bytes() {
      k := j;
    } else {
      assert TileFits(g, v, p, n, cut, j);
      StaysInside(g, v, p, n, o, s, Offset(cut, j), cut[j]);
      k := NextBoundary(g, v, p, n, cut, j + 1, o, s);
    }
  }

  /** Every cut refines the greedy one: boundary `i` of the greedy cut is a boundary of any
      cut, not before its boundary `i`. */
  lemma {:induction false} CutsRefineGreedy(
      g: Geometry, v: nat, p: nat, n: nat, greedy: seq<PageSize>, cut: seq<PageSize>, i: nat) returns (j: nat)
    requires GreedyRun(g, v, p, n, greedy) && Total(greedy) <= n && Tiling(g, v, p, n, cut)
    requires i <= |greedy|
    ensures i <= j <= |cut| && Offset(cut, j) == Offset(greedy, i)
    decreases i
  {
    hide Fits;
    if i == 0 {
      j := 0;
    } else {
      var before := CutsRefineGreedy(g, v, p, n, greedy, cut, i - 1);
      assert TileIsBest(g, v, p, n, greedy, i - 1);
      OffsetMonotone(greedy, i, |greedy|);
      j := NextBoundary(g, v, p, n, cut, before, Offset(greedy, i - 1), greedy[i - 1]);
      assert greedy[i - 1].Bytes() > 0;
    }
  }

  /** Some tile of `cut` starts, or the last one ends, at `o`. */
  ghost predicate Boundary(cut: seq<PageSize>, o: nat) {
    exists j: nat :: j <= |cut| && Offset(cut, j) == o
  }

  /** The greedy cut has the fewest leaves, and all other cuts refine it. */
  lemma {:induction false} GreedyIsOptimal(
      g: Geometry, v: nat, p: nat, n: nat, greedy: seq<PageSize>, cut: seq<PageSize>)
    requires GreedyRun(g, v, p, n, greedy) && Total(greedy) == n && Tiling(g, v, p, n, cut)
    ensures |greedy| <= |cut|
    ensures forall i: nat | i <= |greedy| :: Boundary(cut, Offset(greedy, i))
  {
    hide Tiling;
    hide GreedyRun;
    var last := CutsRefineGreedy(g, v, p, n, greedy, cut, |greedy|);
    forall i: nat | i <= |greedy| ensures Boundary(cut, Offset(greedy, i)) {
      var j := CutsRefineGreedy(g, v, p, n, greedy, cut, i);
    }
  }

  /** Some leaf fits whenever addresses and length are whole base pages. */
  lemma {:induction false} BasePageFits(g: Geometry, v: nat, p: nat, n: nat)
    requires g.Lawful() && n > 0
    requires v % g.Span(1) == 0 && p % g.Span(1) == 0 && n % g.Span(1) == 0
    ensures Fits(g, v, p, n, g.BasePageSize()) && BestSize(g, v, p, n).Some?
  {
    var base := g.BasePageSize();
    g.SizeIsSpan(1, base);
    LevelOfSizeIs(g, base, 1);
    AtLeastOne(n, g.Span(1));
    BestSizeIs(g, v, p, n, base);
  }

  lemma {:induction false} AtLeastOne(n: nat, d: nat)
    requires d > 0 && n > 0 && n % d == 0
    ensures n >= d
  {
    if n < d {
      DivModUnique(n, d, 0, n);
    }
  }

  /** A size that fits is a whole number of base pages. */
  lemma {:induction false} FitsIsPages(g: Geometry, v: nat, p: nat, n: nat, s: PageSize)
    requires g.Lawful() && Fits(g, v, p, n, s)
    ensures s.Bytes() % g.Span(1) == 0 && v % g.Span(1) == 0 && p % g.Span(1) == 0
  {
    var l := g.LevelOfSize(s).value;
    LevelOfSizeIs(g, s, l);
    g.SizeIsSpan(l, s);
    ShiftMonotone(g, 1, l);
    Pow2Divides(g.Shift(1), g.Shift(l));
    MultipleOfMultiple(v, s.Bytes(), g.Span(1));
    MultipleOfMultiple(p, s.Bytes(), g.Span(1));
  }

  /** The whole greedy cut, if the request can be cut at all. */
  ghost function GreedyCut(g: Geometry, v: nat, p: nat, n: nat): Option<seq<PageSize>>
    decreases n
  {
    if n == 0 then Some([])
    else
      match BestSize(g, v, p, n)
      case None => None
      case Some(s) =>
        if s.Bytes() > n then None
        else
          match GreedyCut(g, v + s.Bytes(), p + s.Bytes(), n - s.Bytes())
          case None => None
          case Some(rest) => Some([s] + rest)
  }

  lemma {:induction false} SumMod(x: nat, y: nat, d: nat)
    requires d > 0 && y % d == 0
    ensures (x + y) % d == x % d
  {
    DigitsOf(y, d);
    AddMultipleMod(x, y / d, d);
  }

  /** A non-empty request can be cut exactly when it consists of whole base pages. */
  lemma {:induction false} CutExistsIff(g: Geometry, v: nat, p: nat, n: nat)
    requires g.Lawful()
    ensures GreedyCut(g, v, p, n).Some? <==>
            n == 0 || (v % g.Span(1) == 0 && p % g.Span(1) == 0 && n % g.Span(1) == 0)
    decreases n
  {
    hide Fits;
    var page := g.Span(1);
    if n > 0 {
      match BestSize(g, v, p, n) {
        case None =>
          if v % page == 0 && p % page == 0 && n % page == 0 {
            BasePageFits(g, v, p, n);
          }
        case Some(s) =>
          BestFits(g, v, p, n, s);
          FitsIsPages(g, v, p, n, s);
          CutExistsIff(g, v + s.Bytes(), p + s.Bytes(), n - s.Bytes());
          SumMod(v, s.Bytes(), page);
          SumMod(p, s.Bytes(), page);
          SumMod(n - s.Bytes(), s.Bytes(), page);
          if n == s.Bytes() {
            assert n % page == 0;
          }
      }
    }
  }

  lemma {:induction false} OffsetCons(s: PageSize, rest: seq<PageSize>, i: nat)
    requires i <= |rest|
    ensures Offset([s] + rest, i + 1) == s.Bytes() + Offset(rest, i)
    decreases i
  {
    if i > 0 {
      OffsetCons(s, rest, i - 1);
    }
  }

  /** The greedy cut is a complete greedy run. */
  lemma {:induction false} GreedyCutIsRun(g: Geometry, v: nat, p: nat, n: nat)
    requires GreedyCut(g, v, p, n).Some?
    ensures GreedyRun(g, v, p, n, GreedyCut(g, v, p, n).value) && Total(GreedyCut(g, v, p, n).value) == n
    decreases n
  {
    hide Fits;
    if n > 0 {
      var s := BestSize(g, v, p, n).value;
      var v1, p1, n1 := v + s.Bytes(), p + s.Bytes(), n - s.Bytes();
      GreedyCutIsRun(g, v1, p1, n1);
      var rest := GreedyCut(g, v1, p1, n1).value;
      RunCons(g, v, p, n, s, rest);
    }
  }

  lemma {:induction false} RunCons(g: Geometry, v: nat, p: nat, n: nat, s: PageSize, rest: seq<PageSize>)
    requires BestSize(g, v, p, n) == Some(s) && s.Bytes() <= n
    requires GreedyRun(g, v + s.Bytes(), p + s.Bytes(), n - s.Bytes(), rest) && Total(rest) == n - s.Bytes()
    ensures GreedyRun(g, v, p, n, [s] + rest) && Total([s] + rest) == n
  {
    hide BestSize;
    var v1, p1, n1 := v + s.Bytes(), p + s.Bytes(), n - s.Bytes();
    var all := [s] + rest;
    OffsetCons(s, rest, |rest|);
    forall i: nat | i < |all| ensures TileIsBest(g, v, p, n, all, i) {
      if i > 0 {
        OffsetCons(s, rest, i - 1);
        assert TileIsBest(g, v1, p1, n1, rest, i - 1);
      }
    }
  }

  /** A complete greedy run is the greedy cut: the choice at every step is determined. */
  lemma {:induction false} RunIsGreedyCut(g: Geometry, v: nat, p: nat, n: nat, tiles: seq<PageSize>)
    requires GreedyRun(g, v, p, n, tiles) && Total(tiles) == n
    ensures GreedyCut(g, v, p, n) == Some(tiles)
    decreases |tiles|
  {
    hide Fits;
    if tiles == [] {
    } else {
      var s, rest := tiles[0], tiles[1..];
      assert tiles == [s] + rest;
      assert TileIsBest(g, v, p, n, tiles, 0);
      BestFits(g, v, p, n, s);
      OffsetCons(s, rest, |rest|);
      var v1, p1, n1 := v + s.Bytes(), p + s.Bytes(), n - s.Bytes();
      forall i: nat | i < |rest| ensures TileIsBest(g, v1, p1, n1, rest, i) {
        OffsetCons(s, rest, i);
        assert TileIsBest(g, v, p, n, tiles, i + 1);
      }
      RunIsGreedyCut(g, v + s.Bytes(), p + s.Bytes(), n - s.Bytes(), rest);
    }
  }

  /** The bytes of the first tiles of any cut are whole base pages. */
  lemma {:induction false} CutIsPages(g: Geometry, v: nat, p: nat, n: nat, cut: seq<PageSize>, i: nat)
    requires g.Lawful() && Tiling(g, v, p, n, cut) && i <= |cut|
    ensures Offset(cut, i) % g.Span(1) == 0
    decreases i
  {
    hide Fits;
    if i == 0 {
      DivModUnique(0, g.Span(1), 0, 0);
    } else {
      CutIsPages(g, v, p, n, cut, i - 1);
      assert TileFits(g, v, p, n, cut, i - 1);
      var at := Offset(cut, i - 1);
      FitsIsPages(g, v + at, p + at, n - at, cut[i - 1]);
      SumMod(at, cut[i - 1].Bytes(), g.Span(1));
    }
  }

  /** Whenever a request can be cut into legal leaves at all, the greedy cut exists, has the
      fewest leaves, and is refined by every other cut. */
  lemma {:induction false} FewestLeaves(g: Geometry, v: nat, p: nat, n: nat, cut: seq<PageSize>)
    requires g.Lawful() && Tiling(g, v, p, n, cut)
    ensures GreedyCut(g, v, p, n).Some?
    ensures var greedy := GreedyCut(g, v, p, n).value;
            && Tiling(g, v, p, n, greedy) && |greedy| <= |cut|
            && forall i: nat | i <= |greedy| :: Boundary(cut, Offset(greedy, i))
  {
    hide Fits;
    if n > 0 {
      assert Offset(cut, 0) == 0 && TileFits(g, v, p, n, cut, 0);
      FitsIsPages(g, v, p, n, cut[0]);
      CutIsPages(g, v, p, n, cut, |cut|);
    }
    CutExistsIff(g, v, p, n);
    GreedyCutIsRun(g, v, p, n);
    GreedyIsTiling(g, v, p, n, GreedyCut(g, v, p, n).value);
    GreedyIsOptimal(g, v, p, n, GreedyCut(g, v, p, n).value, cut);
  }
}
