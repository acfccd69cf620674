/** What mapping leaf after leaf costs in reads of table entries. */
module Costs {
  import opened Power
  import opened PageSizes
  import opened Geometries
  import opened Blocks
  import opened Tilings

  /** Tile `i` cannot start from the tables cached for the tile before it. */
  ghost predicate ColdTile(g: Geometry, v: nat, tiles: seq<PageSize>, i: nat)
    requires i < |tiles|
  {
    i == 0 || tiles[i - 1] != tiles[i] ||
    var level := g.LevelOfSize(tiles[i]);
    level.None? || g.PathOf(v + Offset(tiles, i - 1), level.value) != g.PathOf(v + Offset(tiles, i), level.value)
  }

  /** How many of the first `i` tiles are cold. */
  ghost function ColdTiles(g: Geometry, v: nat, tiles: seq<PageSize>, i: nat): (n: nat)
    requires i <= |tiles|
    ensures n <= i
    decreases i
  {
    if i == 0 then 0 else ColdTiles(g, v, tiles, i - 1) + (if ColdTile(g, v, tiles, i - 1) then 1 else 0)
  }

  /** Reads that mapping the tiles may cost. */
  ghost function ReadBound(g: Geometry, v: nat, tiles: seq<PageSize>): int {
    |tiles| + (g.levels - 1) * ColdTiles(g, v, tiles, |tiles|)
  }

  lemma {:induction false} ColdAppend(g: Geometry, v: nat, tiles: seq<PageSize>, t: PageSize, i: nat)
    requires i <= |tiles|
    ensures ColdTiles(g, v, tiles + [t], i) == ColdTiles(g, v, tiles, i)
    decreases i
  {
    hide Geometry.LevelOfSize;
    hide Geometry.PathOf;
    TotalAppend(tiles, t);
    if i > 0 {
      ColdAppend(g, v, tiles, t, i - 1);
      assert ColdTile(g, v, tiles + [t], i - 1) <==> ColdTile(g, v, tiles, i - 1);
    }
  }

  lemma {:induction false} TimesNext(k: int, n: int)
    ensures k * (n + 1) == k * n + k
  {
  }

  lemma {:induction false} BoundGrows(g: Geometry, v: nat, tiles: seq<PageSize>, t: PageSize)
    ensures ReadBound(g, v, tiles + [t]) ==
            ReadBound(g, v, tiles) + 1 + (if ColdTile(g, v, tiles + [t], |tiles|) then g.levels - 1 else 0)
  {
    hide ColdTile;
    var all, cold := tiles + [t], ColdTiles(g, v, tiles, |tiles|);
    ColdAppend(g, v, tiles, t, |tiles|);
    assert |all| == |tiles| + 1;
    assert ColdTiles(g, v, all, |all|) == cold + (if ColdTile(g, v, all, |tiles|) then 1 else 0);
    TimesNext(g.levels - 1, cold);
  }

  /** Tile after tile of one size: the number of the table they use never goes back. */
  lemma {:induction false} OffsetUniform(tiles: seq<PageSize>, t: PageSize, i: nat)
    requires i <= |tiles| && forall k | 0 <= k < |tiles| :: tiles[k] == t
    ensures Offset(tiles, i) == i * t.Bytes()
    decreases i
  {
    if i > 0 {
      OffsetUniform(tiles, t, i - 1);
      assert i * t.Bytes() == (i - 1) * t.Bytes() + t.Bytes();
    }
  }

  lemma {:induction false} DivMonotone(a: nat, b: nat, d: nat)
    requires d > 0 && a <= b
    ensures a / d <= b / d
  {
    DigitsOf(b, d);
    assert (b / d + 1) * d == (b / d) * d + d;
    QuotientBound(a, d, b / d + 1);
  }

  /** Mapping base pages one after the other, the walk is cold at most once for each
      finest table the run of pages uses. */
  lemma {:induction false} ColdPages(g: Geometry, v: nat, tiles: seq<PageSize>, i: nat)
    requires g.Lawful() && g.levels >= 2 && 1 <= i <= |tiles|
    requires forall k | 0 <= k < |tiles| :: tiles[k] == g.BasePageSize()
    requires forall k: nat | k < |tiles| :: g.VaddrIsValid(v + Offset(tiles, k))
    ensures ColdTiles(g, v, tiles, i) + v / g.Span(2) <= 1 + (v + Offset(tiles, i - 1)) / g.Span(2)
    decreases i
  {
    hide Canonical;
    hide Geometry.PathOf;
    hide Geometry.Span;
    hide Geometry.VaBits;
    hide Pow2;
    if i > 1 {
      ColdPages(g, v, tiles, i - 1);
      var a, b := v + Offset(tiles, i - 2), v + Offset(tiles, i - 1);
      assert g.VaddrIsValid(a) && g.VaddrIsValid(b);
      DivMonotone(a, b, g.Span(2));
      SamePathSameBlock(g, a, b, 2);
      g.SizeIsSpan(1, g.BasePageSize());
      LevelOfSizeIs(g, g.BasePageSize(), 1);
    }
  }

  /** Mapping base pages one after the other reads one entry per page, and the other levels
      once per finest table used. */
  lemma {:induction false} BasePagesCost(g: Geometry, v: nat, tiles: seq<PageSize>)
    requires g.Lawful() && g.levels >= 2 && tiles != []
    requires forall k | 0 <= k < |tiles| :: tiles[k] == g.BasePageSize()
    requires forall k: nat | k < |tiles| :: g.VaddrIsValid(v + Offset(tiles, k))
    ensures var used := (v + Offset(tiles, |tiles| - 1)) / g.Span(2) - v / g.Span(2) + 1;
            ReadBound(g, v, tiles) <= |tiles| + (g.levels - 1) * used
  {
    hide Canonical;
    hide ColdTile;
    ColdPages(g, v, tiles, |tiles|);
    var cold := ColdTiles(g, v, tiles, |tiles|);
    var used := (v + Offset(tiles, |tiles| - 1)) / g.Span(2) - v / g.Span(2) + 1;
    TimesMonotone(g.levels - 1, cold, used);
  }

  lemma {:induction false} TimesMonotone(k: nat, a: nat, b: int)
    requires a <= b
    ensures k * a <= k * b
  {
    MulMonotone(a, b, k);
  }

  /** The same for pages that end by `end`. */
  lemma {:induction false} PagesBound(g: Geometry, v: nat, end: nat, tiles: seq<PageSize>)
    requires g.Lawful() && g.levels >= 2 && tiles != []
    requires forall k | 0 <= k < |tiles| :: tiles[k] == g.BasePageSize()
    requires forall k: nat | k < |tiles| :: g.VaddrIsValid(v + Offset(tiles, k))
    requires v + Offset(tiles, |tiles| - 1) < end
    ensures ReadBound(g, v, tiles) <= |tiles| + (g.levels - 1) * ((end - 1) / g.Span(2) - v / g.Span(2) + 1)
    ensures |tiles| * g.BasePageSize().Bytes() == Total(tiles)
  {
    hide Canonical;
    hide ReadBound;
    hide PageSize.Bytes;
    OffsetUniform(tiles, g.BasePageSize(), |tiles|);
    BasePagesCost(g, v, tiles);
    var last := v + Offset(tiles, |tiles| - 1);
    DivMonotone(v, last, g.Span(2));
    DivMonotone(last, end - 1, g.Span(2));
    TimesMonotone(g.levels - 1, last / g.Span(2) - v / g.Span(2) + 1, (end - 1) / g.Span(2) - v / g.Span(2) + 1);
  }
}
