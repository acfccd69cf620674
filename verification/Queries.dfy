/** Which leaf covers an address, and what a query says about it. */
module Queries {
  import opened Basics
  import opened Power
  import opened Geometries
  import opened Blocks
  import opened Memory
  import opened Trie
  import opened Translation

  /** A resolved leaf: the exact range it covers, its physical base and its flags. */
  datatype Mapping<+F> = Mapping(range: AddrRange, paddr: nat, flags: F)

  /** The level of the leaf on the walk of `v` below a table at `level`; 0 if there is none. */
  ghost function LeafLevel<F>(g: Geometry, view: View<F>, v: nat, level: nat): (l: nat)
    ensures l <= level
    ensures l > 0 ==> IsLeaf(view, g.PathOf(v, l - 1))
  {
    if level == 0 then 0
    else match At(view, g.PathOf(v, level - 1))
      case Table(_) => LeafLevel(g, view, v, level - 1)
      case Leaf(_, _) => level
      case _ => 0
  }

  /** The block of `v` at `level`. */
  function BlockOf(g: Geometry, v: nat, level: nat): AddrRange {
    var start := AlignDown(v, g.Span(level));
    AddrRange(start, start + g.Span(level))
  }

  /** What a query returns. */
  ghost function QueryResult<F>(g: Geometry, view: View<F>, v: nat): Result<Mapping<F>> {
    if !g.VaddrIsValid(v) then Err(AddressOutOfRange)
    else
      var l := LeafLevel(g, view, v, g.levels);
      if l == 0 then Err(NotMapped)
      else var leaf := view[g.PathOf(v, l - 1)]; Ok(Mapping(BlockOf(g, v, l), leaf.paddr, leaf.flags))
  }

  /** The level of the leaf that covers exactly `range`. */
  ghost function ExactLevel<F>(g: Geometry, view: View<F>, range: AddrRange): (r: Result<nat>)
    ensures r.Ok? ==> 0 < r.value <= g.levels && IsLeaf(view, g.PathOf(range.start, r.value - 1))
  {
    if !g.VaddrIsValid(range.start) then Err(AddressOutOfRange)
    else
      var l := LeafLevel(g, view, range.start, g.levels);
      if l == 0 || BlockOf(g, range.start, l) != range then Err(NotMapped) else Ok(l)
  }

  /** A leaf on the walk is the one found. */
  lemma {:induction false} LeafLevelIs<W, F>(c: Config<W, F>, view: View<F>, root: nat, v: nat, l: nat, k: nat)
    requires TreeOk(c, view, root) && 1 <= l <= k <= c.geo.levels && IsLeaf(view, c.geo.PathOf(v, l - 1))
    ensures LeafLevel(c.geo, view, v, k) == l
    decreases k
  {
    hide TreeOk;
    if k > l {
      WalkedAbove(c, view, root, v, l - 1, k - 1);
      LeafLevelIs(c, view, root, v, l, k - 1);
    }
  }

  /** The leaf found is the one the translation uses. */
  lemma {:induction false} LookupByLevel<F>(g: Geometry, view: View<F>, v: nat, k: nat)
    ensures var l := LeafLevel(g, view, v, k);
            Lookup(g, view, v, k) ==
              if l == 0 then None
              else Some(Hit(view[g.PathOf(v, l - 1)].paddr + v % g.Span(l), view[g.PathOf(v, l - 1)].flags))
    decreases k
  {
    if k > 0 {
      LookupByLevel(g, view, v, k - 1);
    }
  }

  /** The block of a leaf has a representable end. */
  lemma {:induction false} LeafBlock<W, F>(c: Config<W, F>, view: View<F>, root: nat, v: nat, l: nat)
    requires c.geo.Lawful() && TreeOk(c, view, root) && c.geo.VaddrIsValid(v)
    requires 1 <= l <= c.geo.levels && IsLeaf(view, c.geo.PathOf(v, l - 1))
    ensures IsBlock(c.geo, BlockOf(c.geo, v, l), l) && BlockOf(c.geo, v, l).Contains(v)
    ensures c.geo.LeafRange(v, l) == Some(BlockOf(c.geo, v, l))
    ensures c.geo.PathOf(BlockOf(c.geo, v, l).start, l - 1) == c.geo.PathOf(v, l - 1)
    ensures l <= c.geo.leafLevels && c.geo.LeafSizeAtLevel(l).Some?
  {
    hide Canonical;
    var p := c.geo.PathOf(v, l - 1);
    assert SlotOk(c, p, view[p]);
    SizeOfLeafLevel(c, l);
    LocatedBlock(c.geo, v, l);
  }

  lemma {:induction false} SizeOfLeafLevel<W, F>(c: Config<W, F>, l: nat)
    requires c.geo.Lawful() && 1 <= l <= c.geo.leafLevels
    ensures c.geo.LeafSizeAtLevel(l).Some? && c.geo.LeafSizeAtLevel(l).value.Bytes() == c.geo.Span(l)
  {
    c.geo.SizeIsSpan(l, c.geo.LeafSizeAtLevel(l).value);
  }

  lemma {:induction false} LocatedBlock(g: Geometry, v: nat, l: nat)
    requires g.Lawful() && g.VaddrIsValid(v) && 1 <= l <= g.levels && Located(g, g.PathOf(v, l - 1))
    ensures IsBlock(g, BlockOf(g, v, l), l) && BlockOf(g, v, l).Contains(v)
    ensures g.LeafRange(v, l) == Some(BlockOf(g, v, l))
    ensures g.PathOf(BlockOf(g, v, l).start, l - 1) == g.PathOf(v, l - 1)
  {
    hide StartsBlock;
    var p := g.PathOf(v, l - 1);
    assert TableLevel(g, p) == l - 1;
    var a: nat :| StartsBlock(g, a, p);
    BlockFromStart(g, v, l, a);
  }

  lemma {:induction false} BlockFromStart(g: Geometry, v: nat, l: nat, a: nat)
    requires g.Lawful() && g.VaddrIsValid(v) && 1 <= l <= g.levels && StartsBlock(g, a, g.PathOf(v, l - 1))
    ensures IsBlock(g, BlockOf(g, v, l), l) && BlockOf(g, v, l).Contains(v)
    ensures g.LeafRange(v, l) == Some(BlockOf(g, v, l))
    ensures g.PathOf(BlockOf(g, v, l).start, l - 1) == g.PathOf(v, l - 1)
  {
    hide Canonical;
    assert a / g.Span(l) == v / g.Span(l) by { SamePathSameBlock(g, a, v, l); }
    AlignedStart(a, v, g.Span(l));
  }

  lemma {:induction false} AlignedStart(a: nat, v: nat, s: nat)
    requires s > 0 && a % s == 0 && a / s == v / s
    ensures AlignDown(v, s) == a
  {
    DigitsOf(a, s);
  }

  /** A query tells the translation of the whole block it returns, and fails exactly for
      invalid and for untranslated addresses. */
  lemma {:induction false} QueryMeaning<W(!new), F(!new)>(
      c: Config<W, F>, m: map<nat, seq<W>>, view: View<F>, root: nat, v: nat)
    requires c.geo.Lawful() && Represents(c, m, view, root)
    ensures match QueryResult(c.geo, view, v)
            case Ok(q) => c.geo.VaddrIsValid(v) && q.range.Contains(v)
                          && MapsTo(c, root, m, q.range, q.paddr, q.flags)
            case Err(e) => if c.geo.VaddrIsValid(v) then e == NotMapped && Xlate(c, m, root, v) == None
                           else e == AddressOutOfRange
  {
    hide TreeOk;
    hide Matches;
    hide Canonical;
    var l := LeafLevel(c.geo, view, v, c.geo.levels);
    XlateIsLookup(c, m, view, root, v);
    LookupByLevel(c.geo, view, v, c.geo.levels);
    if c.geo.VaddrIsValid(v) && l > 0 {
      LeafBlock(c, view, root, v, l);
      LeafMapsBlock(c, root, m, view, BlockOf(c.geo, v, l), l);
    }
  }

  /** Every address of the returned range is valid and queries to the same mapping. */
  lemma {:induction false} QueryConstant<W(!new), F(!new)>(c: Config<W, F>, view: View<F>, root: nat, v: nat, w: nat)
    requires c.geo.Lawful() && TreeOk(c, view, root)
    requires QueryResult(c.geo, view, v).Ok? && QueryResult(c.geo, view, v).value.range.Contains(w)
    ensures QueryResult(c.geo, view, w) == QueryResult(c.geo, view, v)
  {
    hide TreeOk;
    hide Canonical;
    hide IsBlock;
    hide Geometry.IndexAt;
    hide Geometry.PathOf;
    hide Geometry.Lawful;
    hide Geometry.Span;
    var l := LeafLevel(c.geo, view, v, c.geo.levels);
    LeafBlock(c, view, root, v, l);
    var range := BlockOf(c.geo, v, l);
    BlockSlot(c.geo, range, l, w);
    LeafLevelIs(c, view, root, w, l, c.geo.levels);
    LeafRangeOfBlock(c.geo, range, l, w);
  }

  /** Two returned ranges are the same mapping or do not meet. */
  lemma {:induction false} QueryRangesDisjoint<W(!new), F(!new)>(
      c: Config<W, F>, view: View<F>, root: nat, v: nat, w: nat, x: nat)
    requires c.geo.Lawful() && TreeOk(c, view, root)
    requires QueryResult(c.geo, view, v).Ok? && QueryResult(c.geo, view, w).Ok?
    requires QueryResult(c.geo, view, v) != QueryResult(c.geo, view, w)
    ensures !(QueryResult(c.geo, view, v).value.range.Contains(x)
              && QueryResult(c.geo, view, w).value.range.Contains(x))
  {
    if QueryResult(c.geo, view, v).value.range.Contains(x) && QueryResult(c.geo, view, w).value.range.Contains(x) {
      QueryConstant(c, view, root, v, x);
      QueryConstant(c, view, root, w, x);
    }
  }

  /** The exact-leaf search finds a level exactly when `range` is the block of a leaf there. */
  lemma {:induction false} ExactLevelIff<W(!new), F(!new)>(
      c: Config<W, F>, view: View<F>, root: nat, range: AddrRange, l: nat)
    requires c.geo.Lawful() && TreeOk(c, view, root)
    ensures ExactLevel(c.geo, view, range) == Ok(l) <==>
            IsBlock(c.geo, range, l) && IsLeaf(view, c.geo.PathOf(range.start, l - 1))
    ensures ExactLevel(c.geo, view, range) == Ok(l) ==>
              l <= c.geo.leafLevels && IsTable(view, c.geo.PathOf(range.start, l))
  {
    hide TreeOk;
    hide Canonical;
    if ExactLevel(c.geo, view, range) == Ok(l) {
      LeafBlock(c, view, root, range.start, l);
    }
    if IsBlock(c.geo, range, l) && IsLeaf(view, c.geo.PathOf(range.start, l - 1)) {
      LeafLevelIs(c, view, root, range.start, l, c.geo.levels);
      LeafBlock(c, view, root, range.start, l);
      LeafRangeOfBlock(c.geo, range, l, range.start);
      WalkedAbove(c, view, root, range.start, l - 1, l);
    }
  }
}
