/** How changes of the tree's leaves show in the translation. */
module Translation {
  import opened Basics
  import opened Power
  import opened Geometries
  import opened Blocks
  import opened Memory
  import opened Trie

  /** The same translation for every valid address. */
  ghost predicate Agree<W, F>(c: Config<W, F>, root: nat, a: map<nat, seq<W>>, b: map<nat, seq<W>>) {
    forall v: nat :: c.geo.VaddrIsValid(v) ==> Xlate(c, a, root, v) == Xlate(c, b, root, v)
  }

  /** The same translation for every valid address outside `range`. */
  ghost predicate AgreeOutside<W, F>(
      c: Config<W, F>, root: nat, a: map<nat, seq<W>>, b: map<nat, seq<W>>, range: AddrRange) {
    forall v: nat :: c.geo.VaddrIsValid(v) && !range.Contains(v) ==> Xlate(c, a, root, v) == Xlate(c, b, root, v)
  }

  /** Every valid address of `range` translates linearly from `paddr`, with `flags`. */
  ghost predicate MapsTo<W, F>(
      c: Config<W, F>, root: nat, m: map<nat, seq<W>>, range: AddrRange, paddr: nat, flags: F) {
    forall v: nat :: range.Contains(v) ==>
      c.geo.VaddrIsValid(v) && Xlate(c, m, root, v) == Some(Hit(paddr + (v - range.start), flags))
  }

  /** No address of `range` translates. */
  ghost predicate MapsNothing<W, F>(c: Config<W, F>, root: nat, m: map<nat, seq<W>>, range: AddrRange) {
    forall v: nat :: range.Contains(v) ==> c.geo.VaddrIsValid(v) && Xlate(c, m, root, v) == None
  }

  /** `range` is the block of one slot at `level`. */
  predicate IsBlock(g: Geometry, range: AddrRange, level: nat) {
    && 1 <= level <= g.levels
    && g.VaddrIsValid(range.start)
    && range.start % g.Span(level) == 0
    && range.end == range.start + g.Span(level) < ADDRESS_LIMIT
  }

  /** The addresses of a block are those with its block number. */
  lemma {:induction false} InBlock(start: nat, s: nat, w: nat)
    requires s > 0 && start % s == 0
    ensures start <= w < start + s <==> w / s == start / s
    ensures start <= w < start + s ==> w % s == w - start
  {
    DigitsOf(start, s);
    DigitsOf(w, s);
    if start <= w < start + s {
      DivModUnique(w, s, start / s, w - start);
    }
  }

  /** The boundary of each valid half is a multiple of every block size. */
  lemma {:induction false} HalfIsMultiple(g: Geometry, level: nat, bits: nat) returns (n: nat)
    requires g.Lawful() && 1 <= level <= g.levels && g.VaBits() - 1 <= bits
    ensures Pow2(bits) == n * g.Span(level)
  {
    ShiftMonotone(g, level, g.levels);
    Pow2Add(bits - g.Shift(level), g.Shift(level));
    n := Pow2(bits - g.Shift(level));
  }

  /** A block lies within one half of the address space. */
  lemma {:induction false} BlockIsValid(g: Geometry, range: AddrRange, level: nat, w: nat)
    requires g.Lawful() && IsBlock(g, range, level) && range.Contains(w)
    ensures g.VaddrIsValid(w)
  {
    hide Canonical;
    var s := g.Span(level);
    var bits := if g.signExtended then g.VaBits() - 1 else g.VaBits();
    var n := HalfIsMultiple(g, level, bits);
    if range.start < Pow2(bits) {
      BelowMultiple(range.start, s, n);
    }
    if g.signExtended {
      CanonicalHalves(range.start, g.VaBits());
      CanonicalHalves(w, g.VaBits());
    }
  }

  /** A multiple of `s` below another multiple is at least `s` below it. */
  lemma {:induction false} BelowMultiple(x: nat, s: nat, n: nat)
    requires s > 0 && x % s == 0 && x < n * s
    ensures x + s <= n * s
  {
    DigitsOf(x, s);
    QuotientBound(x, s, n);
    MulMonotone(x / s + 1, n, s);
    assert (x / s + 1) * s == (x / s) * s + s;
  }

  /** An address of a block selects the block's slot; no other valid address does. */
  lemma {:induction false} BlockSlot(g: Geometry, range: AddrRange, level: nat, w: nat)
    requires g.Lawful() && IsBlock(g, range, level)
    ensures range.Contains(w) ==> g.VaddrIsValid(w) && w % g.Span(level) == w - range.start
    ensures g.VaddrIsValid(w) ==>
              (g.PathOf(w, level - 1) == g.PathOf(range.start, level - 1) <==> range.Contains(w))
  {
    hide Canonical;
    InBlock(range.start, g.Span(level), w);
    if range.Contains(w) {
      BlockIsValid(g, range, level, w);
    }
    if g.VaddrIsValid(w) {
      SamePathSameBlock(g, w, range.start, level);
    }
  }

  lemma {:induction false} LeafRangeOfBlock(g: Geometry, range: AddrRange, level: nat, w: nat)
    requires g.Lawful() && IsBlock(g, range, level) && range.Contains(w)
    ensures g.LeafRange(w, level) == Some(range)
  {
    InBlock(range.start, g.Span(level), w);
  }

  /** Trees with the same leaves translate alike. */
  lemma {:induction false} SameLeavesAgree<W, F>(
      c: Config<W, F>, root: nat, a: map<nat, seq<W>>, aView: View<F>, b: map<nat, seq<W>>, bView: View<F>)
    requires c.geo.Lawful() && Represents(c, a, aView, root) && Represents(c, b, bView, root)
    requires forall p :: LeafAt(aView, p) == LeafAt(bView, p)
    ensures Agree(c, root, a, b)
  {
    hide TreeOk;
    hide Matches;
    forall v: nat | c.geo.VaddrIsValid(v) ensures Xlate(c, a, root, v) == Xlate(c, b, root, v) {
      XlateIsLookup(c, a, aView, root, v);
      XlateIsLookup(c, b, bView, root, v);
      LookupByLeaves(c, aView, root, bView, root, v);
    }
  }

  /** Trees that differ in one leaf translate alike outside its block. */
  lemma {:induction false} OneLeafAgrees<W, F>(
      c: Config<W, F>, root: nat, a: map<nat, seq<W>>, aView: View<F>, b: map<nat, seq<W>>, bView: View<F>,
      range: AddrRange, level: nat)
    requires c.geo.Lawful() && Represents(c, a, aView, root) && Represents(c, b, bView, root)
    requires IsBlock(c.geo, range, level)
    requires forall p :: p != c.geo.PathOf(range.start, level - 1) ==> LeafAt(aView, p) == LeafAt(bView, p)
    ensures AgreeOutside(c, root, a, b, range)
  {
    hide TreeOk;
    hide Matches;
    hide Canonical;
    forall v: nat | c.geo.VaddrIsValid(v) && !range.Contains(v)
      ensures Xlate(c, a, root, v) == Xlate(c, b, root, v)
    {
      XlateIsLookup(c, a, aView, root, v);
      XlateIsLookup(c, b, bView, root, v);
      forall l | 0 <= l < c.geo.levels
        ensures LeafAt(aView, c.geo.PathOf(v, l)) == LeafAt(bView, c.geo.PathOf(v, l))
      {
        OtherBlockOtherSlot(c.geo, range, level, v, l);
      }
      LookupByLeaves(c, aView, root, bView, root, v);
    }
  }

  lemma {:induction false} OtherBlockOtherSlot(g: Geometry, range: AddrRange, level: nat, v: nat, l: nat)
    requires g.Lawful() && IsBlock(g, range, level) && g.VaddrIsValid(v) && !range.Contains(v) && l < g.levels
    ensures g.PathOf(v, l) != g.PathOf(range.start, level - 1)
  {
    BlockSlot(g, range, level, v);
    assert LevelOf(g.PathOf(v, l)) == g.levels - l;
    assert LevelOf(g.PathOf(range.start, level - 1)) == g.levels - (level - 1);
  }

  /** A leaf translates its block linearly. */
  lemma {:induction false} LeafMapsBlock<W, F>(
      c: Config<W, F>, root: nat, m: map<nat, seq<W>>, view: View<F>, range: AddrRange, level: nat)
    requires c.geo.Lawful() && Represents(c, m, view, root) && IsBlock(c.geo, range, level)
    requires IsLeaf(view, c.geo.PathOf(range.start, level - 1))
    ensures var leaf := view[c.geo.PathOf(range.start, level - 1)];
            MapsTo(c, root, m, range, leaf.paddr, leaf.flags)
  {
    hide TreeOk;
    hide Matches;
    hide Canonical;
    var leaf := view[c.geo.PathOf(range.start, level - 1)];
    forall v: nat | range.Contains(v)
      ensures c.geo.VaddrIsValid(v) && Xlate(c, m, root, v) == Some(Hit(leaf.paddr + (v - range.start), leaf.flags))
    {
      BlockSlot(c.geo, range, level, v);
      XlateIsLookup(c, m, view, root, v);
      LookupAtLeaf(c, view, root, v, level, c.geo.levels);
    }
  }

  /** An empty slot under no leaf leaves its block untranslated. */
  lemma {:induction false} EmptyMapsNothing<W, F>(
      c: Config<W, F>, root: nat, m: map<nat, seq<W>>, view: View<F>, range: AddrRange, level: nat)
    requires c.geo.Lawful() && Represents(c, m, view, root) && IsBlock(c.geo, range, level)
    requires c.geo.PathOf(range.start, level - 1) !in view
    requires forall l | level <= l < c.geo.levels :: !IsLeaf(view, c.geo.PathOf(range.start, l))
    ensures MapsNothing(c, root, m, range)
  {
    hide TreeOk;
    hide Matches;
    hide Canonical;
    forall v: nat | range.Contains(v) ensures c.geo.VaddrIsValid(v) && Xlate(c, m, root, v) == None {
      BlockSlot(c.geo, range, level, v);
      XlateIsLookup(c, m, view, root, v);
      forall l | 0 <= l < c.geo.levels ensures !IsLeaf(view, c.geo.PathOf(v, l)) {
        if l < level {
          if c.geo.PathOf(v, l) in view {
            WalkedAbove(c, view, root, v, l, level - 1);
          }
        } else {
          SamePathAbove(c.geo, v, range.start, level - 1, l);
        }
      }
      LookupWithoutLeaf(c.geo, view, v, c.geo.levels);
    }
  }

  /** Equal walks down to a level are equal at every level above. */
  lemma {:induction false} SamePathAbove(g: Geometry, v: nat, w: nat, level: nat, k: nat)
    requires level <= k <= g.levels && g.PathOf(v, level) == g.PathOf(w, level)
    ensures g.PathOf(v, k) == g.PathOf(w, k)
    decreases k
  {
    if k > level {
      SamePathAbove(g, v, w, level, k - 1);
    }
  }
}
