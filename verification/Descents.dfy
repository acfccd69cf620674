/** The tables a cursor remembers from its last walk, and walks that start from them. */
module Descents {
  import opened Basics
  import opened PageSizes
  import opened Geometries
  import opened Entries
  import opened Memory
  import opened Trie
  import opened Translation
  import opened Tlb
  import opened Histories
  import opened MapWalks

  /** Every cached frame is the table that the walk of `last` reaches, and no cached level
      lies below an uncached one. */
  ghost predicate CacheOk<F>(g: Geometry, view: View<F>, descent: seq<Option<nat>>, last: Option<nat>) {
    && |descent| == MAX_LEVELS
    && (last.Some? ==>
          forall l: nat | 1 <= l < g.levels && l <= MAX_LEVELS :: SlotCached(g, view, descent, last.value, l))
  }

  ghost predicate SlotCached<F>(g: Geometry, view: View<F>, descent: seq<Option<nat>>, v: nat, l: nat)
    requires |descent| == MAX_LEVELS && 1 <= l <= MAX_LEVELS
  {
    descent[l - 1].Some? ==>
      && IsTable(view, g.PathOf(v, l)) && view[g.PathOf(v, l)].frame == descent[l - 1].value
      && (l + 1 < g.levels && l < MAX_LEVELS ==> descent[l].Some?)
  }

  /** The level of the highest index in which two addresses differ; 1 if there is none. */
  ghost function FirstDifference(g: Geometry, a: nat, b: nat, level: nat): (l: nat)
    ensures 1 <= l && (l <= level || l == 1)
    decreases level
  {
    if level <= 1 then 1
    else if g.IndexAt(level, a) != g.IndexAt(level, b) then level
    else FirstDifference(g, a, b, level - 1)
  }

  /** Above the first difference the two walks coincide. */
  lemma {:induction false} SameWalkAbove(g: Geometry, a: nat, b: nat, level: nat, k: nat)
    requires 1 <= level <= g.levels && g.PathOf(a, level) == g.PathOf(b, level)
    requires FirstDifference(g, a, b, level) <= k <= g.levels
    ensures g.PathOf(a, k) == g.PathOf(b, k)
    decreases level
  {
    if k >= level {
      SamePathAbove(g, a, b, level, k);
    } else {
      assert g.IndexAt(level, a) == g.IndexAt(level, b);
      SameWalkAbove(g, a, b, level - 1, k);
    }
  }

  /** The first difference is not above a level down to which the walks coincide. */
  lemma {:induction false} DifferenceBelow(g: Geometry, a: nat, b: nat, level: nat, k: nat)
    requires 1 <= k <= level <= g.levels && g.PathOf(a, k) == g.PathOf(b, k)
    ensures FirstDifference(g, a, b, level) <= k
    decreases level
  {
    if level > k {
      SamePathAbove(g, a, b, k, level - 1);
      assert g.PathOf(a, level - 1) == Step(g.PathOf(a, level), g.IndexAt(level, a));
      assert g.PathOf(b, level - 1) == Step(g.PathOf(b, level), g.IndexAt(level, b));
      DifferenceBelow(g, a, b, level - 1, k);
    }
  }

  /** After forgetting what lies below the first difference, the cache serves `v`. */
  lemma {:induction false} CacheForNext<F>(
      g: Geometry, view: View<F>, before: seq<Option<nat>>, after: seq<Option<nat>>, last: Option<nat>, v: nat, r: nat)
    requires g.Lawful() && CacheOk(g, view, before, last) && |after| == MAX_LEVELS
    requires r == match last case None => g.levels case Some(a) => FirstDifference(g, a, v, g.levels)
    requires forall k: nat | k < MAX_LEVELS ::
               after[k] == if k + 1 < r && k + 1 < MAX_LEVELS then None else before[k]
    ensures CacheOk(g, view, after, Some(v))
  {
    forall l: nat | 1 <= l < g.levels && l <= MAX_LEVELS ensures SlotCached(g, view, after, v, l) {
      if last.Some? && l >= r {
        assert SlotCached(g, view, before, last.value, l);
        SameWalkAbove(g, last.value, v, g.levels, l);
      }
    }
  }

  /** Tables stay cached while the tree only grows. */
  lemma {:induction false} CacheAfterGrowth<F>(
      g: Geometry, view: View<F>, after: View<F>, descent: seq<Option<nat>>, last: Option<nat>)
    requires CacheOk(g, view, descent, last)
    requires forall q | IsTable(view, q) :: q in after && after[q] == view[q]
    ensures CacheOk(g, after, descent, last)
  {
    if last.Some? {
      forall l: nat | 1 <= l < g.levels && l <= MAX_LEVELS ensures SlotCached(g, after, descent, last.value, l) {
        assert SlotCached(g, view, descent, last.value, l);
      }
    }
  }

  /** Without a last walk nothing is promised of the cache. */
  lemma {:induction false} NothingCached<F>(g: Geometry, view: View<F>, descent: seq<Option<nat>>)
    requires |descent| == MAX_LEVELS
    ensures CacheOk(g, view, descent, None)
  {
  }

  /** Tables stay cached when the walk links further ones. */
  lemma {:induction false} CacheAfterLink<F>(
      g: Geometry, view: View<F>, after: View<F>, descent: seq<Option<nat>>, last: Option<nat>, v: nat, low: nat)
    requires CacheOk(g, view, descent, last) && Grew(g, view, after, v, low)
    ensures CacheOk(g, after, descent, last)
  {
    CacheAfterGrowth(g, view, after, descent, last);
  }

  /** Caching the table just reached. */
  lemma {:induction false} CacheDeeper<F>(
      g: Geometry, view: View<F>, descent: seq<Option<nat>>, v: nat, level: nat, frame: nat)
    requires CacheOk(g, view, descent, Some(v)) && 1 <= level < g.levels <= MAX_LEVELS
    requires IsTable(view, g.PathOf(v, level)) && view[g.PathOf(v, level)].frame == frame
    requires level + 1 < g.levels ==> descent[level].Some?
    ensures CacheOk(g, view, descent[level - 1 := Some(frame)], Some(v))
  {
    var after := descent[level - 1 := Some(frame)];
    forall l: nat | 1 <= l < g.levels && l <= MAX_LEVELS ensures SlotCached(g, view, after, v, l) {
      assert SlotCached(g, view, descent, v, l);
    }
  }

  /** A cached level means that every level above it is cached too. */
  lemma {:induction false} CachedDownTo<F>(
      g: Geometry, view: View<F>, descent: seq<Option<nat>>, v: nat, floor: nat, level: nat)
    requires g.levels <= MAX_LEVELS && CacheOk(g, view, descent, Some(v)) && 1 <= floor <= level < g.levels
    ensures descent[floor - 1].Some? ==> descent[level - 1].Some?
    decreases level
  {
    if floor < level {
      CachedDownTo(g, view, descent, v, floor, level - 1);
      assert SlotCached(g, view, descent, v, level - 1);
    }
  }

  /** A walk may start from any table it passes. */
  lemma {:induction false} WalkFromTable<W(!new), F(!new)>(
      c: Config<W, F>, s: Store<W>, view: View<F>, root: nat, v: nat, top: nat, low: nat, target: nat, leaf: W)
    requires c.geo.Lawful() && Represents(c, s.words, view, root)
    requires target <= low <= top <= c.geo.levels
    requires IsTable(view, c.geo.PathOf(v, low)) && IsTable(view, c.geo.PathOf(v, top))
    ensures MapWalk(c, s, view[c.geo.PathOf(v, top)].frame, top, target, v, leaf)
            == MapWalk(c, s, view[c.geo.PathOf(v, low)].frame, low, target, v, leaf)
    decreases top
  {
    hide Lawful;
    hide TreeOk;
    hide Matches;
    if low < top {
      EntryOnWalk(c, s.words, view, root, v, top);
      WalkedAbove(c, view, root, v, low, top - 1);
      WalkFromTable(c, s, view, root, v, top - 1, low, target, leaf);
    }
  }

  /** Installing the leaf keeps the cache. */
  lemma {:induction false} CacheAfterInstall<W(!new), F(!new)>(
      c: Config<W, F>, s: Store<W>, view: View<F>, after: View<F>, root: nat, foreign: map<nat, seq<W>>,
      dirty: iset<nat>, range: AddrRange, paddr: nat, flags: F, size: PageSize, target: nat,
      descent: seq<Option<nat>>)
    requires ConfigOk(c) && Sound(c, s, view, root, foreign, dirty)
    requires LeafRequest(c, range, paddr, flags, size, target) && IsTable(view, c.geo.PathOf(range.start, target))
    requires CacheOk(c.geo, view, descent, Some(range.start))
    requires var (s1, r) := MapWalk(c, s, view[c.geo.PathOf(range.start, target)].frame, target, target, range.start,
                                    c.codec.newLeaf(paddr, flags, size));
             r.Ok? && Sound(c, s1, after, root, foreign, dirty + AddressesOf(range))
    ensures CacheOk(c.geo, after, descent, Some(range.start))
  {
    hide Represents;
    hide Lawful;
    hide AllocatorOk;
    hide CacheOk;
    hide IsBlock;
    hide OneChange;
    hide AgreeOutside;
    hide MapsTo;
    hide Owns;
    hide DirtyOnly;
    var p := c.geo.PathOf(range.start, target - 1);
    var installed := InstallEffect(c, s, view, root, foreign, dirty, range, paddr, flags, size, target);
    var (s1, _) := MapWalk(c, s, view[c.geo.PathOf(range.start, target)].frame, target, target, range.start,
                           c.codec.newLeaf(paddr, flags, size));
    SameTree(c, s1.words, installed, after, root);
    CacheAfterGrowth(c.geo, view, after, descent, Some(range.start));
  }

  /** Memory determines the tree it represents. */
  lemma {:induction false} SameAt<W(!new), F(!new)>(
      c: Config<W, F>, m: map<nat, seq<W>>, a: View<F>, b: View<F>, root: nat, p: Path)
    requires c.geo.Lawful() && Represents(c, m, a, root) && Represents(c, m, b, root) && p in a
    ensures p in b && a[p] == b[p]
    decreases p
  {
    hide Lawful;
    hide LeafOk;
    match p
    case Root =>
    case Step(up, i) =>
      assert ChildOk(c, a, up, i);
      SameAt(c, m, a, b, root, up);
      assert TableMatches(c, m, a, up) && TableMatches(c, m, b, up);
      FanFits(c.geo, TableLevel(c.geo, up));
      assert At(a, p) == At(b, p);
      SlotKinds(c, a, root, p);
  }

  lemma {:induction false} SameTree<W(!new), F(!new)>(
      c: Config<W, F>, m: map<nat, seq<W>>, a: View<F>, b: View<F>, root: nat)
    requires c.geo.Lawful() && Represents(c, m, a, root) && Represents(c, m, b, root)
    ensures a == b
  {
    hide Represents;
    hide Lawful;
    forall p | p in a ensures p in b && a[p] == b[p] {
      SameAt(c, m, a, b, root, p);
    }
    forall p | p in b ensures p in a {
      SameAt(c, m, b, a, root, p);
    }
  }
}
