/** The tree that frame memory represents, as one finite map from positions to entries,
    and the meaning of memory as an address translation. */
module Trie {
  import opened Basics
  import opened Power
  import opened Geometries
  import opened Entries
  import opened Memory

  /** What an address translates to. */
  datatype Hit<+F> = Hit(paddr: nat, flags: F)

  /** The translation computed by walking memory from a table, one entry per level. */
  ghost function Translate<W, F>(
      c: Config<W, F>, m: map<nat, seq<W>>, frame: nat, level: nat, v: nat): Option<Hit<F>>
    decreases level
  {
    if level == 0 || frame !in m || c.geo.IndexAt(level, v) >= |m[frame]| then None
    else match c.codec.Decode(m[frame][c.geo.IndexAt(level, v)], level)
      case Table(child) => Translate(c, m, child, level - 1, v)
      case Leaf(paddr, flags) => Some(Hit(paddr + v % c.geo.Span(level), flags))
      case _ => None
  }

  /** A tree: every position that holds a table or a leaf. */
  type View<F> = map<Path, Slot<F>>

  function At<F>(view: View<F>, p: Path): Slot<F> {
    if p in view then view[p] else Empty
  }

  ghost predicate IsTable<F>(view: View<F>, p: Path) {
    p in view && view[p].Table?
  }

  ghost predicate IsLeaf<F>(view: View<F>, p: Path) {
    p in view && view[p].Leaf?
  }

  /** The level of the table standing at `p`. */
  function TableLevel(g: Geometry, p: Path): int {
    g.levels - LevelOf(p)
  }

  /** `start` begins the block whose slot is `p`, and the block's end is representable. */
  ghost predicate StartsBlock(g: Geometry, start: nat, p: Path) {
    LevelOf(p) <= g.levels &&
    var level := TableLevel(g, p) + 1;
    && g.VaddrIsValid(start) && g.PathOf(start, level - 1) == p
    && start % g.Span(level) == 0 && start + g.Span(level) < ADDRESS_LIMIT
  }

  ghost predicate Located(g: Geometry, p: Path) {
    exists start: nat :: StartsBlock(g, start, p)
  }

  /** A leaf of the tree may stand at `p`: its level supports it, its target is aligned
      and in range, and its flags are stable under re-encoding. */
  ghost predicate LeafOk<W, F>(c: Config<W, F>, p: Path, paddr: nat, flags: F) {
    && 1 <= LevelOf(p) <= c.geo.levels
    && TableLevel(c.geo, p) + 1 <= c.geo.leafLevels
    && TargetOk(c.geo, TableLevel(c.geo, p) + 1, paddr)
    && c.codec.encodable(flags) && c.codec.Norm(flags) == flags
    && Located(c.geo, p)
  }

  ghost predicate SlotOk<W, F>(c: Config<W, F>, p: Path, s: Slot<F>) {
    match s
    case Table(frame) => TableLevel(c.geo, p) >= 1 && FrameOk(c.geo, frame)
    case Leaf(paddr, flags) => LeafOk(c, p, paddr, flags)
    case _ => false
  }

  ghost predicate ChildOk<W, F>(c: Config<W, F>, view: View<F>, up: Path, i: nat) {
    IsTable(view, up) && TableLevel(c.geo, up) >= 1 && i < c.geo.Fan(TableLevel(c.geo, up))
  }

  /** Shape of the tree: closed under parents, sound entries, every frame at one position. */
  ghost predicate TreeOk<W, F>(c: Config<W, F>, view: View<F>, root: nat) {
    && Root in view && view[Root] == Table(root)
    && (forall p :: p in view ==> SlotOk(c, p, view[p]))
    && (forall p, i :: Step(p, i) in view ==> ChildOk(c, view, p, i))
    && (forall p, q :: IsTable(view, p) && IsTable(view, q) && view[p].frame == view[q].frame ==> p == q)
  }

  /** The frame of the table at `p` holds exactly the children of `p`. */
  ghost predicate TableMatches<W, F>(c: Config<W, F>, m: map<nat, seq<W>>, view: View<F>, p: Path)
    requires IsTable(view, p)
  {
    var f := view[p].frame;
    && f in m && |m[f]| == c.geo.EntriesPerTable()
    && TableLevel(c.geo, p) >= 1
    && forall i: nat | i < |m[f]| :: c.codec.Decode(m[f][i], TableLevel(c.geo, p)) == At(view, Step(p, i))
  }

  ghost predicate Matches<W, F>(c: Config<W, F>, m: map<nat, seq<W>>, view: View<F>) {
    forall p :: IsTable(view, p) ==> TableMatches(c, m, view, p)
  }

  ghost predicate Represents<W, F>(c: Config<W, F>, m: map<nat, seq<W>>, view: View<F>, root: nat) {
    TreeOk(c, view, root) && Matches(c, m, view)
  }

  ghost function Frames<F>(view: View<F>): set<nat> {
    set p | p in view && view[p].Table? :: view[p].frame
  }

  lemma {:induction false} FanFits(g: Geometry, level: nat)
    requires g.Lawful() && 1 <= level <= g.levels
    ensures g.Fan(level) <= g.EntriesPerTable()
  {
    Pow2Monotone(g.LevelIndexBits(level), g.indexBits);
  }

  /** Everything above a position of the tree is a table of the tree. */
  lemma {:induction false} WalkedAbove<W, F>(
      c: Config<W, F>, view: View<F>, root: nat, v: nat, level: nat, k: nat)
    requires TreeOk(c, view, root) && level <= k <= c.geo.levels
    requires c.geo.PathOf(v, level) in view
    ensures c.geo.PathOf(v, k) in view
    ensures k > level ==> IsTable(view, c.geo.PathOf(v, k))
    decreases k
  {
    hide LeafOk;
    hide Geometry.IndexAt;
    hide SlotOk;
    if k > level {
      WalkedAbove(c, view, root, v, level, k - 1);
      assert ChildOk(c, view, c.geo.PathOf(v, k), c.geo.IndexAt(k, v));
    }
  }

  lemma {:induction false} SlotKinds<W, F>(c: Config<W, F>, view: View<F>, root: nat, p: Path)
    requires TreeOk(c, view, root) && p in view
    ensures view[p].Table? || view[p].Leaf?
  {
    assert SlotOk(c, p, view[p]);
  }

  /** Reading the entry that `v` selects in a table of the tree. */
  lemma {:induction false} EntryOnWalk<W, F>(
      c: Config<W, F>, m: map<nat, seq<W>>, view: View<F>, root: nat, v: nat, level: nat)
    requires c.geo.Lawful() && Represents(c, m, view, root)
    requires level <= c.geo.levels && IsTable(view, c.geo.PathOf(v, level))
    ensures 1 <= level
    ensures var f, i := view[c.geo.PathOf(v, level)].frame, c.geo.IndexAt(level, v);
            f in m && i < |m[f]| && |m[f]| == c.geo.EntriesPerTable()
            && c.codec.Decode(m[f][i], level) == At(view, c.geo.PathOf(v, level - 1))
  {
    hide LeafOk;
    var p := c.geo.PathOf(v, level);
    assert TableMatches(c, m, view, p);
    FanFits(c.geo, level);
    assert c.geo.PathOf(v, level - 1) == Step(p, c.geo.IndexAt(level, v));
  }

  /** Every walk starts at the root table. */
  lemma {:induction false} RootOnWalk<W, F>(c: Config<W, F>, view: View<F>, root: nat, v: nat)
    requires TreeOk(c, view, root)
    ensures c.geo.PathOf(v, c.geo.levels) == Root && IsTable(view, Root) && view[Root].frame == root
  {
  }

  /** The slot that `v` selects holds nothing, a leaf, or a table with levels below it. */
  lemma {:induction false} SlotOnWalk<W, F>(c: Config<W, F>, view: View<F>, root: nat, v: nat, level: nat)
    requires TreeOk(c, view, root) && 1 <= level <= c.geo.levels
    ensures !At(view, c.geo.PathOf(v, level - 1)).Invalid?
    ensures IsTable(view, c.geo.PathOf(v, level - 1)) ==> level >= 2
  {
    var p := c.geo.PathOf(v, level - 1);
    if p in view {
      assert SlotOk(c, p, view[p]);
    }
  }

  /** The translation read off the tree. */
  ghost function Lookup<F>(g: Geometry, view: View<F>, v: nat, level: nat): Option<Hit<F>> {
    if level == 0 then None
    else match At(view, g.PathOf(v, level - 1))
      case Table(_) => Lookup(g, view, v, level - 1)
      case Leaf(paddr, flags) => Some(Hit(paddr + v % g.Span(level), flags))
      case _ => None
  }

  lemma {:induction false} TranslateIsLookup<W, F>(
      c: Config<W, F>, m: map<nat, seq<W>>, view: View<F>, root: nat, v: nat, level: nat)
    requires c.geo.Lawful() && Represents(c, m, view, root)
    requires level <= c.geo.levels && IsTable(view, c.geo.PathOf(v, level))
    ensures Translate(c, m, view[c.geo.PathOf(v, level)].frame, level, v) == Lookup(c.geo, view, v, level)
    decreases level
  {
    hide Represents;
    EntryOnWalk(c, m, view, root, v, level);
    if IsTable(view, c.geo.PathOf(v, level - 1)) {
      TranslateIsLookup(c, m, view, root, v, level - 1);
    }
  }

  /** A leaf on the walk decides the translation. */
  lemma {:induction false} LookupAtLeaf<W, F>(
      c: Config<W, F>, view: View<F>, root: nat, v: nat, level: nat, k: nat)
    requires TreeOk(c, view, root) && 1 <= level <= k <= c.geo.levels
    requires IsLeaf(view, c.geo.PathOf(v, level - 1))
    ensures var leaf := view[c.geo.PathOf(v, level - 1)];
            Lookup(c.geo, view, v, k) == Some(Hit(leaf.paddr + v % c.geo.Span(level), leaf.flags))
    decreases k
  {
    hide TreeOk;
    if k > level {
      WalkedAbove(c, view, root, v, level - 1, k - 1);
      LookupAtLeaf(c, view, root, v, level, k - 1);
    }
  }

  /** Without a leaf on the walk there is no translation. */
  lemma {:induction false} LookupWithoutLeaf<F>(g: Geometry, view: View<F>, v: nat, k: nat)
    requires forall l | 0 <= l < k :: !IsLeaf(view, g.PathOf(v, l))
    ensures Lookup(g, view, v, k) == None
    decreases k
  {
    if k > 0 {
      assert !IsLeaf(view, g.PathOf(v, k - 1));
      LookupWithoutLeaf(g, view, v, k - 1);
    }
  }

  /** The leaf of the tree at `p`, if there is one. */
  ghost function LeafAt<F>(view: View<F>, p: Path): Option<Slot<F>> {
    if IsLeaf(view, p) then Some(view[p]) else None
  }

  /** The translation depends only on the leaves met on the walk. */
  lemma {:induction false} LookupByLeaves<W, F>(c: Config<W, F>, a: View<F>, aRoot: nat, b: View<F>, bRoot: nat, v: nat)
    requires TreeOk(c, a, aRoot) && TreeOk(c, b, bRoot)
    requires forall l | 0 <= l < c.geo.levels ::
               LeafAt(a, c.geo.PathOf(v, l)) == LeafAt(b, c.geo.PathOf(v, l))
    ensures Lookup(c.geo, a, v, c.geo.levels) == Lookup(c.geo, b, v, c.geo.levels)
  {
    hide TreeOk;
    if l :| 0 <= l < c.geo.levels && IsLeaf(a, c.geo.PathOf(v, l)) {
      assert LeafAt(a, c.geo.PathOf(v, l)) == LeafAt(b, c.geo.PathOf(v, l));
      LookupAtLeaf(c, a, aRoot, v, l + 1, c.geo.levels);
      LookupAtLeaf(c, b, bRoot, v, l + 1, c.geo.levels);
    } else {
      forall l | 0 <= l < c.geo.levels ensures !IsLeaf(b, c.geo.PathOf(v, l)) {
        assert LeafAt(a, c.geo.PathOf(v, l)) == LeafAt(b, c.geo.PathOf(v, l));
      }
      LookupWithoutLeaf(c.geo, a, v, c.geo.levels);
      LookupWithoutLeaf(c.geo, b, v, c.geo.levels);
    }
  }

  /** The translation of the whole address space rooted at `root`. */
  ghost function Xlate<W, F>(c: Config<W, F>, m: map<nat, seq<W>>, root: nat, v: nat): Option<Hit<F>> {
    Translate(c, m, root, c.geo.levels, v)
  }

  lemma {:induction false} XlateIsLookup<W, F>(c: Config<W, F>, m: map<nat, seq<W>>, view: View<F>, root: nat, v: nat)
    requires c.geo.Lawful() && Represents(c, m, view, root)
    ensures Xlate(c, m, root, v) == Lookup(c.geo, view, v, c.geo.levels)
  {
    TranslateIsLookup(c, m, view, root, v, c.geo.levels);
  }
}
