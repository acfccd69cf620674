/** Mapping one leaf by walking from a table down to the leaf's level, as a function of
    the machine state, and what it does to the tree and to the translation. */
module MapWalks {
  import opened Basics
  import opened Power
  import opened PageSizes
  import opened Geometries
  import opened Blocks
  import opened Entries
  import opened Memory
  import opened Trie
  import opened Translation
  import opened Tlb
  import opened Histories
  import opened Steps

  /** Go one level down on the walk of `v`, linking a fresh table under an absent entry. */
  ghost function StepDown<W, F>(c: Config<W, F>, s: Store<W>, frame: nat, level: nat, v: nat): (Store<W>, Result<nat>) {
    var i := c.geo.IndexAt(level, v);
    if frame !in s.words || i >= |s.words[frame]| then (s, Err(InvalidEntryKind))
    else
      match c.codec.Decode(s.words[frame][i], level)
      case Invalid => (s, Err(InvalidEntryKind))
      case Leaf(_, _) => (s, Err(AlreadyMapped))
      case Table(child) => (s, Ok(child))
      case Empty =>
        var (s1, r) := s.Alloc(c);
        if r.Err? then (s1, r) else (s1.Put(frame, i, c.codec.newTable(r.value, level)), r)
  }

  /** The uncached walk: descend from `frame` at `level` to `target` and install `leaf`. */
  ghost function MapWalk<W, F>(
      c: Config<W, F>, s: Store<W>, frame: nat, level: nat, target: nat, v: nat, leaf: W): (Store<W>, Result<()>)
    decreases level
  {
    if level > target then
      var (s1, r) := StepDown(c, s, frame, level, v);
      if r.Err? then (s1, Err(r.error)) else MapWalk(c, s1, r.value, level - 1, target, v, leaf)
    else
      var i := c.geo.IndexAt(level, v);
      if frame !in s.words || i >= |s.words[frame]| then (s, Err(InvalidEntryKind))
      else if c.codec.isPresent(s.words[frame][i]) then (s, Err(AlreadyMapped))
      else (s.Put(frame, i, leaf), Ok(()))
  }

  /** Above its target a walk goes one level down. */
  lemma {:induction false} WalkStepsDown<W, F>(
      c: Config<W, F>, s: Store<W>, frame: nat, level: nat, target: nat, v: nat, leaf: W)
    requires level > target
    ensures var (s1, r) := StepDown(c, s, frame, level, v);
            MapWalk(c, s, frame, level, target, v, leaf) ==
              if r.Err? then (s1, Err(r.error)) else MapWalk(c, s1, r.value, level - 1, target, v, leaf)
  {
  }

  /** At its target a walk writes the leaf unless the entry is taken. */
  lemma {:induction false} WalkInstalls<W(!new), F(!new)>(
      c: Config<W, F>, s: Store<W>, view: View<F>, root: nat, v: nat, target: nat, leaf: W)
    requires c.geo.Lawful() && Represents(c, s.words, view, root) && target <= c.geo.levels
    requires IsTable(view, c.geo.PathOf(v, target))
    ensures var f, i := view[c.geo.PathOf(v, target)].frame, c.geo.IndexAt(target, v);
            && f in s.words && i < |s.words[f]|
            && MapWalk(c, s, f, target, target, v, leaf) ==
                 if c.codec.isPresent(s.words[f][i]) then (s, Err(AlreadyMapped)) else (s.Put(f, i, leaf), Ok(()))
  {
    hide Lawful;
    hide Represents;
    EntryOnWalk(c, s.words, view, root, v, target);
  }

  /** `b` extends `a` by tables on the walk of `v`, at level `low` or above. */
  ghost predicate Grew<F>(g: Geometry, a: View<F>, b: View<F>, v: nat, low: nat) {
    && (forall q | q in a :: q in b && b[q] == a[q])
    && (forall q | q in b && q !in a ::
          IsTable(b, q) && TableLevel(g, q) >= low && q == g.PathOf(v, TableLevel(g, q)))
  }

  /** A well-formed request to map `range` as one leaf of `size` at level `target`. */
  ghost predicate LeafRequest<W, F>(
      c: Config<W, F>, range: AddrRange, paddr: nat, flags: F, size: PageSize, target: nat) {
    && IsBlock(c.geo, range, target)
    && c.geo.LevelSupportsLeaf(target, size)
    && TargetOk(c.geo, target, paddr)
    && c.codec.encodable(flags)
  }

  /** Something already stands at the slot of `v` at level `target`, or a leaf above it. */
  ghost predicate InTheWay<F>(g: Geometry, view: View<F>, v: nat, target: nat) {
    || (target >= 1 && g.PathOf(v, target - 1) in view)
    || exists k: nat | target <= k < g.levels :: IsLeaf(view, g.PathOf(v, k))
  }

  /** The last thing that happened was that the allocator refused a frame with `e`. */
  ghost predicate RefusedLast<W, F>(c: Config<W, F>, s: Store<W>, e: PagingError) {
    s.tick >= 1 && Store(s.words, s.tick - 1, s.log).Alloc(c) == (s, Err(e))
  }

  /** The allocator refuses the next frame it is asked for. */
  ghost predicate RefusesNext<W, F>(c: Config<W, F>, s: Store<W>) {
    s.Alloc(c).1.Err?
  }

  lemma {:induction false} StepDownEffect<W(!new), F(!new)>(
      c: Config<W, F>, s: Store<W>, view: View<F>, root: nat, foreign: map<nat, seq<W>>, dirty: iset<nat>,
      v: nat, level: nat) returns (after: View<F>)
    requires ConfigOk(c) && Sound(c, s, view, root, foreign, dirty)
    requires 2 <= level <= c.geo.levels && IsTable(view, c.geo.PathOf(v, level))
    ensures var (s1, r) := StepDown(c, s, view[c.geo.PathOf(v, level)].frame, level, v);
            && Sound(c, s1, after, root, foreign, dirty)
            && NoChange(c, root, s, s1)
            && Grew(c.geo, view, after, v, level - 1)
            && (r.Ok? ==> IsTable(after, c.geo.PathOf(v, level - 1))
                          && after[c.geo.PathOf(v, level - 1)].frame == r.value)
            && (r.Err? ==> after == view && s1.words == s.words
                           && r.error in {AlreadyMapped, OutOfMemory, NotAligned})
            && (r == Err(AlreadyMapped) <==> IsLeaf(view, c.geo.PathOf(v, level - 1)))
            && (c.geo.PathOf(v, level - 1) in view ==> s1 == s && after == view && (r.Ok? || r.error == AlreadyMapped))
            && (c.geo.PathOf(v, level - 1) !in view && r.Ok? ==>
                  after == view[c.geo.PathOf(v, level - 1) := Table(r.value)] && !RefusesNext(c, s))
            && (r.Err? && r.error != AlreadyMapped ==> RefusesNext(c, s) && RefusedLast(c, s1, r.error))
  {
    hide Lawful;
    hide AllocatorOk;
    hide Sound;
    hide TreeOk;
    hide Represents;
    hide NoChange;
    hide Grew;
    hide LeafOk;
    hide Geometry.PathOf;
    hide Geometry.IndexAt;
    TreeOfSound(c, s, view, root, foreign, dirty);
    GrewByTable(c.geo, view, v, level - 1);
    var p, i := c.geo.PathOf(v, level), c.geo.IndexAt(level, v);
    EntryOnWalk(c, s.words, view, root, v, level);
    SlotIsChild(c, view, root, v, level);
    NoChangeRefl(c, root, s, s);
    after := view;
    if Step(p, i) in view {
      SlotKinds(c, view, root, Step(p, i));
    } else {
      AllocStep(c, s);
      var (s1, r) := s.Alloc(c);
      if r.Ok? {
        LinkStep(c, s, view, root, foreign, dirty, p, i);
        after := view[Step(p, i) := Table(r.value)];
      } else {
        NoChangeRefl(c, root, s, s1);
        StillSound(c, s, s1, view, root, foreign, dirty);
      }
    }
  }

  /** Nothing, or one table, has been added. */
  lemma {:induction false} GrewByTable<F>(g: Geometry, view: View<F>, v: nat, level: nat)
    requires level <= g.levels
    ensures Grew(g, view, view, v, level)
    ensures g.PathOf(v, level) !in view ==>
              forall frame :: Grew(g, view, view[g.PathOf(v, level) := Table(frame)], v, level)
  {
  }

  lemma {:induction false} StillSound<W(!new), F(!new)>(
      c: Config<W, F>, s: Store<W>, s1: Store<W>, view: View<F>, root: nat, foreign: map<nat, seq<W>>, dirty: iset<nat>)
    requires Sound(c, s, view, root, foreign, dirty) && s1.words == s.words && s1.log == s.log
    ensures Sound(c, s1, view, root, foreign, dirty)
  {
  }

  /** The new leaf is one the tree may hold. */
  lemma {:induction false} RequestedLeafOk<W(!new), F(!new)>(
      c: Config<W, F>, range: AddrRange, paddr: nat, flags: F, size: PageSize, target: nat)
    requires ConfigOk(c) && LeafRequest(c, range, paddr, flags, size, target)
    ensures LeafOk(c, c.geo.PathOf(range.start, target - 1), paddr, c.codec.Norm(flags))
    ensures c.codec.Decode(c.codec.newLeaf(paddr, flags, size), target) == Leaf(paddr, c.codec.Norm(flags))
  {
    hide IsBlock;
    hide TargetOk;
    hide Located;
    RequestLevel(c, range, paddr, flags, size, target);
    BlockLocated(c.geo, range, target);
    assert LeafWordOk(c.codec, target, c.codec.newLeaf(paddr, flags, size), paddr, flags);
  }

  lemma {:induction false} BlockLocated(g: Geometry, range: AddrRange, level: nat)
    requires g.Lawful() && IsBlock(g, range, level)
    ensures Located(g, g.PathOf(range.start, level - 1))
  {
    hide Canonical;
    var p := g.PathOf(range.start, level - 1);
    assert TableLevel(g, p) == level - 1;
    assert StartsBlock(g, range.start, p);
  }

  /** The last step of a map: install the leaf unless its slot is taken. */
  lemma {:induction false} InstallEffect<W(!new), F(!new)>(
      c: Config<W, F>, s: Store<W>, view: View<F>, root: nat, foreign: map<nat, seq<W>>, dirty: iset<nat>,
      range: AddrRange, paddr: nat, flags: F, size: PageSize, target: nat) returns (after: View<F>)
    requires ConfigOk(c) && Sound(c, s, view, root, foreign, dirty)
    requires LeafRequest(c, range, paddr, flags, size, target)
    requires IsTable(view, c.geo.PathOf(range.start, target))
    ensures var p := c.geo.PathOf(range.start, target - 1);
            var (s1, r) := MapWalk(c, s, view[c.geo.PathOf(range.start, target)].frame, target, target, range.start,
                                   c.codec.newLeaf(paddr, flags, size));
            && (p in view ==> r == Err(AlreadyMapped) && s1 == s && after == view)
            && (p !in view ==> r.Ok? && after == view[p := Leaf(paddr, c.codec.Norm(flags))]
                               && Sound(c, s1, after, root, foreign, dirty + AddressesOf(range))
                               && OneChange(c, root, s, s1)
                               && AgreeOutside(c, root, s.words, s1.words, range)
                               && MapsTo(c, root, s1.words, range, paddr, c.codec.Norm(flags)))
  {
    hide Lawful;
    hide AllocatorOk;
    hide DirtyOnly;
    hide TreeOk;
    hide Matches;
    hide Owns;
    hide Xlate;
    hide LeafOk;
    var v := range.start;
    var leaf := c.codec.newLeaf(paddr, flags, size);
    EntryOnWalk(c, s.words, view, root, v, target);
    SlotIsChild(c, view, root, v, target);
    after := view;
    if c.geo.PathOf(v, target - 1) in view {
      SlotKinds(c, view, root, c.geo.PathOf(v, target - 1));
    } else {
      RequestedLeafOk(c, range, paddr, flags, size, target);
      LeafStep(c, s, view, root, foreign, dirty, range, target, leaf);
      after := view[c.geo.PathOf(v, target - 1) := Leaf(paddr, c.codec.Norm(flags))];
      var s1 := s.Put(view[c.geo.PathOf(v, target)].frame, c.geo.IndexAt(target, v), leaf);
      NoChangeRefl(c, root, s, s);
      NoChangeRefl(c, root, s1, s1);
      OneChangeAt(c, root, s, s, s1, s1);
      LeafMapsBlock(c, root, s1.words, after, range, target);
    }
  }

  /** The contract of mapping one leaf, between two states and their trees. */
  ghost predicate MapOutcome<W(!new), F(!new)>(
      c: Config<W, F>, root: nat, foreign: map<nat, seq<W>>, dirty: iset<nat>,
      range: AddrRange, paddr: nat, flags: F, target: nat,
      s: Store<W>, view: View<F>, s1: Store<W>, after: View<F>, r: Result<()>)
    requires target >= 1
  {
    var p := c.geo.PathOf(range.start, target - 1);
    && (r == Err(AlreadyMapped) <==> InTheWay(c.geo, view, range.start, target))
    && (r == Err(AlreadyMapped) ==> s1 == s && after == view)
    && (r.Err? && r.error != AlreadyMapped ==>
          RefusedLast(c, s1, r.error) && (RefusesNext(c, s) <==> after == view))
    && (r.Err? ==> r.error in {AlreadyMapped, OutOfMemory, NotAligned}
                   && Sound(c, s1, after, root, foreign, dirty)
                   && Grew(c.geo, view, after, range.start, target)
                   && NoChange(c, root, s, s1))
    && (r.Ok? ==> p !in view && p in after && after[p] == Leaf(paddr, c.codec.Norm(flags))
                  && Grew(c.geo, view, after - {p}, range.start, target)
                  && Sound(c, s1, after, root, foreign, dirty + AddressesOf(range))
                  && OneChange(c, root, s, s1)
                  && AgreeOutside(c, root, s.words, s1.words, range)
                  && MapsTo(c, root, s1.words, range, paddr, c.codec.Norm(flags)))
  }

  lemma {:induction false} OutcomeIsSound<W(!new), F(!new)>(
      c: Config<W, F>, root: nat, foreign: map<nat, seq<W>>, dirty: iset<nat>,
      range: AddrRange, paddr: nat, flags: F, target: nat,
      s: Store<W>, view: View<F>, s1: Store<W>, after: View<F>, r: Result<()>)
    requires target >= 1
    requires MapOutcome(c, root, foreign, dirty, range, paddr, flags, target, s, view, s1, after, r)
    ensures Sound(c, s1, after, root, foreign, if r.Ok? then dirty + AddressesOf(range) else dirty)
  {
  }

  lemma {:induction false} RequestLevel<W, F>(
      c: Config<W, F>, range: AddrRange, paddr: nat, flags: F, size: PageSize, target: nat)
    requires LeafRequest(c, range, paddr, flags, size, target)
    ensures 1 <= target <= c.geo.levels
  {
  }

  /** Whether something is in the way, as seen from a table on the walk. */
  lemma {:induction false} InTheWayAt<W(!new), F(!new)>(
      c: Config<W, F>, view: View<F>, root: nat, v: nat, level: nat, target: nat)
    requires TreeOk(c, view, root) && 1 <= target <= level <= c.geo.levels
    requires IsTable(view, c.geo.PathOf(v, level))
    ensures level == target ==> (InTheWay(c.geo, view, v, target) <==> c.geo.PathOf(v, target - 1) in view)
    ensures level > target && IsLeaf(view, c.geo.PathOf(v, level - 1)) ==> InTheWay(c.geo, view, v, target)
    ensures level > target && c.geo.PathOf(v, level - 1) !in view ==> !InTheWay(c.geo, view, v, target)
  {
    hide TreeOk;
    forall k: nat | level <= k < c.geo.levels ensures !IsLeaf(view, c.geo.PathOf(v, k)) {
      WalkedAbove(c, view, root, v, level, k);
    }
    if level > target && c.geo.PathOf(v, level - 1) !in view {
      forall k: nat | target - 1 <= k < level ensures c.geo.PathOf(v, k) !in view || k == level {
        if c.geo.PathOf(v, k) in view {
          WalkedAbove(c, view, root, v, k, level - 1);
        }
      }
    }
  }

  /** Adding a table above the target slot puts nothing in the way. */
  lemma {:induction false} InTheWayUnchanged<F>(
      g: Geometry, view: View<F>, after: View<F>, v: nat, level: nat, target: nat)
    requires 1 <= target < level <= g.levels && g.PathOf(v, level - 1) !in view
    requires forall q :: q != g.PathOf(v, level - 1) ==> At(view, q) == At(after, q) && (q in view <==> q in after)
    requires IsTable(after, g.PathOf(v, level - 1))
    ensures InTheWay(g, view, v, target) <==> InTheWay(g, after, v, target)
  {
    var q := g.PathOf(v, level - 1);
    assert LevelOf(g.PathOf(v, target - 1)) != LevelOf(q);
    forall k: nat | target <= k < g.levels
      ensures IsLeaf(view, g.PathOf(v, k)) <==> IsLeaf(after, g.PathOf(v, k))
    {
      if g.PathOf(v, k) != q {
        assert At(view, g.PathOf(v, k)) == At(after, g.PathOf(v, k));
      }
    }
  }

  /** A quiet step followed by a map is a map. */
  lemma {:induction false} OutcomeAfterQuiet<W(!new), F(!new)>(
      c: Config<W, F>, root: nat, foreign: map<nat, seq<W>>, dirty: iset<nat>,
      range: AddrRange, paddr: nat, flags: F, target: nat,
      s: Store<W>, view: View<F>, s1: Store<W>, mid: View<F>, s2: Store<W>, after: View<F>, r: Result<()>)
    requires target >= 1
    requires NoChange(c, root, s, s1) && Grew(c.geo, view, mid, range.start, target)
    requires MapOutcome(c, root, foreign, dirty, range, paddr, flags, target, s1, mid, s2, after, r)
    requires InTheWay(c.geo, view, range.start, target) <==> InTheWay(c.geo, mid, range.start, target)
    requires InTheWay(c.geo, view, range.start, target) ==> s1 == s && mid == view
    requires (s1 == s && mid == view) || (mid != view && !RefusesNext(c, s))
    ensures MapOutcome(c, root, foreign, dirty, range, paddr, flags, target, s, view, s2, after, r)
  {
    hide Sound;
    hide InTheWay;
    hide MapsTo;
    hide Xlate;
    hide RefusesNext;
    hide RefusedLast;
    if r.Ok? {
      assert c.geo.PathOf(range.start, target - 1) !in view;
      NoChangeThenOne(c, root, s, s1, s2);
      AgreeThenOutside(c, root, s.words, s1.words, s2.words, range);
    } else {
      NoChangeTrans(c, root, s, s1, s2);
    }
  }

  lemma {:induction false} AgreeThenOutside<W, F>(
      c: Config<W, F>, root: nat, a: map<nat, seq<W>>, b: map<nat, seq<W>>, d: map<nat, seq<W>>, range: AddrRange)
    requires Agree(c, root, a, b) && AgreeOutside(c, root, b, d, range)
    ensures AgreeOutside(c, root, a, d, range)
  {
    hide Xlate;
  }

  /** Growing at a level or above is growing at every lower level or above. */
  lemma {:induction false} GrewLower<F>(g: Geometry, a: View<F>, b: View<F>, v: nat, low: nat, lower: nat)
    requires Grew(g, a, b, v, low) && lower <= low
    ensures Grew(g, a, b, v, lower)
  {
  }

  /** A leaf that has been installed, as the outcome of a map. */
  lemma {:induction false} InstalledIsOutcome<W(!new), F(!new)>(
      c: Config<W, F>, root: nat, foreign: map<nat, seq<W>>, dirty: iset<nat>,
      range: AddrRange, paddr: nat, flags: F, target: nat, s: Store<W>, view: View<F>, s1: Store<W>)
    requires target >= 1 && c.geo.PathOf(range.start, target - 1) !in view
             && !InTheWay(c.geo, view, range.start, target)
    requires var after := view[c.geo.PathOf(range.start, target - 1) := Leaf(paddr, c.codec.Norm(flags))];
             && Sound(c, s1, after, root, foreign, dirty + AddressesOf(range))
             && OneChange(c, root, s, s1) && AgreeOutside(c, root, s.words, s1.words, range)
             && MapsTo(c, root, s1.words, range, paddr, c.codec.Norm(flags))
    ensures MapOutcome(c, root, foreign, dirty, range, paddr, flags, target, s, view, s1,
                       view[c.geo.PathOf(range.start, target - 1) := Leaf(paddr, c.codec.Norm(flags))], Ok(()))
  {
    hide Sound;
    hide OneChange;
    hide AgreeOutside;
    hide MapsTo;
    hide InTheWay;
    hide Geometry.PathOf;
    var p := c.geo.PathOf(range.start, target - 1);
    var after: View<F> := view[p := Leaf(paddr, c.codec.Norm(flags))];
    assert after - {p} == view;
  }

  /** The last step of a map, as the whole of one. */
  lemma {:induction false} InstallIsOutcome<W(!new), F(!new)>(
      c: Config<W, F>, s: Store<W>, view: View<F>, root: nat, foreign: map<nat, seq<W>>, dirty: iset<nat>,
      range: AddrRange, paddr: nat, flags: F, size: PageSize, target: nat) returns (after: View<F>)
    requires ConfigOk(c) && Sound(c, s, view, root, foreign, dirty)
    requires LeafRequest(c, range, paddr, flags, size, target)
    requires IsTable(view, c.geo.PathOf(range.start, target))
    ensures var leaf := c.codec.newLeaf(paddr, flags, size);
            var frame := view[c.geo.PathOf(range.start, target)].frame;
            var (s1, r) := MapWalk(c, s, frame, target, target, range.start, leaf);
            MapOutcome(c, root, foreign, dirty, range, paddr, flags, target, s, view, s1, after, r)
  {
    hide ConfigOk;
    hide Sound;
    hide NoChange;
    hide OneChange;
    hide AgreeOutside;
    hide MapsTo;
    hide IsBlock;
    hide InTheWay;
    hide MapWalk;
    hide MapOutcome;
    hide Geometry.PathOf;
    RequestLevel(c, range, paddr, flags, size, target);
    TreeOfSound(c, s, view, root, foreign, dirty);
    InTheWayAt(c, view, root, range.start, target, target);
    after := InstallEffect(c, s, view, root, foreign, dirty, range, paddr, flags, size, target);
    var leaf := c.codec.newLeaf(paddr, flags, size);
    var (s1, r) := MapWalk(c, s, view[c.geo.PathOf(range.start, target)].frame, target, target, range.start, leaf);
    if r.Ok? {
      assert r.value == ();
      InstalledIsOutcome(c, root, foreign, dirty, range, paddr, flags, target, s, view, s1);
    } else {
      NoChangeRefl(c, root, s, s);
      BlockedIsOutcome(c, root, foreign, dirty, range, paddr, flags, target, s, view, s, AlreadyMapped);
    }
  }

  lemma {:induction false} TreeOfSound<W(!new), F(!new)>(
      c: Config<W, F>, s: Store<W>, view: View<F>, root: nat, foreign: map<nat, seq<W>>, dirty: iset<nat>)
    requires Sound(c, s, view, root, foreign, dirty)
    ensures Represents(c, s.words, view, root) && TreeOk(c, view, root)
  {
  }

  /** A walk that cannot go down ends there. */
  lemma {:induction false} BlockedIsOutcome<W(!new), F(!new)>(
      c: Config<W, F>, root: nat, foreign: map<nat, seq<W>>, dirty: iset<nat>,
      range: AddrRange, paddr: nat, flags: F, target: nat, s: Store<W>, view: View<F>, s1: Store<W>, e: PagingError)
    requires target >= 1 && Sound(c, s1, view, root, foreign, dirty) && NoChange(c, root, s, s1)
    requires e in {AlreadyMapped, OutOfMemory, NotAligned}
    requires e == AlreadyMapped <==> InTheWay(c.geo, view, range.start, target)
    requires e == AlreadyMapped ==> s1 == s
    requires e != AlreadyMapped ==> RefusesNext(c, s) && RefusedLast(c, s1, e)
    ensures MapOutcome(c, root, foreign, dirty, range, paddr, flags, target, s, view, s1, view, Err(e))
  {
    hide Sound;
    hide NoChange;
    hide InTheWay;
    hide RefusesNext;
    hide RefusedLast;
  }

  /** What mapping one leaf does, in full: it fails on a conflict, with nothing changed
      but empty tables linked when memory runs out; otherwise it adds exactly the leaf and
      the tables leading to it. */
  lemma {:induction false} MapWalkEffect<W(!new), F(!new)>(
      c: Config<W, F>, s: Store<W>, view: View<F>, root: nat, foreign: map<nat, seq<W>>, dirty: iset<nat>,
      range: AddrRange, paddr: nat, flags: F, size: PageSize, level: nat, target: nat) returns (after: View<F>)
    requires ConfigOk(c) && Sound(c, s, view, root, foreign, dirty)
    requires LeafRequest(c, range, paddr, flags, size, target)
    requires target <= level <= c.geo.levels && IsTable(view, c.geo.PathOf(range.start, level))
    ensures var leaf := c.codec.newLeaf(paddr, flags, size);
            var frame := view[c.geo.PathOf(range.start, level)].frame;
            var (s1, r) := MapWalk(c, s, frame, level, target, range.start, leaf);
            MapOutcome(c, root, foreign, dirty, range, paddr, flags, target, s, view, s1, after, r)
    decreases level
  {
    hide Lawful;
    hide AllocatorOk;
    hide Sound;
    hide TreeOk;
    hide MapOutcome;
    hide IsBlock;
    hide InTheWay;
    hide StepDown;
    hide RefusesNext;
    hide RefusedLast;
    hide NoChange;
    hide Grew;
    hide Geometry.PathOf;
    var v := range.start;
    RequestLevel(c, range, paddr, flags, size, target);
    if level == target {
      after := InstallIsOutcome(c, s, view, root, foreign, dirty, range, paddr, flags, size, target);
    } else {
      TreeOfSound(c, s, view, root, foreign, dirty);
      InTheWayAt(c, view, root, v, level, target);
      var mid := StepDownEffect(c, s, view, root, foreign, dirty, v, level);
      var (s1, r1) := StepDown(c, s, view[c.geo.PathOf(v, level)].frame, level, v);
      after := mid;
      if r1.Err? {
        NotInTheWayAt(c, view, root, v, level, target, r1.error);
        BlockedIsOutcome(c, root, foreign, dirty, range, paddr, flags, target, s, view, s1, r1.error);
      } else {
        GrewLower(c.geo, view, mid, v, level - 1, target);
        if c.geo.PathOf(v, level - 1) !in view {
          InTheWayUnchanged(c.geo, view, mid, v, level, target);
        }
        after := MapWalkEffect(c, s1, mid, root, foreign, dirty, range, paddr, flags, size, level - 1, target);
        var (s2, r) := MapWalk(c, s1, r1.value, level - 1, target, v, c.codec.newLeaf(paddr, flags, size));
        OutcomeAfterQuiet(c, root, foreign, dirty, range, paddr, flags, target, s, view, s1, mid, s2, after, r);
      }
    }
  }

  /** A walk stopped above its target met a leaf, or an absent entry with nothing below. */
  lemma {:induction false} NotInTheWayAt<W(!new), F(!new)>(
      c: Config<W, F>, view: View<F>, root: nat, v: nat, level: nat, target: nat, e: PagingError)
    requires TreeOk(c, view, root) && 1 <= target < level <= c.geo.levels && IsTable(view, c.geo.PathOf(v, level))
    requires e == AlreadyMapped <==> IsLeaf(view, c.geo.PathOf(v, level - 1))
    requires c.geo.PathOf(v, level - 1) in view ==> e == AlreadyMapped
    ensures e == AlreadyMapped <==> InTheWay(c.geo, view, v, target)
  {
    hide TreeOk;
    hide InTheWay;
    InTheWayAt(c, view, root, v, level, target);
  }

  /** The single leaf of `range` now is `paddr` with `flags`, by one change of the
      translation that shows in `range` only. */
  ghost predicate LeafReplaced<W(!new), F(!new)>(
      c: Config<W, F>, root: nat, foreign: map<nat, seq<W>>, dirty: iset<nat>,
      range: AddrRange, level: nat, paddr: nat, flags: F,
      s: Store<W>, view: View<F>, s1: Store<W>, after: View<F>)
    requires level >= 1
  {
    && after == view[c.geo.PathOf(range.start, level - 1) := Leaf(paddr, flags)]
    && Sound(c, s1, after, root, foreign, dirty + AddressesOf(range))
    && OneChange(c, root, s, s1)
    && AgreeOutside(c, root, s.words, s1.words, range)
    && MapsTo(c, root, s1.words, range, paddr, flags)
  }

  lemma {:induction false} ReplaceEffect<W(!new), F(!new)>(
      c: Config<W, F>, s: Store<W>, view: View<F>, root: nat, foreign: map<nat, seq<W>>, dirty: iset<nat>,
      range: AddrRange, level: nat, paddr: nat, flags: F, size: PageSize)
    requires ConfigOk(c) && Sound(c, s, view, root, foreign, dirty)
    requires LeafRequest(c, range, paddr, flags, size, level)
    requires IsTable(view, c.geo.PathOf(range.start, level)) && IsLeaf(view, c.geo.PathOf(range.start, level - 1))
    ensures var s1 := s.Put(view[c.geo.PathOf(range.start, level)].frame, c.geo.IndexAt(level, range.start),
                            c.codec.newLeaf(paddr, flags, size));
            LeafReplaced(c, root, foreign, dirty, range, level, paddr, c.codec.Norm(flags),
                         s, view, s1, view[c.geo.PathOf(range.start, level - 1) := Leaf(paddr, c.codec.Norm(flags))])
  {
    hide Lawful;
    hide AllocatorOk;
    hide DirtyOnly;
    hide TreeOk;
    hide Matches;
    hide Owns;
    hide Xlate;
    hide LeafOk;
    var leaf := c.codec.newLeaf(paddr, flags, size);
    SlotIsChild(c, view, root, range.start, level);
    RequestedLeafOk(c, range, paddr, flags, size, level);
    LeafStep(c, s, view, root, foreign, dirty, range, level, leaf);
    var after: View<F> := view[c.geo.PathOf(range.start, level - 1) := Leaf(paddr, c.codec.Norm(flags))];
    var s1 := s.Put(view[c.geo.PathOf(range.start, level)].frame, c.geo.IndexAt(level, range.start), leaf);
    NoChangeRefl(c, root, s, s);
    NoChangeRefl(c, root, s1, s1);
    OneChangeAt(c, root, s, s, s1, s1);
    LeafMapsBlock(c, root, s1.words, after, range, level);
  }

  /** An aligned base below the address limit leaves room for the whole leaf. */
  lemma {:induction false} AlignedTargetFits<W, F>(c: Config<W, F>, level: nat, paddr: nat)
    requires c.geo.Lawful() && 1 <= level <= c.geo.leafLevels
    requires c.geo.PaddrIsValid(paddr) && paddr % c.geo.Span(level) == 0
    ensures TargetOk(c.geo, level, paddr)
  {
    ShiftMonotone(c.geo, level, c.geo.leafLevels);
    var n := Pow2(c.geo.paBits - c.geo.Shift(level));
    Pow2Add(c.geo.paBits - c.geo.Shift(level), c.geo.Shift(level));
    BelowMultiple(paddr, c.geo.Span(level), n);
  }
}
