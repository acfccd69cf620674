/** What a request that takes many leaves shows, leaf by leaf, and how it ends. */
module Runs {
  import opened Basics
  import opened PageSizes
  import opened Geometries
  import opened Entries
  import opened Memory
  import opened Trie
  import opened Translation
  import opened Histories
  import opened MapWalks
  import opened Pruning
  import opened Tightness
  import opened Tilings
  import opened Requests
  import opened Extents
  import opened Plans
  import opened Walker

  /** Address `v` of the request translates to its extent's address, with `flags`. */
  ghost predicate ShownAt<W, F>(c: Config<W, F>, root: nat, m: map<nat, seq<W>>, q: Request, flags: F, v: nat)
    requires q.range.start <= v
  {
    var target := TargetOf(q.extents, v - q.range.start);
    target.Some? && c.geo.VaddrIsValid(v) && Xlate(c, m, root, v) == Some(Hit(target.value, flags))
  }

  /** `m` translates the first `d` bytes of the request to its extents, and all else like `m0`. */
  ghost predicate Shown<W, F>(
      c: Config<W, F>, root: nat, m0: map<nat, seq<W>>, m: map<nat, seq<W>>, q: Request, flags: F, d: nat) {
    && AgreeOutside(c, root, m0, m, q.First(d))
    && forall v: nat | q.range.start <= v < q.range.start + d :: ShownAt(c, root, m, q, flags, v)
  }

  /** The history from `a` to `b` ends with a write. */
  ghost predicate EndsWithWrite<W>(a: Store<W>, b: Store<W>) {
    |a.log| < |b.log| && b.log[|b.log| - 1] == Wrote(b.words)
  }

  /** After `i` leaves exactly those leaves show, and leaf `i` took a single change of the
      translation. */
  ghost predicate Stage<W, F>(
      c: Config<W, F>, root: nat, s0: Store<W>, q: Request, flags: F, leaves: seq<LeafAt>, i: nat)
    requires i <= |leaves|
  {
    var s := AfterLeaves(c, s0, root, flags, leaves[..i]);
    && Shown(c, root, s0.words, s.words, q, c.codec.Norm(flags), Offset(SizesOf(leaves), i))
    && (i > 0 ==>
          var before := AfterLeaves(c, s0, root, flags, leaves[..i - 1]);
          OneChange(c, root, before, s) && EndsWithWrite(before, s))
  }

  ghost predicate Chained<W, F>(
      c: Config<W, F>, root: nat, s0: Store<W>, q: Request, flags: F, leaves: seq<LeafAt>) {
    forall i: nat | i <= |leaves| :: Stage(c, root, s0, q, flags, leaves, i)
  }

  /** The leaf stands in the tree. */
  ghost predicate Placed<F>(g: Geometry, view: View<F>, flags: F, leaf: LeafAt) {
    var level := g.LevelOfSize(leaf.size);
    level.Some? && level.value >= 1 && At(view, g.PathOf(leaf.start, level.value - 1)) == Leaf(leaf.paddr, flags)
  }

  ghost predicate Kept<F>(before: View<F>, after: View<F>) {
    forall q :: q in before ==> q in after && after[q] == before[q]
  }

  /** Some valid address of `range` is translated. */
  ghost predicate Occupied<W, F>(c: Config<W, F>, root: nat, m: map<nat, seq<W>>, range: AddrRange) {
    exists a: nat :: range.Contains(a) && c.geo.VaddrIsValid(a) && Xlate(c, m, root, a).Some?
  }

  /** The leaves, and nothing else, have been mapped since `s0`. */
  ghost predicate Mapped<W(!new), F(!new)>(
      c: Config<W, F>, root: nat, s0: Store<W>, view0: View<F>, view: View<F>, q: Request, flags: F,
      leaves: seq<LeafAt>) {
    && DoneBytes(leaves) <= q.range.Size()
    && Planned(c.geo, q, leaves)
    && Chained(c, root, s0, q, flags, leaves)
    && MapsNothing(c, root, s0.words, q.First(DoneBytes(leaves)))
    && Kept(view0, view)
    && forall i | 0 <= i < |leaves| :: Placed(c.geo, view, c.codec.Norm(flags), leaves[i])
  }

  /** Between two leaves of a request. */
  ghost predicate Underway<W(!new), F(!new)>(
      c: Config<W, F>, root: nat, s0: Store<W>, view0: View<F>, s: Store<W>, view: View<F>, q: Request, flags: F,
      leaves: seq<LeafAt>) {
    && Mapped(c, root, s0, view0, view, q, flags, leaves)
    && s == AfterLeaves(c, s0, root, flags, leaves)
    && RunRequest(c, s0, root, q, flags, 0) == After(leaves, RunRequest(c, s, root, q, flags, DoneBytes(leaves)))
    && (Tight(view0) ==> Tight(view))
  }

  /** No leaf can be chosen after `done` bytes, or the next one fails its checks. */
  ghost predicate FailsChecks(g: Geometry, q: Request, done: nat, e: PagingError) {
    match NextLeaf(g, q, done)
    case Err(x) => x == e
    case Ok(leaf) => LeafCheck(g, leaf.Range(), leaf.paddr) == Err(e)
  }

  /** How a request ends: with exactly the leaves of its run mapped, all of them on success;
      on failure the next leaf is the one that fails, with that error. The tree loses its
      tightness only if the failing leaf is refused a frame after being granted another. */
  ghost predicate RequestOutcome<W(!new), F(!new)>(
      c: Config<W, F>, root: nat, s0: Store<W>, view0: View<F>, s1: Store<W>, view1: View<F>, q: Request, flags: F,
      r: Result<()>, leaves: seq<LeafAt>) {
    var mid := AfterLeaves(c, s0, root, flags, leaves);
    && (s1, r, leaves) == RunRequest(c, s0, root, q, flags, 0)
    && Mapped(c, root, s0, view0, view1, q, flags, leaves)
    && (r.Ok? ==> DoneBytes(leaves) == q.range.Size() && s1 == mid)
    && (r.Err? ==> DoneBytes(leaves) < q.range.Size()
                   && StopsAt(c, mid, root, q, flags, DoneBytes(leaves), s1, r.error)
                   && (r.error == AlreadyMapped || RefusedLast(c, s1, r.error)
                       || FailsChecks(c.geo, q, DoneBytes(leaves), r.error)))
    && NoChange(c, root, mid, s1)
    && (Tight(view0) ==> (Tight(view1) <==> r.Ok? || !Stranded(c, mid, root, q, flags, DoneBytes(leaves))))
    && (Tight(view0) && r == Err(AlreadyMapped) ==> Occupied(c, root, s0.words, q.range))
  }

  /** What mapping `range` as one leaf does: a failed check changes nothing. */
  ghost predicate LeafEffect<W(!new), F(!new)>(
      c: Config<W, F>, root: nat, foreign: map<nat, seq<W>>, dirty: iset<nat>, range: AddrRange, paddr: nat, flags: F,
      s: Store<W>, view: View<F>, s1: Store<W>, after: View<F>, r: Result<()>)
  {
    && (s1, r) == MapLeafStep(c, s, root, range, paddr, flags)
    && match LeafCheck(c.geo, range, paddr)
       case Err(_) => after == view
       case Ok((size, level)) =>
         && level >= 1 && LeafRequest(c, range, paddr, flags, size, level)
         && MapOutcome(c, root, foreign, dirty, range, paddr, flags, level, s, view, s1, after, r)
  }

  lemma {:induction false} NothingShown<W, F>(
      c: Config<W, F>, root: nat, m: map<nat, seq<W>>, q: Request, flags: F)
    ensures Shown(c, root, m, m, q, flags, 0) && MapsNothing(c, root, m, q.First(0))
  {
    hide Xlate;
  }

  lemma {:induction false} UnderwayStarts<W(!new), F(!new)>(
      c: Config<W, F>, root: nat, s: Store<W>, view: View<F>, q: Request, flags: F)
    ensures Underway(c, root, s, view, s, view, q, flags, [])
  {
    hide Shown;
    hide MapsNothing;
    hide Tight;
    hide RunRequest;
    NothingShown(c, root, s.words, q, c.codec.Norm(flags));
    var rest := RunRequest(c, s, root, q, flags, 0);
    assert [] + rest.2 == rest.2;
    assert SizesOf([]) == [];
    assert Stage(c, root, s, q, flags, [], 0);
  }

  /** One more leaf at the end of what is shown. */
  lemma {:induction false} ShownGrows<W, F>(
      c: Config<W, F>, root: nat, m0: map<nat, seq<W>>, a: map<nat, seq<W>>, b: map<nat, seq<W>>,
      q: Request, flags: F, d: nat, leaf: LeafAt)
    requires Shown(c, root, m0, a, q, flags, d) && leaf.start == q.range.start + d
    requires AgreeOutside(c, root, a, b, leaf.Range()) && MapsTo(c, root, b, leaf.Range(), leaf.paddr, flags)
    requires LinearAt(q, d, leaf)
    ensures Shown(c, root, m0, b, q, flags, d + leaf.size.Bytes())
  {
    hide Xlate;
    hide PageSize.Bytes;
    var n := d + leaf.size.Bytes();
    forall v: nat | c.geo.VaddrIsValid(v) && !q.First(n).Contains(v)
      ensures Xlate(c, m0, root, v) == Xlate(c, b, root, v)
    {
      assert !q.First(d).Contains(v) && !leaf.Range().Contains(v);
    }
    forall v: nat | q.range.start <= v < q.range.start + n ensures ShownAt(c, root, b, q, flags, v) {
      if v < leaf.start {
        assert ShownAt(c, root, a, q, flags, v);
        assert !leaf.Range().Contains(v);
      } else {
        assert leaf.Range().Contains(v);
        assert TargetOf(q.extents, d + (v - leaf.start)) == Some(leaf.paddr + (v - leaf.start));
      }
    }
  }

  /** Within the leaf the request is linear. */
  ghost predicate LinearAt(q: Request, d: nat, leaf: LeafAt) {
    forall off: nat | d <= off < d + leaf.size.Bytes() :: TargetOf(q.extents, off) == Some(leaf.paddr + (off - d))
  }

  /** What was free after the part shown was free before. */
  lemma {:induction false} FreeGrows<W, F>(
      c: Config<W, F>, root: nat, m0: map<nat, seq<W>>, a: map<nat, seq<W>>, q: Request, flags: F, d: nat, leaf: LeafAt)
    requires Shown(c, root, m0, a, q, flags, d) && MapsNothing(c, root, m0, q.First(d))
    requires leaf.start == q.range.start + d && MapsNothing(c, root, a, leaf.Range())
    ensures MapsNothing(c, root, m0, q.First(d + leaf.size.Bytes()))
  {
    hide Xlate;
    hide PageSize.Bytes;
    forall v: nat | q.First(d + leaf.size.Bytes()).Contains(v)
      ensures c.geo.VaddrIsValid(v) && Xlate(c, m0, root, v) == None
    {
      if !q.First(d).Contains(v) {
        assert leaf.Range().Contains(v);
      }
    }
  }

  /** Where a leaf has just been mapped there was nothing before. */
  lemma {:induction false} MappedWasFree<W(!new), F(!new)>(
      c: Config<W, F>, root: nat, foreign: map<nat, seq<W>>, dirty: iset<nat>,
      range: AddrRange, paddr: nat, flags: F, size: PageSize, target: nat,
      s: Store<W>, view: View<F>, s1: Store<W>, after: View<F>)
    requires ConfigOk(c) && Sound(c, s, view, root, foreign, dirty)
    requires LeafRequest(c, range, paddr, flags, size, target)
    requires MapOutcome(c, root, foreign, dirty, range, paddr, flags, target, s, view, s1, after, Ok(()))
    ensures MapsNothing(c, root, s.words, range)
  {
    hide Lawful;
    hide AllocatorOk;
    hide Represents;
    hide Sound;
    hide IsBlock;
    SoundTree(c, s, view, root, foreign, dirty);
    assert !InTheWay(c.geo, view, range.start, target);
    RequestLevel(c, range, paddr, flags, size, target);
    EmptyMapsNothing(c, root, s.words, view, range, target);
  }

  /** The parts of a map's outcome that a request builds on. */
  lemma {:induction false} OutcomeParts<W(!new), F(!new)>(
      c: Config<W, F>, root: nat, foreign: map<nat, seq<W>>, dirty: iset<nat>,
      range: AddrRange, paddr: nat, flags: F, target: nat,
      s: Store<W>, view: View<F>, s1: Store<W>, after: View<F>, r: Result<()>)
    requires target >= 1
    requires MapOutcome(c, root, foreign, dirty, range, paddr, flags, target, s, view, s1, after, r)
    ensures Kept(view, after)
    ensures r.Err? ==> NoChange(c, root, s, s1)
    ensures r.Ok? ==> OneChange(c, root, s, s1) && AgreeOutside(c, root, s.words, s1.words, range)
                      && MapsTo(c, root, s1.words, range, paddr, c.codec.Norm(flags))
                      && At(after, c.geo.PathOf(range.start, target - 1)) == Leaf(paddr, c.codec.Norm(flags))
  {
    hide Sound;
    hide InTheWay;
    hide OneChange;
    hide NoChange;
    hide AgreeOutside;
    hide MapsTo;
    hide RefusedLast;
    hide RefusesNext;
  }

  /** A successful walk ends with the write of the leaf. */
  lemma {:induction false} WalkEndsWithWrite<W, F>(
      c: Config<W, F>, s: Store<W>, frame: nat, level: nat, target: nat, v: nat, leaf: W)
    ensures var (s1, r) := MapWalk(c, s, frame, level, target, v, leaf); r.Ok? ==> EndsWithWrite(s, s1)
    decreases level
  {
    hide ConfigOk;
    if level > target {
      var (s1, r1) := StepDown(c, s, frame, level, v);
      if r1.Ok? {
        WalkEndsWithWrite(c, s1, r1.value, level - 1, target, v, leaf);
      }
    }
  }

  /** A range of `size` bytes passes the checks as that size only. */
  lemma {:induction false} CheckedSize(g: Geometry, range: AddrRange, paddr: nat, size: PageSize)
    requires range.Size() == size.Bytes()
    ensures LeafCheck(g, range, paddr).Ok? ==>
              && LeafCheck(g, range, paddr).value.0 == size
              && g.LevelOfSize(size) == Some(LeafCheck(g, range, paddr).value.1)
  {
    SameBytes(size, FromBytes(range.Size()).value);
  }

  lemma {:induction false} SameBytes(s: PageSize, t: PageSize)
    ensures s.Bytes() == t.Bytes() <==> s == t
  {
  }

  /** A mapped leaf extends the chain. */
  lemma {:induction false} ChainGrows<W, F>(
      c: Config<W, F>, root: nat, s0: Store<W>, q: Request, flags: F, leaves: seq<LeafAt>, leaf: LeafAt)
    requires Chained(c, root, s0, q, flags, leaves)
    requires var s, all := AfterLeaves(c, s0, root, flags, leaves), leaves + [leaf];
             var s1 := AfterLeaves(c, s0, root, flags, all);
             && Shown(c, root, s0.words, s1.words, q, c.codec.Norm(flags), DoneBytes(all))
             && OneChange(c, root, s, s1) && EndsWithWrite(s, s1)
    ensures Chained(c, root, s0, q, flags, leaves + [leaf])
  {
    hide Shown;
    hide OneChange;
    hide AfterLeaves;
    hide EndsWithWrite;
    var all := leaves + [leaf];
    SizesAppend(leaves, leaf);
    forall i: nat | i <= |all| ensures Stage(c, root, s0, q, flags, all, i) {
      if i <= |leaves| {
        assert all[..i] == leaves[..i];
        assert i > 0 ==> all[..i - 1] == leaves[..i - 1];
        assert Stage(c, root, s0, q, flags, leaves, i);
      } else {
        assert all[..i] == all && all[..i - 1] == leaves;
      }
    }
  }

  lemma {:induction false} ShownNow<W, F>(
      c: Config<W, F>, root: nat, s0: Store<W>, q: Request, flags: F, leaves: seq<LeafAt>)
    requires Chained(c, root, s0, q, flags, leaves)
    ensures Shown(c, root, s0.words, AfterLeaves(c, s0, root, flags, leaves).words, q, c.codec.Norm(flags),
                  DoneBytes(leaves))
  {
    hide Shown;
    assert leaves[..|leaves|] == leaves;
    assert Stage(c, root, s0, q, flags, leaves, |leaves|);
  }

  /** Mapping the next leaf of the request. */
  lemma {:induction false} MappedGrows<W(!new), F(!new)>(
      c: Config<W, F>, root: nat, foreign: map<nat, seq<W>>, dirty: iset<nat>,
      s0: Store<W>, view0: View<F>, s: Store<W>, view: View<F>, s1: Store<W>, after: View<F>,
      q: Request, flags: F, leaves: seq<LeafAt>, leaf: LeafAt)
    requires ConfigOk(c) && Sound(c, s, view, root, foreign, dirty)
    requires Mapped(c, root, s0, view0, view, q, flags, leaves) && s == AfterLeaves(c, s0, root, flags, leaves)
    requires NextLeaf(c.geo, q, DoneBytes(leaves)) == Ok(leaf) && LinearAt(q, DoneBytes(leaves), leaf)
    requires DoneBytes(leaves) + leaf.size.Bytes() <= q.range.Size()
    requires LeafEffect(c, root, foreign, dirty, leaf.Range(), leaf.paddr, flags, s, view, s1, after, Ok(()))
    ensures Mapped(c, root, s0, view0, after, q, flags, leaves + [leaf])
    ensures s1 == AfterLeaves(c, s0, root, flags, leaves + [leaf])
  {
    hide Lawful;
    hide AllocatorOk;
    hide Sound;
    hide MapOutcome;
    hide LeafRequest;
    hide OneChange;
    hide AgreeOutside;
    hide MapsTo;
    hide MapsNothing;
    hide Shown;
    hide Chained;
    hide Planned;
    hide LinearAt;
    hide LeafCheck;
    hide MapWalk;
    hide EndsWithWrite;
    hide ConfigOk;
    hide AfterLeaves;
    var d, range := DoneBytes(leaves), leaf.Range();
    var norm := c.codec.Norm(flags);
    StartOfLeaf(c.geo, q, d, leaf);
    CheckedSize(c.geo, range, leaf.paddr, leaf.size);
    assert LeafCheck(c.geo, range, leaf.paddr).Ok?;
    var (size, level) := LeafCheck(c.geo, range, leaf.paddr).value;
    MappedWasFree(c, root, foreign, dirty, range, leaf.paddr, flags, size, level, s, view, s1, after);
    OutcomeParts(c, root, foreign, dirty, range, leaf.paddr, flags, level, s, view, s1, after, Ok(()));
    WalkEndsWithWrite(c, s, root, c.geo.levels, level, range.start, c.codec.newLeaf(leaf.paddr, flags, size));
    ShownNow(c, root, s0, q, flags, leaves);
    ShownGrows(c, root, s0.words, s.words, s1.words, q, norm, d, leaf);
    FreeGrows(c, root, s0.words, s.words, q, norm, d, leaf);
    SizesAppend(leaves, leaf);
    AfterAppend(c, s0, root, flags, leaves, leaf);
    PlannedAppend(c.geo, q, leaves, leaf);
    ChainGrows(c, root, s0, q, flags, leaves, leaf);
    PlacedGrows(c.geo, view, after, norm, leaves, leaf, level);
  }

  lemma {:induction false} StartOfLeaf(g: Geometry, q: Request, d: nat, leaf: LeafAt)
    requires NextLeaf(g, q, d) == Ok(leaf)
    ensures leaf.start == q.range.start + d && leaf.Range().Size() == leaf.size.Bytes()
  {
  }

  lemma {:induction false} PlacedGrows<F>(
      g: Geometry, view: View<F>, after: View<F>, flags: F, leaves: seq<LeafAt>, leaf: LeafAt, level: nat)
    requires Kept(view, after) && g.LevelOfSize(leaf.size) == Some(level) && level >= 1
    requires forall i | 0 <= i < |leaves| :: Placed(g, view, flags, leaves[i])
    requires At(after, g.PathOf(leaf.start, level - 1)) == Leaf(leaf.paddr, flags)
    ensures forall i | 0 <= i < |leaves + [leaf]| :: Placed(g, after, flags, (leaves + [leaf])[i])
  {
    var all := leaves + [leaf];
    forall i | 0 <= i < |all| ensures Placed(g, after, flags, all[i]) {
      if i < |leaves| {
        assert Placed(g, view, flags, leaves[i]);
      }
    }
  }

  /** A failing leaf keeps what was mapped before it. */
  lemma {:induction false} MappedStays<W(!new), F(!new)>(
      c: Config<W, F>, root: nat, s0: Store<W>, view0: View<F>, view: View<F>, after: View<F>, q: Request, flags: F,
      leaves: seq<LeafAt>)
    requires Mapped(c, root, s0, view0, view, q, flags, leaves) && Kept(view, after)
    ensures Mapped(c, root, s0, view0, after, q, flags, leaves)
  {
    hide Chained;
    hide Planned;
    hide MapsNothing;
    forall i | 0 <= i < |leaves| ensures Placed(c.geo, after, c.codec.Norm(flags), leaves[i]) {
      assert Placed(c.geo, view, c.codec.Norm(flags), leaves[i]);
    }
  }

  lemma {:induction false} OutcomeErrors<W(!new), F(!new)>(
      c: Config<W, F>, root: nat, foreign: map<nat, seq<W>>, dirty: iset<nat>,
      range: AddrRange, paddr: nat, flags: F, target: nat,
      s: Store<W>, view: View<F>, s1: Store<W>, after: View<F>, r: Result<()>)
    requires target >= 1
    requires MapOutcome(c, root, foreign, dirty, range, paddr, flags, target, s, view, s1, after, r)
    ensures r.Err? ==> r.error in {AlreadyMapped, OutOfMemory, NotAligned}
    ensures r.Err? && r.error != AlreadyMapped ==> RefusedLast(c, s1, r.error)
  {
    hide RefusedLast;
  }

  lemma {:induction false} CheckErrors(g: Geometry, range: AddrRange, paddr: nat)
    ensures LeafCheck(g, range, paddr).Err? ==> LeafCheck(g, range, paddr).error != AlreadyMapped
  {
  }

  /** What a leaf does to tightness, exactly, and that a refused leaf is a real conflict. */
  lemma {:induction false} LeafTight<W(!new), F(!new)>(
      c: Config<W, F>, root: nat, foreign: map<nat, seq<W>>, dirty: iset<nat>, range: AddrRange, paddr: nat, flags: F,
      s: Store<W>, view: View<F>, s1: Store<W>, after: View<F>, r: Result<()>)
    requires ConfigOk(c) && Sound(c, s, view, root, foreign, dirty) && Tight(view)
    requires LeafEffect(c, root, foreign, dirty, range, paddr, flags, s, view, s1, after, r)
    ensures Tight(after) <==>
            r.Ok? || LeafCheck(c.geo, range, paddr).Err? || r.error == AlreadyMapped || RefusesNext(c, s)
    ensures r == Err(AlreadyMapped) ==> Occupied(c, root, s.words, range)
  {
    hide Lawful;
    hide AllocatorOk;
    hide Sound;
    hide LeafRequest;
    hide Tight;
    hide Xlate;
    hide MapOutcome;
    hide LeafCheck;
    hide MapWalk;
    hide RefusesNext;
    CheckErrors(c.geo, range, paddr);
    match LeafCheck(c.geo, range, paddr)
    case Err(_) =>
    case Ok((size, level)) =>
      RequestLevel(c, range, paddr, flags, size, level);
      TightIffNotStranded(c, root, foreign, dirty, range, paddr, flags, level, s, view, s1, after, r);
      if r == Err(AlreadyMapped) {
        RefusedIffTranslated(c, root, foreign, dirty, range, paddr, flags, size, level, s, view, s1, after, r);
        ValidConflict(c, root, s.words, range, paddr, flags, size, level);
      }
  }

  lemma {:induction false} ValidConflict<W(!new), F(!new)>(
      c: Config<W, F>, root: nat, m: map<nat, seq<W>>, range: AddrRange, paddr: nat, flags: F, size: PageSize,
      level: nat)
    requires ConfigOk(c) && LeafRequest(c, range, paddr, flags, size, level)
    requires exists a: nat :: range.Contains(a) && Xlate(c, m, root, a).Some?
    ensures Occupied(c, root, m, range)
  {
    hide Lawful;
    hide AllocatorOk;
    hide Xlate;
    hide IsBlock;
    hide Canonical;
    var a: nat :| range.Contains(a) && Xlate(c, m, root, a).Some?;
    BlockIsValid(c.geo, range, level, a);
  }

  /** An address that is taken when its leaf's turn comes was taken all along. */
  lemma {:induction false} OccupiedBefore<W, F>(
      c: Config<W, F>, root: nat, m0: map<nat, seq<W>>, m: map<nat, seq<W>>, q: Request, flags: F, d: nat, leaf: LeafAt)
    requires Shown(c, root, m0, m, q, flags, d) && leaf.start == q.range.start + d
    requires d + leaf.size.Bytes() <= q.range.Size() && Occupied(c, root, m, leaf.Range())
    ensures Occupied(c, root, m0, q.range)
  {
    hide Xlate;
    hide ShownAt;
    hide PageSize.Bytes;
    var a: nat :| leaf.Range().Contains(a) && c.geo.VaddrIsValid(a) && Xlate(c, m, root, a).Some?;
    assert !q.First(d).Contains(a) && q.range.Contains(a);
  }

  /** One more leaf. */
  lemma {:induction false} UnderwayGrows<W(!new), F(!new)>(
      c: Config<W, F>, root: nat, foreign: map<nat, seq<W>>, dirty: iset<nat>,
      s0: Store<W>, view0: View<F>, s: Store<W>, view: View<F>, s1: Store<W>, after: View<F>,
      q: Request, flags: F, leaves: seq<LeafAt>, leaf: LeafAt)
    requires ConfigOk(c) && Sound(c, s, view, root, foreign, dirty)
    requires Underway(c, root, s0, view0, s, view, q, flags, leaves)
    requires NextLeaf(c.geo, q, DoneBytes(leaves)) == Ok(leaf) && LinearAt(q, DoneBytes(leaves), leaf)
    requires DoneBytes(leaves) + leaf.size.Bytes() <= q.range.Size()
    requires LeafEffect(c, root, foreign, dirty, leaf.Range(), leaf.paddr, flags, s, view, s1, after, Ok(()))
    ensures Underway(c, root, s0, view0, s1, after, q, flags, leaves + [leaf])
  {
    hide Lawful;
    hide AllocatorOk;
    hide Sound;
    hide Mapped;
    hide NextLeaf;
    hide LinearAt;
    hide Tight;
    hide AfterLeaves;
    hide RunRequest;
    hide MapOutcome;
    hide LeafRequest;
    hide LeafCheck;
    hide MapLeafStep;
    MappedGrows(c, root, foreign, dirty, s0, view0, s, view, s1, after, q, flags, leaves, leaf);
    RunGoesOn(c, s0, s, root, q, flags, leaves, leaf);
    if Tight(view0) {
      LeafTight(c, root, foreign, dirty, leaf.Range(), leaf.paddr, flags, s, view, s1, after, Ok(()));
    }
  }

  /** The leaf that fails ends the request. */
  lemma {:induction false} UnderwayFails<W(!new), F(!new)>(
      c: Config<W, F>, root: nat, foreign: map<nat, seq<W>>, dirty: iset<nat>,
      s0: Store<W>, view0: View<F>, s: Store<W>, view: View<F>, s1: Store<W>, after: View<F>,
      q: Request, flags: F, leaves: seq<LeafAt>, leaf: LeafAt, r: Result<()>)
    requires ConfigOk(c) && Sound(c, s, view, root, foreign, dirty) && r.Err?
    requires Underway(c, root, s0, view0, s, view, q, flags, leaves)
    requires NextLeaf(c.geo, q, DoneBytes(leaves)) == Ok(leaf)
    requires DoneBytes(leaves) + leaf.size.Bytes() <= q.range.Size()
    requires LeafEffect(c, root, foreign, dirty, leaf.Range(), leaf.paddr, flags, s, view, s1, after, r)
    ensures RequestOutcome(c, root, s0, view0, s1, after, q, flags, r, leaves)
  {
    hide Lawful;
    hide AllocatorOk;
    hide Sound;
    hide NextLeaf;
    hide Tight;
    hide AfterLeaves;
    hide RunRequest;
    hide MapLeafStep;
    hide LeafEffect;
    hide NoChange;
    hide Mapped;
    hide Shown;
    hide Occupied;
    hide RefusedLast;
    hide LeafCheck;
    StepOfEffect(c, root, foreign, dirty, leaf.Range(), leaf.paddr, flags, s, view, s1, after, r);
    FailedLeaf(c, root, foreign, dirty, leaf.Range(), leaf.paddr, flags, s, view, s1, after, r);
    MappedStays(c, root, s0, view0, view, after, q, flags, leaves);
    RunGoesOn(c, s0, s, root, q, flags, leaves, leaf);
    if Tight(view0) {
      LeafTight(c, root, foreign, dirty, leaf.Range(), leaf.paddr, flags, s, view, s1, after, r);
      if r == Err(AlreadyMapped) {
        FirstShown(c, root, s0, view0, view, q, flags, leaves, leaf);
        OccupiedBefore(c, root, s0.words, s.words, q, c.codec.Norm(flags), DoneBytes(leaves), leaf);
      }
    }
  }

  lemma {:induction false} StepOfEffect<W(!new), F(!new)>(
      c: Config<W, F>, root: nat, foreign: map<nat, seq<W>>, dirty: iset<nat>, range: AddrRange, paddr: nat, flags: F,
      s: Store<W>, view: View<F>, s1: Store<W>, after: View<F>, r: Result<()>)
    requires LeafEffect(c, root, foreign, dirty, range, paddr, flags, s, view, s1, after, r)
    ensures (s1, r) == MapLeafStep(c, s, root, range, paddr, flags)
  {
  }

  lemma {:induction false} FirstShown<W(!new), F(!new)>(
      c: Config<W, F>, root: nat, s0: Store<W>, view0: View<F>, view: View<F>, q: Request, flags: F,
      leaves: seq<LeafAt>, leaf: LeafAt)
    requires Mapped(c, root, s0, view0, view, q, flags, leaves) && NextLeaf(c.geo, q, DoneBytes(leaves)) == Ok(leaf)
    ensures Shown(c, root, s0.words, AfterLeaves(c, s0, root, flags, leaves).words, q, c.codec.Norm(flags),
                  DoneBytes(leaves))
    ensures leaf.start == q.range.start + DoneBytes(leaves)
  {
    hide Chained;
    hide Shown;
    ShownNow(c, root, s0, q, flags, leaves);
  }

  lemma {:induction false} FailedLeaf<W(!new), F(!new)>(
      c: Config<W, F>, root: nat, foreign: map<nat, seq<W>>, dirty: iset<nat>, range: AddrRange, paddr: nat, flags: F,
      s: Store<W>, view: View<F>, s1: Store<W>, after: View<F>, r: Result<()>)
    requires LeafEffect(c, root, foreign, dirty, range, paddr, flags, s, view, s1, after, r) && r.Err?
    ensures NoChange(c, root, s, s1) && Kept(view, after)
    ensures r.error == AlreadyMapped || RefusedLast(c, s1, r.error) || LeafCheck(c.geo, range, paddr) == Err(r.error)
  {
    hide RefusedLast;
    hide MapOutcome;
    hide LeafRequest;
    hide LeafCheck;
    hide MapWalk;
    hide NoChange;
    match LeafCheck(c.geo, range, paddr)
    case Err(_) => NoChangeRefl(c, root, s, s1);
    case Ok((_, level)) =>
      OutcomeParts(c, root, foreign, dirty, range, paddr, flags, level, s, view, s1, after, r);
      OutcomeErrors(c, root, foreign, dirty, range, paddr, flags, level, s, view, s1, after, r);
  }

  /** Without a next leaf the request ends. */
  lemma {:induction false} UnderwayStuck<W(!new), F(!new)>(
      c: Config<W, F>, root: nat, s0: Store<W>, view0: View<F>, s: Store<W>, view: View<F>, q: Request, flags: F,
      leaves: seq<LeafAt>, e: PagingError)
    requires Underway(c, root, s0, view0, s, view, q, flags, leaves) && DoneBytes(leaves) < q.range.Size()
    requires NextLeaf(c.geo, q, DoneBytes(leaves)) == Err(e)
    ensures RequestOutcome(c, root, s0, view0, s, view, q, flags, Err(e), leaves)
  {
    hide Mapped;
    hide NextLeaf;
    hide Tight;
    hide AfterLeaves;
    hide RunRequest;
    hide NoChange;
    NoChoiceIsNoConflict(c.geo, q, DoneBytes(leaves));
    NoChangeRefl(c, root, s, s);
    RunEndsHere(c, s0, s, root, q, flags, leaves);
  }

  lemma {:induction false} NoChoiceIsNoConflict(g: Geometry, q: Request, d: nat)
    ensures NextLeaf(g, q, d).Err? ==> NextLeaf(g, q, d).error in {InvalidMappingShape, UnsupportedSize}
  {
    hide BestSize;
  }

  /** With everything mapped the request succeeds. */
  lemma {:induction false} UnderwayEnds<W(!new), F(!new)>(
      c: Config<W, F>, root: nat, s0: Store<W>, view0: View<F>, s: Store<W>, view: View<F>, q: Request, flags: F,
      leaves: seq<LeafAt>)
    requires Underway(c, root, s0, view0, s, view, q, flags, leaves) && DoneBytes(leaves) == q.range.Size()
    ensures RequestOutcome(c, root, s0, view0, s, view, q, flags, Ok(()), leaves)
  {
    hide Mapped;
    hide Tight;
    hide AfterLeaves;
    hide RunRequest;
    hide NoChange;
    NoChangeRefl(c, root, s, s);
    RunEndsHere(c, s0, s, root, q, flags, leaves);
  }

  /** Equal translations show the same. */
  lemma {:induction false} SameShown<W, F>(
      c: Config<W, F>, root: nat, m0: map<nat, seq<W>>, a: map<nat, seq<W>>, b: map<nat, seq<W>>,
      q: Request, flags: F, d: nat)
    requires Shown(c, root, m0, a, q, flags, d) && Agree(c, root, b, a)
    ensures Shown(c, root, m0, b, q, flags, d)
  {
    hide Xlate;
    forall v: nat | q.range.start <= v < q.range.start + d ensures ShownAt(c, root, b, q, flags, v) {
      assert ShownAt(c, root, a, q, flags, v);
    }
  }

  lemma {:induction false} ChainPrefix<W, F>(
      c: Config<W, F>, root: nat, s0: Store<W>, q: Request, flags: F, leaves: seq<LeafAt>)
    requires leaves != [] && Chained(c, root, s0, q, flags, leaves)
    ensures Chained(c, root, s0, q, flags, leaves[..|leaves| - 1])
  {
    hide Shown;
    hide OneChange;
    hide AfterLeaves;
    hide EndsWithWrite;
    var rest, last := leaves[..|leaves| - 1], leaves[|leaves| - 1];
    assert rest + [last] == leaves;
    SizesAppend(rest, last);
    forall i: nat | i <= |rest| ensures Stage(c, root, s0, q, flags, rest, i) {
      assert rest[..i] == leaves[..i];
      assert i > 0 ==> rest[..i - 1] == leaves[..i - 1];
      assert Stage(c, root, s0, q, flags, leaves, i);
    }
  }

  /** The writes of one leaf: first the state before it shows, then the state after it. */
  lemma {:induction false} LeafWrites<W, F>(
      c: Config<W, F>, root: nat, m0: map<nat, seq<W>>, a: Store<W>, b: Store<W>, q: Request, flags: F, d: nat, e: nat)
      returns (turn: nat)
    requires OneChange(c, root, a, b) && EndsWithWrite(a, b)
    requires Shown(c, root, m0, a.words, q, flags, d) && Shown(c, root, m0, b.words, q, flags, e)
    ensures a.log <= b.log && |a.log| <= turn < |b.log|
    ensures forall k: nat | |a.log| <= k < |b.log| && b.log[k].Wrote? ::
              Shown(c, root, m0, b.log[k].words, q, flags, if k < turn then d else e)
  {
    hide Xlate;
    hide Shown;
    hide Agree;
    var j: nat :| |a.log| <= j <= |b.log| && Quiet(c, root, b.log, |a.log|, j, a.words)
                  && Quiet(c, root, b.log, j, |b.log|, b.words);
    turn := if j < |b.log| then j else |b.log| - 1;
    forall k: nat | |a.log| <= k < |b.log| && b.log[k].Wrote?
      ensures Shown(c, root, m0, b.log[k].words, q, flags, if k < turn then d else e)
    {
      if k < turn {
        SameShown(c, root, m0, a.words, b.log[k].words, q, flags, d);
      } else if k >= j {
        SameShown(c, root, m0, b.words, b.log[k].words, q, flags, e);
      }
    }
  }

  /** Write `k` of the history shows `stages[k]` leaves. */
  ghost predicate ShowsStages<W, F>(
      c: Config<W, F>, root: nat, s0: Store<W>, s1: Store<W>, q: Request, flags: F, leaves: seq<LeafAt>,
      stages: seq<nat>) {
    && s0.log <= s1.log && |stages| == |s1.log| - |s0.log|
    && forall k: nat | k < |stages| && s1.log[|s0.log| + k].Wrote? ::
         ShowsStage(c, root, s0, s1, q, flags, leaves, stages, k)
  }

  ghost predicate ShowsStage<W, F>(
      c: Config<W, F>, root: nat, s0: Store<W>, s1: Store<W>, q: Request, flags: F, leaves: seq<LeafAt>,
      stages: seq<nat>, k: nat)
    requires k < |stages| == |s1.log| - |s0.log| && s1.log[|s0.log| + k].Wrote?
  {
    && stages[k] <= |leaves|
    && Shown(c, root, s0.words, s1.log[|s0.log| + k].words, q, c.codec.Norm(flags), Offset(SizesOf(leaves), stages[k]))
  }

  /** Never falling, and rising by one at a time from zero to `n`. */
  ghost predicate Climbs(stages: seq<nat>, n: nat) {
    && (stages != [] ==> stages[0] <= 1 && stages[|stages| - 1] == n)
    && (stages == [] ==> n == 0)
    && forall k | 0 <= k < |stages| - 1 :: stages[k] <= stages[k + 1] <= stages[k] + 1
  }

  lemma {:induction false} ClimbsOn(stages: seq<nat>, n: nat, count: nat, turn: nat)
    requires Climbs(stages, n) && turn < count
    ensures Climbs(stages + seq(count, k => if k < turn then n else n + 1), n + 1)
  {
    var more := seq(count, k => if k < turn then n else n + 1);
    var all := stages + more;
    forall k | 0 <= k < |all| - 1 ensures all[k] <= all[k + 1] <= all[k] + 1 {
      if k + 1 < |stages| {
        assert stages[k] <= stages[k + 1] <= stages[k] + 1;
      }
    }
  }

  /** The stages of all leaves but the last, and then those of the last. */
  lemma {:induction false} StagesJoin<W, F>(
      c: Config<W, F>, root: nat, s0: Store<W>, a: Store<W>, b: Store<W>, q: Request, flags: F, rest: seq<LeafAt>,
      last: LeafAt, before: seq<nat>, turn: nat)
    requires ShowsStages(c, root, s0, a, q, flags, rest, before) && a.log <= b.log && |a.log| <= turn
    requires forall k: nat | |a.log| <= k < |b.log| && b.log[k].Wrote? ::
               Shown(c, root, s0.words, b.log[k].words, q, c.codec.Norm(flags),
                     if k < turn then DoneBytes(rest) else DoneBytes(rest + [last]))
    ensures ShowsStages(c, root, s0, b, q, flags, rest + [last],
                        before + seq(|b.log| - |a.log|, k => if k < turn - |a.log| then |rest| else |rest| + 1))
  {
    hide Shown;
    var all := rest + [last];
    var stages := before + seq(|b.log| - |a.log|, k => if k < turn - |a.log| then |rest| else |rest| + 1);
    SizesAppend(rest, last);
    forall k: nat | k < |stages| && b.log[|s0.log| + k].Wrote?
      ensures ShowsStage(c, root, s0, b, q, flags, all, stages, k)
    {
      if k < |before| {
        assert b.log[|s0.log| + k] == a.log[|s0.log| + k];
        assert ShowsStage(c, root, s0, a, q, flags, rest, before, k);
      }
    }
  }

  /** Every write of a request shows a whole number of leaves, in order, one more at a time. */
  lemma {:induction false} WritesInOrder<W, F>(
      c: Config<W, F>, root: nat, s0: Store<W>, q: Request, flags: F, leaves: seq<LeafAt>) returns (stages: seq<nat>)
    requires Chained(c, root, s0, q, flags, leaves)
    ensures ShowsStages(c, root, s0, AfterLeaves(c, s0, root, flags, leaves), q, flags, leaves, stages)
    ensures Climbs(stages, |leaves|)
    decreases |leaves|
  {
    hide Shown;
    hide OneChange;
    hide EndsWithWrite;
    hide MapLeafStep;
    hide ShowsStage;
    hide Climbs;
    if leaves == [] {
      stages := [];
      NoStages();
    } else {
      var n := |leaves| - 1;
      var rest := leaves[..n];
      ChainPrefix(c, root, s0, q, flags, leaves);
      var before := WritesInOrder(c, root, s0, q, flags, rest);
      var a, b := AfterLeaves(c, s0, root, flags, rest), AfterLeaves(c, s0, root, flags, leaves);
      assert rest + [leaves[n]] == leaves && leaves[..n + 1] == leaves;
      SizesAppend(rest, leaves[n]);
      assert Stage(c, root, s0, q, flags, leaves, n) && Stage(c, root, s0, q, flags, leaves, n + 1);
      var d, e := DoneBytes(rest), DoneBytes(leaves);
      var turn := LeafWrites(c, root, s0.words, a, b, q, c.codec.Norm(flags), d, e);
      ClimbsOn(before, n, |b.log| - |a.log|, turn - |a.log|);
      StagesJoin(c, root, s0, a, b, q, flags, rest, leaves[n], before, turn);
      stages := before + seq(|b.log| - |a.log|, k => if k < turn - |a.log| then n else n + 1);
    }
  }

  lemma {:induction false} NoStages()
    ensures Climbs([], 0)
  {
  }
}
