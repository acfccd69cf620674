/** What a request that fails leaves behind. */
module Failures {
  import opened Basics
  import opened PageSizes
  import opened Geometries
  import opened Entries
  import opened Memory
  import opened Trie
  import opened Translation
  import opened Histories
  import opened MapWalks
  import opened Pruning
  import opened Descents
  import opened Walker
  import opened Tilings
  import opened Requests
  import opened Extents
  import opened Plans
  import opened Runs
  import opened Answers

  /** A walk that is refused the first frame it asks for writes nothing. */
  lemma {:induction false} RefusedWritesNothing<W, F>(
      c: Config<W, F>, s: Store<W>, frame: nat, level: nat, target: nat, v: nat, leaf: W)
    requires RefusesNext(c, s)
    ensures var (s1, r) := MapWalk(c, s, frame, level, target, v, leaf); r.Err? ==> s1.words == s.words
    decreases level
  {
    hide RefusesNext;
    if level > target {
      WalkStepsDown(c, s, frame, level, target, v, leaf);
      RefusedStep(c, s, frame, level, v);
      var (s1, r) := StepDown(c, s, frame, level, v);
      if r.Ok? {
        RefusedWritesNothing(c, s1, r.value, level - 1, target, v, leaf);
      }
    }
  }

  lemma {:induction false} RefusedStep<W, F>(c: Config<W, F>, s: Store<W>, frame: nat, level: nat, v: nat)
    requires RefusesNext(c, s)
    ensures var (s1, r) := StepDown(c, s, frame, level, v); if r.Ok? then s1 == s else s1.words == s.words
  {
  }

  /** A leaf that fails leaves memory alone, unless a frame is refused after another has been
      granted. */
  lemma {:induction false} FailedLeafIff<W(!new), F(!new)>(
      c: Config<W, F>, s: Store<W>, view: View<F>, root: nat, foreign: map<nat, seq<W>>, dirty: iset<nat>,
      range: AddrRange, paddr: nat, flags: F)
    requires ConfigOk(c) && Sound(c, s, view, root, foreign, dirty) && range.Valid() && c.codec.encodable(flags)
    ensures var (s1, r) := MapLeafStep(c, s, root, range, paddr, flags);
            r.Err? ==>
              (s1.words != s.words <==>
                 LeafCheck(c.geo, range, paddr).Ok? && r.error != AlreadyMapped && !RefusesNext(c, s))
  {
    hide Lawful;
    hide AllocatorOk;
    hide Sound;
    hide Represents;
    hide LeafCheck;
    hide LeafRequest;
    hide MapWalk;
    hide RefusesNext;
    hide RefusedLast;
    hide InTheWay;
    hide Grew;
    hide NoChange;
    hide OneChange;
    CheckedLeaf(c, range, paddr, flags);
    match LeafCheck(c.geo, range, paddr)
    case Err(_) =>
    case Ok((size, level)) =>
      var after := WalkPlan(c, s, view, root, foreign, dirty, range, paddr, flags, size, level);
      var (s1, r) := MapLeafStep(c, s, root, range, paddr, flags);
      if r.Err? {
        if RefusesNext(c, s) {
          RefusedWritesNothing(c, s, root, c.geo.levels, level, range.start, c.codec.newLeaf(paddr, flags, size));
        } else if s1.words == s.words {
          SoundTree(c, s, view, root, foreign, dirty);
          SoundTree(c, s1, after, root, foreign, dirty);
          SameTree(c, s.words, view, after, root);
        }
      }
  }

  /** The first byte of a request shows as soon as one leaf has been mapped. */
  lemma {:induction false} MappedShows<W(!new), F(!new)>(
      c: Config<W, F>, root: nat, s0: Store<W>, view0: View<F>, view1: View<F>, q: Request, flags: F,
      leaves: seq<LeafAt>, s1: Store<W>)
    requires Mapped(c, root, s0, view0, view1, q, flags, leaves) && leaves != []
    requires NoChange(c, root, AfterLeaves(c, s0, root, flags, leaves), s1)
    ensures s1.words != s0.words
  {
    hide Xlate;
    hide Chained;
    hide AfterLeaves;
    hide Planned;
    hide PageSize.Bytes;
    var mid, v := AfterLeaves(c, s0, root, flags, leaves), q.range.start;
    ShownNow(c, root, s0, q, flags, leaves);
    SizesAppend(leaves[..|leaves| - 1], leaves[|leaves| - 1]);
    assert leaves[..|leaves| - 1] + [leaves[|leaves| - 1]] == leaves;
    assert ShownAt(c, root, mid.words, q, c.codec.Norm(flags), v);
    assert q.First(DoneBytes(leaves)).Contains(v);
    assert Xlate(c, s1.words, root, v) == Xlate(c, mid.words, root, v);
  }

  /** A request that fails has written nothing if and only if its very first leaf failed, and
      not for a frame refused after another had been granted. */
  lemma {:induction false} UntouchedIff<W(!new), F(!new)>(
      c: Config<W, F>, root: nat, foreign: map<nat, seq<W>>, dirty: iset<nat>,
      s0: Store<W>, view0: View<F>, s1: Store<W>, view1: View<F>, q: Request, flags: F, r: Result<()>,
      leaves: seq<LeafAt>)
    requires ConfigOk(c) && Sound(c, s0, view0, root, foreign, dirty)
    requires q.range.Valid() && c.codec.encodable(flags) && r.Err?
    requires RequestOutcome(c, root, s0, view0, s1, view1, q, flags, r, leaves)
    ensures s1.words == s0.words <==> leaves == [] && !Stranded(c, s0, root, q, flags, 0)
  {
    hide ConfigOk;
    hide Sound;
    hide Mapped;
    hide NoChange;
    hide RunRequest;
    hide NextLeaf;
    hide LeafCheck;
    hide MapLeafStep;
    hide RefusesNext;
    hide RefusedLast;
    hide Tight;
    hide Occupied;
    hide FailsChecks;
    if leaves != [] {
      MappedShows(c, root, s0, view0, view1, q, flags, leaves, s1);
    } else {
      assert SizesOf([]) == [] && DoneBytes([]) == 0;
      match NextLeaf(c.geo, q, 0)
      case Err(_) =>
      case Ok(leaf) =>
        FirstFits(c.geo, q, leaf);
        FailedLeafIff(c, s0, view0, root, foreign, dirty, leaf.Range(), leaf.paddr, flags);
    }
  }

  /** A leaf that can be chosen lies within its request. */
  lemma {:induction false} FirstFits(g: Geometry, q: Request, leaf: LeafAt)
    requires q.range.Valid() && NextLeaf(g, q, 0) == Ok(leaf)
    ensures leaf.Range().Valid()
  {
    hide BestSize;
    if q.fixed.None? {
      BestFits(g, q.range.start, leaf.paddr, q.range.Size(), leaf.size);
    }
  }

  /** What the answer that something is not aligned means for a scattered request: its virtual
      range is not, and nothing has happened, or the allocator has just said so of a frame. */
  lemma {:induction false} NotAlignedMeans<W(!new), F(!new)>(
      c: Config<W, F>, root: nat, s0: Store<W>, view0: View<F>, s1: Store<W>, view1: View<F>,
      range: AddrRange, backing: MapBacking, granule: PageSize, flags: F, r: Result<()>, leaves: seq<LeafAt>)
    requires ScatterCheck(c.geo, range, backing, granule).Ok?
    requires RequestOutcome(c, root, s0, view0, s1, view1, Request(range, ExtentsOf(backing), Some(granule)), flags,
                            r, leaves)
    ensures r == Err(NotAligned) ==>
              || (!granule.IsAligned(range.start) && leaves == [] && s1 == s0)
              || RefusedLast(c, s1, NotAligned)
  {
    hide NextLeaf;
    hide LeafCheck;
    hide Tight;
    hide Occupied;
    hide RefusedLast;
    hide RunRequest;
    hide AfterLeaves;
    hide Chained;
    hide MapsNothing;
    hide Stranded;
    hide NoChange;
    hide ScatterCheck;
    hide PageSize.Bytes;
    var q := Request(range, ExtentsOf(backing), Some(granule));
    if r == Err(NotAligned) {
      if granule.IsAligned(range.start) {
        NextGranule(c, range, backing, granule, q, leaves);
        GranuleAligned(c.geo, range, backing, granule, DoneBytes(leaves), NextLeaf(c.geo, q, DoneBytes(leaves)).value);
      } else {
        MisalignedIsRefused(c, s0, root, range, backing, granule, flags);
      }
    }
  }

  /** When that answer comes with memory untouched: exactly if the virtual range is not aligned,
      or the first frame asked for, for the first leaf, is refused. */
  lemma {:induction false} NotAlignedUntouchedIff<W(!new), F(!new)>(
      c: Config<W, F>, root: nat, foreign: map<nat, seq<W>>, dirty: iset<nat>,
      s0: Store<W>, view0: View<F>, s1: Store<W>, view1: View<F>,
      range: AddrRange, backing: MapBacking, granule: PageSize, flags: F, r: Result<()>, leaves: seq<LeafAt>)
    requires ConfigOk(c) && Sound(c, s0, view0, root, foreign, dirty) && range.Valid() && c.codec.encodable(flags)
    requires ScatterCheck(c.geo, range, backing, granule).Ok? && r == Err(NotAligned)
    requires RequestOutcome(c, root, s0, view0, s1, view1, Request(range, ExtentsOf(backing), Some(granule)), flags,
                            r, leaves)
    ensures s1.words == s0.words <==> !granule.IsAligned(range.start) || (leaves == [] && RefusesNext(c, s0))
  {
    hide ConfigOk;
    hide Sound;
    hide Mapped;
    hide NoChange;
    hide RunRequest;
    hide NextLeaf;
    hide LeafCheck;
    hide MapLeafStep;
    hide RefusesNext;
    hide RefusedLast;
    hide Tight;
    hide Occupied;
    hide ScatterCheck;
    hide AfterLeaves;
    var q := Request(range, ExtentsOf(backing), Some(granule));
    if granule.IsAligned(range.start) {
      UntouchedIff(c, root, foreign, dirty, s0, view0, s1, view1, q, flags, r, leaves);
      if leaves == [] {
        assert SizesOf([]) == [] && DoneBytes([]) == 0;
        PlanOfOutcome(c, root, s0, view0, s1, view1, q, flags, r, leaves);
        NextGranule(c, range, backing, granule, q, []);
        var leaf := NextLeaf(c.geo, q, 0).value;
        GranuleAligned(c.geo, range, backing, granule, 0, leaf);
        CheckDecides(c, s0, root, leaf, flags);
        NothingBefore(c, s0, root, flags);
      }
    } else {
      MisalignedIsRefused(c, s0, root, range, backing, granule, flags);
    }
  }

  lemma {:induction false} PlanOfOutcome<W(!new), F(!new)>(
      c: Config<W, F>, root: nat, s0: Store<W>, view0: View<F>, s1: Store<W>, view1: View<F>, q: Request, flags: F,
      r: Result<()>, leaves: seq<LeafAt>)
    requires RequestOutcome(c, root, s0, view0, s1, view1, q, flags, r, leaves)
    ensures Planned(c.geo, q, leaves)
  {
    hide Planned;
    hide Chained;
    hide RunRequest;
    hide AfterLeaves;
  }

  lemma {:induction false} CheckDecides<W, F>(c: Config<W, F>, s: Store<W>, root: nat, leaf: LeafAt, flags: F)
    ensures match LeafCheck(c.geo, leaf.Range(), leaf.paddr)
            case Err(e) => MapLeafStep(c, s, root, leaf.Range(), leaf.paddr, flags) == (s, Err(e))
            case Ok(_) => true
  {
    hide LeafCheck;
    hide MapWalk;
  }

  lemma {:induction false} NothingBefore<W, F>(c: Config<W, F>, s: Store<W>, root: nat, flags: F)
    ensures AfterLeaves(c, s, root, flags, []) == s
  {
  }

  /** In an aligned scattered request every leaf is aligned. */
  lemma {:induction false} GranuleAligned(
      g: Geometry, range: AddrRange, backing: MapBacking, granule: PageSize, done: nat, leaf: LeafAt)
    requires ScatterCheck(g, range, backing, granule).Ok? && granule.IsAligned(range.start) && granule.IsAligned(done)
    requires NextLeaf(g, Request(range, ExtentsOf(backing), Some(granule)), done) == Ok(leaf)
    ensures LeafCheck(g, leaf.Range(), leaf.paddr) != Err(NotAligned)
  {
    hide PageSize.Bytes;
    hide Geometry.PaddrIsValid;
    hide Geometry.VaddrIsValid;
    TargetAligned(ExtentsOf(backing), granule, 0, done);
    SumMod(range.start, done, granule.Bytes());
    SameBytes(leaf.size, FromBytes(leaf.Range().Size()).value);
  }
}
