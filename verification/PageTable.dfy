/** The public operation that maps a range. */
module PageTable {
  import opened Basics
  import opened Power
  import opened PageSizes
  import opened Geometries
  import opened Entries
  import opened Memory
  import opened Trie
  import opened Translation
  import opened Tlb
  import opened Histories
  import opened MapWalks
  import opened Pruning
  import opened Tilings
  import opened Costs
  import opened Requests
  import opened Extents
  import opened Plans
  import opened Runs
  import opened Answers
  import opened TakeUp
  import opened Failures
  import opened Segments
  import opened FlushQueue
  import opened Flushes
  import opened Walker
  import opened Cursor

  /** The one invalidation that the first `size` bytes from `start` take: none if there are
      none, and otherwise by base pages or wholesale as the policy says. */
  ghost function RangeEmission<W, F>(c: Config<W, F>, start: nat, size: nat): seq<Event<W>> {
    if size == 0 then [] else LeafEmission(c, AddrRange(start, start + size))
  }

  /** What a call of `Map` leaves behind and answers: the run of the request, and one
      invalidation for all that it has mapped. */
  ghost function MapCall<W, F>(
      c: Config<W, F>, s: Store<W>, root: nat, range: AddrRange, backing: MapBacking, flags: MappingFlags<F>)
      : (Store<W>, Result<()>)
  {
    var (mapped, r, leaves) := MapStep(c, s, root, range, backing, flags);
    (mapped.Emit(RangeEmission(c, range.start, DoneBytes(leaves))), r)
  }

  /** What carrying out a request did. */
  ghost predicate MapRan<W(!new), F(!new)>(
      c: Config<W, F>, root: nat, s0: Store<W>, view0: View<F>, s1: Store<W>, view1: View<F>,
      range: AddrRange, backing: MapBacking, flags: MappingFlags<F>, r: Result<()>, leaves: seq<LeafAt>)
  {
    && (s1, r, leaves) == MapStep(c, s0, root, range, backing, flags)
    && match RequestCheck(c.geo, range, backing, flags)
       case Err(_) => view1 == view0
       case Ok(q) => RequestOutcome(c, root, s0, view0, s1, view1, q, flags.leaf, r, leaves)
  }

  /** What a call of `Map` did. */
  ghost predicate MapDone<W(!new), F(!new)>(
      c: Config<W, F>, root: nat, s0: Store<W>, view0: View<F>, s1: Store<W>, view1: View<F>,
      range: AddrRange, backing: MapBacking, flags: MappingFlags<F>, r: Result<()>, leaves: seq<LeafAt>)
  {
    && (s1, r) == MapCall(c, s0, root, range, backing, flags)
    && var (mapped, _, _) := MapStep(c, s0, root, range, backing, flags);
       MapRan(c, root, s0, view0, mapped, view1, range, backing, flags, r, leaves)
  }

  /** A queue that holds one interval emits one sweep, or one full invalidation. */
  lemma {:induction false} EmissionOfInterval<W, F>(c: Config<W, F>, q: seq<FlushRange>, range: AddrRange)
    requires c.geo.Lawful() && range.start <= range.end
    requires QueueHolds(q, false, c.geo.Span(1), AddressesOf(range))
    ensures Emission(c, q, false) == RangeEmission(c, range.start, range.Size())
  {
    hide Sweep;
    hide QueueHolds;
    var page := c.geo.Span(1);
    c.geo.SizeIsSpan(1, c.geo.BasePageSize());
    QueueOfInterval(q, page, range);
    if range.Size() > 0 {
      OneEntry(c, q[0], range, page);
      assert q == [q[0]];
    }
  }

  lemma {:induction false} OneEntry<W, F>(c: Config<W, F>, entry: FlushRange, range: AddrRange, page: nat)
    requires page == c.geo.Span(1) > 0 && RangeOk(entry, page)
    requires range.start < range.end && entry.start == range.start && entry.Limit(page) == range.end
    ensures PageCount([entry]) == entry.pages == range.Size() / page > 0
    ensures SortByStart([entry]) == [entry] && Sweeps<W>([entry], page) == Sweep(entry.start, page, entry.pages)
  {
    hide Sweep;
    MultipleMod(entry.pages, page);
    MulAtLeast(page, entry.pages);
    assert [entry][..0] == [];
    assert [] + Sweep<W>(entry.start, page, entry.pages) == Sweep(entry.start, page, entry.pages);
  }

  /** Carrying the request out, the allocator refuses a frame. */
  ghost predicate FrameRefused<W, F>(
      c: Config<W, F>, s: Store<W>, root: nat, range: AddrRange, backing: MapBacking, flags: MappingFlags<F>) {
    var (mapped, r, _) := MapStep(c, s, root, range, backing, flags);
    r.Err? && RefusedLast(c, mapped, r.error)
  }

  /** Install fresh mappings over one virtual range. If the length of a contiguous request is
      a leaf size, a single walk and a single invalidation serve it; otherwise a cursor maps
      leaf after leaf and invalidates when it is finished, or dropped because of an error. */
  method Map<W(!new), F(!new, ==)>(
      pt: PageTableWalker<W, F>, range: AddrRange, backing: MapBacking, flags: MappingFlags<F>)
      returns (r: Result<()>, ghost leaves: seq<LeafAt>)
    requires pt.Valid() && pt.dirty == iset{}
    requires range.Valid() && BackingValid(backing) && pt.c.codec.encodable(flags.leaf)
    modifies pt`view, pt`dirty, pt.mem
    ensures pt.Valid() && pt.dirty == iset{}
    ensures MapDone(pt.c, pt.root, old(pt.mem.Snapshot()), old(pt.view), pt.mem.Snapshot(), pt.view,
                    range, backing, flags, r, leaves)
    ensures r.Ok? ==> LeavesChosen(pt.c.geo, RequestCheck(pt.c.geo, range, backing, flags).value, leaves)
    ensures Tight(old(pt.view)) && Answerable(pt.c.geo, range, backing, flags)
            && !FrameRefused(pt.c, old(pt.mem.Snapshot()), pt.root, range, backing, flags) ==>
              r == if Occupied(pt.c, pt.root, old(pt.mem.words), range) then Err(AlreadyMapped) else Ok(())
    ensures r.Ok? ==> pt.mem.readCount <= old(pt.mem.readCount) + ReadBound(pt.c.geo, range.start, SizesOf(leaves))
    ensures r.Ok? && flags.contiguity == Scattered(pt.c.geo.BasePageSize()) && pt.c.geo.levels >= 2 ==>
              && |leaves| * pt.c.geo.BasePageSize().Bytes() == range.Size()
              && pt.mem.readCount <=
                   old(pt.mem.readCount) + |leaves| + (pt.c.geo.levels - 1) * TablesUsed(pt.c.geo, range)
  {
    hide Lawful;
    hide AllocatorOk;
    hide Sound;
    hide TablesUsed;
    hide MapDone;
    hide LeavesChosen;
    hide Answerable;
    hide FrameRefused;
    hide ReadBound;
    hide Occupied;
    hide Tight;
    hide ContiguousCheck;
    hide RequestCheck;
    ghost var c, s, view := pt.c, pt.mem.Snapshot(), pt.view;
    var direct := false;
    if flags.contiguity.Contiguous? && backing.OneExtent? {
      var phys := backing.phys;
      UntakenMap(c, pt.root, s, view, range, phys, flags);
      if phys.Size() == 0 || range.Size() != phys.Size() {
        return Err(InvalidMappingShape), [];
      }
      var exact := ExactLeafSize(pt.c.geo, range, phys.start, None);
      if exact.Err? {
        return Err(exact.error), [];
      }
      if exact.value.Some? {
        var (size, level) := exact.value.value;
        direct := true;
        r, leaves := MapOneLeaf(pt, range, phys, flags, size, level);
      }
    }
    if !direct {
      r, leaves := MapThroughCursor(pt, range, backing, flags);
    }
    DoneIsChosen(c, pt.root, s, view, pt.mem.Snapshot(), pt.view, range, backing, flags, r, leaves);
    DoneIsExact(c, pt.root, s, view, pt.mem.Snapshot(), pt.view, range, backing, flags, r, leaves);
    PagesCost(c, pt.root, s, view, pt.mem.Snapshot(), pt.view, range, backing, flags, r, leaves);
  }

  /** What the argument errors of a scattered call leave behind: nothing, with the one exception
      of an allocator that says, after it has granted a frame, that a frame is not aligned. */
  lemma {:induction false} ScatteredCallErrors<W(!new), F(!new)>(
      c: Config<W, F>, root: nat, foreign: map<nat, seq<W>>, s0: Store<W>, view0: View<F>, s1: Store<W>, view1: View<F>,
      range: AddrRange, backing: MapBacking, flags: MappingFlags<F>, r: Result<()>, leaves: seq<LeafAt>)
    requires ConfigOk(c) && Sound(c, s0, view0, root, foreign, iset{}) && range.Valid()
    requires c.codec.encodable(flags.leaf) && flags.contiguity.Scattered?
    requires MapDone(c, root, s0, view0, s1, view1, range, backing, flags, r, leaves)
    ensures r == Err(InvalidMappingShape) || r == Err(UnsupportedSize) ==> s1 == s0 && leaves == []
    ensures r == Err(NotAligned) ==>
              (s1.words == s0.words <==>
                 !flags.contiguity.granule.IsAligned(range.start) || (leaves == [] && RefusesNext(c, s0)))
  {
    hide ConfigOk;
    hide Sound;
    hide RequestOutcome;
    hide RunRequest;
    hide ScatterCheck;
    hide RefusesNext;
    hide LeafEmission;
    var granule := flags.contiguity.granule;
    var mapped := MapStep(c, s0, root, range, backing, flags).0;
    assert SizesOf([]) == [] && s0.log + [] == s0.log;
    if ScatterCheck(c.geo, range, backing, granule).Ok? {
      ScatteredErrors(c, root, s0, view0, mapped, view1, range, backing, granule, flags.leaf, r, leaves);
      if r == Err(NotAligned) {
        NotAlignedUntouchedIff(c, root, foreign, iset{}, s0, view0, mapped, view1, range, backing, granule, flags.leaf,
                               r, leaves);
      }
    } else {
      ScatterCheckErrors(c.geo, range, backing, granule);
    }
  }

  lemma {:induction false} ScatterCheckErrors(g: Geometry, range: AddrRange, backing: MapBacking, granule: PageSize)
    ensures ScatterCheck(g, range, backing, granule) != Err(NotAligned)
  {
  }

  /** The finest tables that a run of base pages uses. */
  ghost function TablesUsed(g: Geometry, range: AddrRange): int {
    (range.end - 1) / g.Span(2) - range.start / g.Span(2) + 1
  }

  /** Mapping n base pages reads n entries, and the levels above once per finest table. */
  lemma {:induction false} PagesCost<W(!new), F(!new)>(
      c: Config<W, F>, root: nat, s0: Store<W>, view0: View<F>, s1: Store<W>, view1: View<F>,
      range: AddrRange, backing: MapBacking, flags: MappingFlags<F>, r: Result<()>, leaves: seq<LeafAt>)
    requires c.geo.Lawful() && range.Valid()
    requires MapDone(c, root, s0, view0, s1, view1, range, backing, flags, r, leaves)
    ensures r.Ok? && flags.contiguity == Scattered(c.geo.BasePageSize()) && c.geo.levels >= 2 ==>
              && |leaves| * c.geo.BasePageSize().Bytes() == range.Size()
              && ReadBound(c.geo, range.start, SizesOf(leaves)) <=
                   |leaves| + (c.geo.levels - 1) * TablesUsed(c.geo, range)
  {
    hide Lawful;
    hide MapDone;
    hide ReadBound;
    hide RequestCheck;
    hide LeavesChosen;
    hide RequestOutcome;
    hide PageSize.Bytes;
    hide Geometry.Lawful;
    if r.Ok? && flags.contiguity == Scattered(c.geo.BasePageSize()) && c.geo.levels >= 2 {
      DoneIsChosen(c, root, s0, view0, s1, view1, range, backing, flags, r, leaves);
      DonePages(c, root, s0, view0, s1, view1, range, backing, flags, r, leaves);
      PagesBound(c.geo, range.start, range.end, SizesOf(leaves));
    }
  }

  /** The pages of a successful scattered call: all of the base size, at valid addresses. */
  lemma {:induction false} DonePages<W(!new), F(!new)>(
      c: Config<W, F>, root: nat, s0: Store<W>, view0: View<F>, s1: Store<W>, view1: View<F>,
      range: AddrRange, backing: MapBacking, flags: MappingFlags<F>, r: Result<()>, leaves: seq<LeafAt>)
    requires MapDone(c, root, s0, view0, s1, view1, range, backing, flags, r, leaves)
    requires r.Ok? && flags.contiguity == Scattered(c.geo.BasePageSize())
    ensures leaves != [] && DoneBytes(leaves) == range.Size() > 0
    ensures forall k | 0 <= k < |leaves| :: SizesOf(leaves)[k] == c.geo.BasePageSize()
    ensures forall k: nat | k < |leaves| :: c.geo.VaddrIsValid(range.start + Offset(SizesOf(leaves), k))
    ensures range.start + Offset(SizesOf(leaves), |leaves| - 1) < range.end
  {
    hide RunRequest;
    hide AfterLeaves;
    hide Planned;
    hide Chained;
    hide MapsNothing;
    hide Tight;
    hide Occupied;
    hide Stranded;
    hide NoChange;
    hide SegmentsOk;
    hide LeavesChosen;
    hide ShownAt;
    hide PageSize.Bytes;
    hide Canonical;
    hide SizesOf;
    hide Codec.Norm;
    hide Geometry.BasePageSize;
    hide Geometry.VaddrIsValid;
    hide MapCall;
    hide ContiguousCheck;
    DoneIsChosen(c, root, s0, view0, s1, view1, range, backing, flags, r, leaves);
    var q, sizes := RequestCheck(c.geo, range, backing, flags).value, SizesOf(leaves);
    assert forall k | 0 <= k < |leaves| :: sizes[k] == c.geo.BasePageSize() by { AllGranules(c.geo, q, leaves); }
    assert leaves != [] by { assert leaves == [] ==> sizes == []; }
    ShownNow(c, root, s0, q, flags.leaf, leaves);
    forall k: nat | k < |leaves|
      ensures c.geo.VaddrIsValid(range.start + Offset(sizes, k)) && range.start + Offset(sizes, k) < range.end
    {
      OffsetMonotone(sizes, k, |sizes|);
      var v := range.start + Offset(sizes, k);
      assert ShownAt(c, root, AfterLeaves(c, s0, root, flags.leaf, leaves).words, q, c.codec.Norm(flags.leaf), v);
      ShownIsValid(c, root, AfterLeaves(c, s0, root, flags.leaf, leaves).words, q, c.codec.Norm(flags.leaf), v);
    }
  }

  lemma {:induction false} AllGranules(g: Geometry, q: Request, leaves: seq<LeafAt>)
    requires LeavesChosen(g, q, leaves) && q.fixed.Some?
    ensures forall k | 0 <= k < |leaves| :: SizesOf(leaves)[k] == q.fixed.value
  {
  }

  lemma {:induction false} ShownIsValid<W, F>(
      c: Config<W, F>, root: nat, m: map<nat, seq<W>>, q: Request, flags: F, v: nat)
    requires q.range.start <= v && ShownAt(c, root, m, q, flags, v)
    ensures c.geo.VaddrIsValid(v)
  {
  }

  /** A contiguous request that is not taken up does nothing. */
  lemma {:induction false} UntakenMap<W(!new), F(!new)>(
      c: Config<W, F>, root: nat, s: Store<W>, view: View<F>, range: AddrRange, phys: AddrRange, flags: MappingFlags<F>)
    requires c.geo.Lawful() && range.Valid() && flags.contiguity.Contiguous?
    ensures match ContiguousCheck(c.geo, range, phys, None)
            case Err(e) => MapDone(c, root, s, view, s, view, range, OneExtent(phys), flags, Err(e), [])
                           && !Answerable(c.geo, range, OneExtent(phys), flags)
            case Ok(_) => true
    ensures phys.Size() == 0 || range.Size() != phys.Size() ==>
              ContiguousCheck(c.geo, range, phys, None) == Err(InvalidMappingShape)
    ensures phys.Size() > 0 && range.Size() == phys.Size() ==>
              ContiguousCheck(c.geo, range, phys, None) == ExactLeafSize(c.geo, range, phys.start, None)
  {
    hide ExactLeafSize;
    hide RequestOutcome;
    hide Answerable;
    assert SizesOf([]) == [] && s.log + [] == s.log;
    if Answerable(c.geo, range, OneExtent(phys), flags) {
      AnswerableIsTakenUp(c.geo, range, OneExtent(phys), flags);
    }
  }

  /** The leaves of a successful call are the greedy ones or all of the granule. */
  lemma {:induction false} DoneIsChosen<W(!new), F(!new)>(
      c: Config<W, F>, root: nat, s0: Store<W>, view0: View<F>, s1: Store<W>, view1: View<F>,
      range: AddrRange, backing: MapBacking, flags: MappingFlags<F>, r: Result<()>, leaves: seq<LeafAt>)
    requires MapDone(c, root, s0, view0, s1, view1, range, backing, flags, r, leaves)
    ensures r.Ok? ==> RequestCheck(c.geo, range, backing, flags).Ok?
                      && LeavesChosen(c.geo, RequestCheck(c.geo, range, backing, flags).value, leaves)
  {
    hide RunRequest;
    hide AfterLeaves;
    hide Planned;
    hide Chained;
    hide MapsNothing;
    hide Tight;
    hide Occupied;
    hide Stranded;
    hide NoChange;
    hide ExactLeafSize;
    hide SegmentsOk;
    hide LeavesChosen;
    if r.Ok? {
      PlannedAreChosen(c.geo, RequestCheck(c.geo, range, backing, flags).value, leaves);
    }
  }

  /** In a tight tree, unless a frame is refused, the translation alone decides the answer. */
  lemma {:induction false} DoneIsExact<W(!new), F(!new)>(
      c: Config<W, F>, root: nat, s0: Store<W>, view0: View<F>, s1: Store<W>, view1: View<F>,
      range: AddrRange, backing: MapBacking, flags: MappingFlags<F>, r: Result<()>, leaves: seq<LeafAt>)
    requires ConfigOk(c) && range.Valid() && MapDone(c, root, s0, view0, s1, view1, range, backing, flags, r, leaves)
    ensures Tight(view0) && Answerable(c.geo, range, backing, flags)
            && !FrameRefused(c, s0, root, range, backing, flags) ==>
              r == if Occupied(c, root, s0.words, range) then Err(AlreadyMapped) else Ok(())
  {
    hide Lawful;
    hide AllocatorOk;
    hide RequestOutcome;
    hide RequestCheck;
    hide Tight;
    hide Occupied;
    hide WellFormed;
    hide Answerable;
    hide RefusedLast;
    if Tight(view0) && Answerable(c.geo, range, backing, flags) {
      AnswerableIsTakenUp(c.geo, range, backing, flags);
      var q := RequestCheck(c.geo, range, backing, flags).value;
      AnswerIsExact(c, root, s0, view0, MapStep(c, s0, root, range, backing, flags).0, view1, q, flags.leaf, r, leaves);
    }
  }

  /** With an allocator that refuses nothing, such a call on a tight tree succeeds exactly if no
      address of its range is translated yet, and afterwards every address translates to its
      byte of the extents, with the new flags; a scattered one has mapped one leaf a granule. */
  lemma {:induction false} CallSucceeds<W(!new), F(!new)>(
      c: Config<W, F>, root: nat, s0: Store<W>, view0: View<F>, s1: Store<W>, view1: View<F>,
      range: AddrRange, backing: MapBacking, flags: MappingFlags<F>, r: Result<()>, leaves: seq<LeafAt>)
    requires ConfigOk(c) && range.Valid() && MapDone(c, root, s0, view0, s1, view1, range, backing, flags, r, leaves)
    requires Tight(view0) && Answerable(c.geo, range, backing, flags) && Generous(c)
    ensures r == if exists a: nat :: range.Contains(a) && Xlate(c, s0.words, root, a).Some? then Err(AlreadyMapped)
                 else Ok(())
    ensures r.Ok? ==>
              forall v: nat | range.Contains(v) ::
                var target := TargetOf(ExtentsOf(backing), v - range.start);
                target.Some? && Xlate(c, s1.words, root, v) == Some(Hit(target.value, c.codec.Norm(flags.leaf)))
    ensures r.Ok? && flags.contiguity.Scattered? ==> |leaves| * flags.contiguity.granule.Bytes() == range.Size()
  {
    hide Lawful;
    hide AllocatorOk;
    hide Generous;
    hide Tight;
    hide WellFormed;
    hide Answerable;
    hide RequestCheck;
    hide RequestOutcome;
    hide RunRequest;
    hide TargetOf;
    hide Xlate;
    hide RefusedLast;
    var mapped := MapStep(c, s0, root, range, backing, flags).0;
    AnswerableIsTakenUp(c.geo, range, backing, flags);
    var q := RequestCheck(c.geo, range, backing, flags).value;
    DoneIsExact(c, root, s0, view0, s1, view1, range, backing, flags, r, leaves);
    if r.Err? {
      NeverRefused(c, mapped, r.error);
    }
    AllValid(c.geo, range, backing, flags);
    if r.Ok? {
      OutcomeShows(c, root, s0, view0, mapped, view1, q, flags.leaf, r, leaves);
      if flags.contiguity.Scattered? {
        DoneIsChosen(c, root, s0, view0, s1, view1, range, backing, flags, r, leaves);
        AllGranules(c.geo, q, leaves);
        OffsetUniform(SizesOf(leaves), flags.contiguity.granule, |leaves|);
      }
    }
  }

  lemma {:induction false} AllValid<F>(g: Geometry, range: AddrRange, backing: MapBacking, flags: MappingFlags<F>)
    requires Answerable(g, range, backing, flags)
    ensures forall v: nat | range.Contains(v) :: g.VaddrIsValid(v)
  {
    hide Geometry.VaddrIsValid;
  }

  /** A finished request shows in the translation of every address of its range. */
  lemma {:induction false} OutcomeShows<W(!new), F(!new)>(
      c: Config<W, F>, root: nat, s0: Store<W>, view0: View<F>, s1: Store<W>, view1: View<F>, q: Request, flags: F,
      r: Result<()>, leaves: seq<LeafAt>)
    requires RequestOutcome(c, root, s0, view0, s1, view1, q, flags, r, leaves) && r.Ok?
    ensures DoneBytes(leaves) == q.range.Size()
    ensures forall v: nat | q.range.Contains(v) ::
              var target := TargetOf(q.extents, v - q.range.start);
              target.Some? && Xlate(c, s1.words, root, v) == Some(Hit(target.value, c.codec.Norm(flags)))
  {
    hide RunRequest;
    hide AfterLeaves;
    hide Planned;
    hide Chained;
    hide MapsNothing;
    hide Tight;
    hide Occupied;
    hide Stranded;
    hide NoChange;
    hide Xlate;
    hide TargetOf;
    hide Placed;
    hide Kept;
    ShownNow(c, root, s0, q, flags, leaves);
    forall v: nat | q.range.Contains(v)
      ensures var target := TargetOf(q.extents, v - q.range.start);
              target.Some? && Xlate(c, s1.words, root, v) == Some(Hit(target.value, c.codec.Norm(flags)))
    {
      assert ShownAt(c, root, AfterLeaves(c, s0, root, flags, leaves).words, q, c.codec.Norm(flags), v);
    }
  }

  lemma {:induction false} RangeOfRequest<F>(g: Geometry, range: AddrRange, backing: MapBacking, flags: MappingFlags<F>)
    ensures RequestCheck(g, range, backing, flags).Ok? ==> RequestCheck(g, range, backing, flags).value.range == range
  {
    hide ExactLeafSize;
  }

  /** The direct path: one leaf, one walk, one invalidation. */
  method MapOneLeaf<W(!new), F(!new, ==)>(
      pt: PageTableWalker<W, F>, range: AddrRange, phys: AddrRange, flags: MappingFlags<F>, size: PageSize, level: nat)
      returns (r: Result<()>, ghost leaves: seq<LeafAt>)
    requires pt.Valid() && pt.dirty == iset{} && pt.c.codec.encodable(flags.leaf)
    requires range.Valid() && phys.Valid() && range.Size() == phys.Size() > 0 && flags.contiguity.Contiguous?
    requires ExactLeafSize(pt.c.geo, range, phys.start, None) == Ok(Some((size, level)))
    modifies pt`view, pt`dirty, pt.mem
    ensures pt.Valid() && pt.dirty == iset{}
    ensures MapDone(pt.c, pt.root, old(pt.mem.Snapshot()), old(pt.view), pt.mem.Snapshot(), pt.view,
                    range, OneExtent(phys), flags, r, leaves)
    ensures r.Ok? ==> pt.mem.log == MapStep(pt.c, old(pt.mem.Snapshot()), pt.root, range, OneExtent(phys), flags).0.log
                                    + LeafEmission(pt.c, range)
    ensures r.Ok? ==> pt.mem.readCount <= old(pt.mem.readCount) + ReadBound(pt.c.geo, range.start, SizesOf(leaves))
  {
    hide Lawful;
    hide AllocatorOk;
    hide Sound;
    hide RequestOutcome;
    hide RequestCheck;
    hide MapStep;
    hide ExactLeafSize;
    hide MapOutcome;
    hide MapWalk;
    hide NoChange;
    hide IsBlock;
    hide LeafEmission;
    hide ReadBound;
    hide MapDone;
    hide MapRan;
    hide DoneBytes;
    hide ConfigOk;
    hide Geometry.Span;
    ghost var c, s, view := pt.c, pt.mem.Snapshot(), pt.view;
    DirectRequest(c, range, phys, flags, size, level);
    r := pt.MapLeafDirectSizedNoFlush(range, phys.start, flags.leaf, size, level);
    ghost var s1 := pt.mem.Snapshot();
    leaves := DirectOutcome(c, pt.root, pt.foreign, s, view, s1, pt.view, range, phys, flags, size, level, r);
    assert AddrRange(range.start, range.start + range.Size()) == range;
    if r.Ok? {
      pt.FlushLeafRange(range, level);
    }
    RanThenFlushed(c, pt.root, s, view, s1, pt.view, pt.mem.Snapshot(), range, OneExtent(phys), flags, r, leaves);
  }

  /** A run and the invalidation of what it mapped make up a call. */
  lemma {:induction false} RanThenFlushed<W(!new), F(!new)>(
      c: Config<W, F>, root: nat, s0: Store<W>, view0: View<F>, s1: Store<W>, view1: View<F>, s2: Store<W>,
      range: AddrRange, backing: MapBacking, flags: MappingFlags<F>, r: Result<()>, leaves: seq<LeafAt>)
    requires MapRan(c, root, s0, view0, s1, view1, range, backing, flags, r, leaves)
    requires s2 == s1.Emit(RangeEmission(c, range.start, DoneBytes(leaves)))
    ensures MapDone(c, root, s0, view0, s2, view1, range, backing, flags, r, leaves)
  {
    hide MapStep;
    hide RequestCheck;
    hide RequestOutcome;
    hide RangeEmission;
    hide DoneBytes;
  }

  lemma {:induction false} DirectRequest<W(!new), F(!new)>(
      c: Config<W, F>, range: AddrRange, phys: AddrRange, flags: MappingFlags<F>, size: PageSize, level: nat)
    requires ConfigOk(c) && range.Valid() && phys.Valid() && c.codec.encodable(flags.leaf)
    requires range.Size() == phys.Size() > 0
    requires ExactLeafSize(c.geo, range, phys.start, None) == Ok(Some((size, level)))
    ensures LeafRequest(c, range, phys.start, flags.leaf, size, level) && level >= 1
  {
    hide Lawful;
    hide AllocatorOk;
    hide ExactLeafSize;
    hide LeafCheck;
    hide IsBlock;
    ExactIsLeafCheck(c.geo, range, phys.start, None);
    CheckedLeaf(c, range, phys.start, flags.leaf);
    RequestLevel(c, range, phys.start, flags.leaf, size, level);
  }

  /** Mapping the one leaf that a request's length asks for is the whole run. */
  lemma {:induction false} DirectOutcome<W(!new), F(!new)>(
      c: Config<W, F>, root: nat, foreign: map<nat, seq<W>>, s: Store<W>, view: View<F>, s1: Store<W>, after: View<F>,
      range: AddrRange, phys: AddrRange, flags: MappingFlags<F>, size: PageSize, level: nat, r: Result<()>)
      returns (leaves: seq<LeafAt>)
    requires ConfigOk(c) && Sound(c, s, view, root, foreign, iset{}) && range.Valid() && phys.Valid()
    requires range.Size() == phys.Size() > 0 && flags.contiguity.Contiguous? && level >= 1
    requires ExactLeafSize(c.geo, range, phys.start, None) == Ok(Some((size, level)))
    requires LeafRequest(c, range, phys.start, flags.leaf, size, level)
    requires (s1, r) == MapWalk(c, s, root, c.geo.levels, level, range.start,
                                c.codec.newLeaf(phys.start, flags.leaf, size))
    requires MapOutcome(c, root, foreign, iset{}, range, phys.start, flags.leaf, level, s, view, s1, after, r)
    ensures MapRan(c, root, s, view, s1, after, range, OneExtent(phys), flags, r, leaves)
    ensures MapStep(c, s, root, range, OneExtent(phys), flags).0 == s1
    ensures DoneBytes(leaves) == if r.Ok? then range.Size() else 0
    ensures r.Ok? ==> ReadBound(c.geo, range.start, SizesOf(leaves)) == c.geo.levels
  {
    hide ConfigOk;
    hide Sound;
    hide Underway;
    hide RequestOutcome;
    hide ExactLeafSize;
    hide MapOutcome;
    hide MapWalk;
    hide LeafRequest;
    hide LeafEffect;
    hide LeafCheck;
    hide NextLeaf;
    hide LinearAt;
    hide ExtentOf;
    hide ReadBound;
    hide RunRequest;
    var q, leaf := Request(range, [phys], None), LeafAt(range.start, size, phys.start);
    assert SizesOf([]) == [] && DoneBytes([]) == 0 && [] + [leaf] == [leaf];
    WholeExtent(range, phys);
    ExactInExtent(c.geo, q, 0, range, phys, size, level);
    assert leaf.Range() == range;
    UnderwayStarts(c, root, s, view, q, flags.leaf);
    AsLeafEffect(c, root, foreign, iset{}, range, phys.start, flags.leaf, s, view, s1, after, r, size, level);
    SizesAppend([], leaf);
    if r.Ok? {
      assert r.value == ();
      UnderwayGrows(c, root, foreign, iset{}, s, view, s, view, s1, after, q, flags.leaf, [], leaf);
      UnderwayEnds(c, root, s, view, s1, after, q, flags.leaf, [leaf]);
      OneLeafCost(c.geo, range.start, leaf);
      leaves := [leaf];
    } else {
      UnderwayFails(c, root, foreign, iset{}, s, view, s, view, s1, after, q, flags.leaf, [], leaf, r);
      leaves := [];
    }
    OutcomeIsRun(c, root, s, view, s1, after, q, flags.leaf, r, leaves);
    RequestOfExtent(c.geo, range, phys, flags);
  }

  lemma {:induction false} RequestOfExtent<F>(g: Geometry, range: AddrRange, phys: AddrRange, flags: MappingFlags<F>)
    requires flags.contiguity.Contiguous? && ExactLeafSize(g, range, phys.start, None).Ok?
    requires range.Size() == phys.Size() > 0
    ensures RequestCheck(g, range, OneExtent(phys), flags) == Ok(Request(range, [phys], None))
  {
    hide ExactLeafSize;
  }

  lemma {:induction false} OutcomeIsRun<W(!new), F(!new)>(
      c: Config<W, F>, root: nat, s0: Store<W>, view0: View<F>, s1: Store<W>, view1: View<F>, q: Request, flags: F,
      r: Result<()>, leaves: seq<LeafAt>)
    requires RequestOutcome(c, root, s0, view0, s1, view1, q, flags, r, leaves)
    ensures (s1, r, leaves) == RunRequest(c, s0, root, q, flags, 0)
  {
    hide RunRequest;
    hide Mapped;
  }

  lemma {:induction false} OneLeafCost(g: Geometry, v: nat, leaf: LeafAt)
    ensures ReadBound(g, v, SizesOf([leaf])) == g.levels
  {
    var size := leaf.size;
    assert SizesOf([leaf]) == [size];
    BoundGrows(g, v, [], size);
    assert [] + [size] == [size];
  }

  /** The batched path. */
  method MapThroughCursor<W(!new), F(!new, ==)>(
      pt: PageTableWalker<W, F>, range: AddrRange, backing: MapBacking, flags: MappingFlags<F>)
      returns (r: Result<()>, ghost leaves: seq<LeafAt>)
    requires pt.Valid() && pt.dirty == iset{}
    requires range.Valid() && BackingValid(backing) && pt.c.codec.encodable(flags.leaf)
    modifies pt`view, pt`dirty, pt.mem
    ensures pt.Valid() && pt.dirty == iset{}
    ensures MapDone(pt.c, pt.root, old(pt.mem.Snapshot()), old(pt.view), pt.mem.Snapshot(), pt.view,
                    range, backing, flags, r, leaves)
    ensures r.Ok? ==> pt.mem.readCount <= old(pt.mem.readCount) + ReadBound(pt.c.geo, range.start, SizesOf(leaves))
  {
    hide Lawful;
    hide AllocatorOk;
    hide Sound;
    hide RequestOutcome;
    hide RequestCheck;
    hide RunRequest;
    hide NoChange;
    hide QueueHolds;
    hide AddressesOf;
    hide ReadBound;
    hide ConfigOk;
    ghost var c, s, view := pt.c, pt.mem.Snapshot(), pt.view;
    var cursor := new PageTableCursor(pt);
    RangeOfRequest(c.geo, range, backing, flags);
    ghost var check := RequestCheck(c.geo, range, backing, flags);
    ghost var j := cursor.SetOut(if check.Ok? then check.value else Request(range, [], None), flags.leaf);
    r, leaves := cursor.Map(range, backing, flags);
    ghost var s1 := pt.mem.Snapshot();
    PendingEmission(cursor, j, range, backing, flags, r, leaves);
    if r.Ok? {
      var _ := cursor.Finish();
    } else {
      // Dropping the cursor after an error flushes as well.
      cursor.FlushPending();
    }
    if RequestCheck(c.geo, range, backing, flags).Ok? {
      ghost var q := RequestCheck(c.geo, range, backing, flags).value;
      OutcomeIsRun(c, pt.root, s, view, s1, pt.view, q, flags.leaf, r, leaves);
    }
    RanThenFlushed(c, pt.root, s, view, s1, pt.view, pt.mem.Snapshot(), range, backing, flags, r, leaves);
  }

  /** What a cursor has pending after one request: the invalidation of what it mapped. */
  lemma {:induction false} PendingEmission<W(!new), F(!new)>(
      cursor: PageTableCursor<W, F>, j: Journey<W, F>, range: AddrRange, backing: MapBacking, flags: MappingFlags<F>,
      r: Result<()>, leaves: seq<LeafAt>)
    requires cursor.Valid() && j.queueEmpty && j.request.range == range
    requires match RequestCheck(cursor.pt.c.geo, range, backing, flags)
             case Err(_) => leaves == [] && cursor.pending == [] && !cursor.needsFullFlush
             case Ok(q) => j.request == q && cursor.Arrived(j, r, leaves)
    ensures Emission(cursor.pt.c, cursor.pending, cursor.needsFullFlush)
            == RangeEmission(cursor.pt.c, range.start, DoneBytes(leaves))
  {
    hide RequestCheck;
    hide PageTableCursor.Valid;
    hide PageTableCursor.Arrived;
    hide RangeEmission;
    hide Emission;
    if RequestCheck(cursor.pt.c.geo, range, backing, flags).Ok? {
      cursor.QueueOnArrival(j, r, leaves);
      EmissionOfInterval(cursor.pt.c, cursor.pending, j.request.First(DoneBytes(leaves)));
    } else {
      NothingPending(cursor.pt.c, range.start);
    }
  }

  lemma {:induction false} NothingPending<W, F>(c: Config<W, F>, start: nat)
    ensures Emission(c, [], false) == RangeEmission(c, start, DoneBytes([]))
  {
    assert SizesOf([]) == [];
  }
}
