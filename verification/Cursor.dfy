/** The batching cursor: a cached descent and a queue of pending invalidations. */
module Cursor {
  import opened Basics
  import opened Power
  import opened PageSizes
  import opened Geometries
  import opened Entries
  import opened Memory
  import opened Trie
  import opened Translation
  import opened Tlb
  import opened Histories
  import opened MapWalks
  import opened Queries
  import opened Pruning
  import opened Descents
  import opened FlushQueue
  import opened Flushes
  import opened LeafEdits
  import opened BlockEdits
  import opened Exactness
  import opened Walker
  import opened Tilings
  import opened Requests
  import opened Costs
  import opened Extents
  import opened Plans
  import opened Runs
  import opened Segments

  /** A leaf's range can be queued for invalidation. */
  lemma {:induction false} QueueRequest<W(!new), F(!new)>(
      c: Config<W, F>, range: AddrRange, paddr: nat, flags: F, size: PageSize, target: nat)
    requires ConfigOk(c) && LeafRequest(c, range, paddr, flags, size, target)
    ensures c.geo.Lawful() && Queueable(c.geo, range)
  {
    hide IsBlock;
    hide Lawful;
    hide AllocatorOk;
    BlockQueueable(c.geo, range, target);
  }

  /** A page-aligned range of whole pages. */
  ghost predicate Queueable(g: Geometry, range: AddrRange) {
    range.Valid() && range.start % g.Span(1) == 0 && range.Size() % g.Span(1) == 0
  }

  lemma {:induction false} BlockQueueable(g: Geometry, range: AddrRange, level: nat)
    requires g.Lawful() && IsBlock(g, range, level)
    ensures Queueable(g, range)
  {
    hide Lawful;
    hide IsBlock;
    BlockPages(g, range, level);
    RangePages(range, g.Span(1));
  }

  lemma {:induction false} RangePages(range: AddrRange, page: nat)
    requires page > 0 && range.start + (range.Size() / page) * page == range.end
    ensures range.start <= range.end && range.Size() % page == 0
  {
    var n := range.Size() / page;
    assert n * page >= 0;
    MultipleMod(n, page);
  }

  lemma {:induction false} ExactQueueable<W(!new), F(!new)>(
      c: Config<W, F>, s: Store<W>, view: View<F>, root: nat, range: AddrRange,
      foreign: map<nat, seq<W>>, dirty: iset<nat>)
    requires ConfigOk(c) && Sound(c, s, view, root, foreign, dirty)
    ensures ExactLevel(c.geo, view, range).Ok? ==> Queueable(c.geo, range)
  {
    hide Lawful;
    hide AllocatorOk;
    hide Sound;
    hide IsBlock;
    hide ExactLevel;
    hide Queueable;
    if ExactLevel(c.geo, view, range).Ok? {
      ExactBlock(c, s, view, root, range, foreign, dirty);
      BlockQueueable(c.geo, range, ExactLevel(c.geo, view, range).value);
    }
  }

  /** Changing a leaf in place keeps the cache. */
  lemma {:induction false} CacheAfterReplace<W(!new), F(!new)>(
      c: Config<W, F>, root: nat, foreign: map<nat, seq<W>>, dirty: iset<nat>,
      range: AddrRange, level: nat, paddr: nat, flags: F, s: Store<W>, view: View<F>, s1: Store<W>, after: View<F>,
      descent: seq<Option<nat>>, last: Option<nat>)
    requires level >= 1 && IsLeaf(view, c.geo.PathOf(range.start, level - 1))
    requires LeafReplaced(c, root, foreign, dirty, range, level, paddr, flags, s, view, s1, after)
    requires CacheOk(c.geo, view, descent, last)
    ensures CacheOk(c.geo, after, descent, last)
    ensures Sound(c, s1, after, root, foreign, dirty + AddressesOf(range))
  {
    hide CacheOk;
    hide Sound;
    CacheAfterGrowth(c.geo, view, after, descent, last);
  }

  /** Where a request set out from. */
  datatype Journey<W, F> = Journey(
    store: Store<W>, view: View<F>, dirty: iset<nat>, queued: iset<nat>, queueEmpty: bool, last: Option<nat>,
    readsBefore: nat, request: Request, flags: F)

  /** Where the last walk led, after the leaves have been mapped. */
  function LastMapped(last: Option<nat>, leaves: seq<LeafAt>): Option<nat> {
    if leaves == [] then last else Some(leaves[|leaves| - 1].start)
  }

  class PageTableCursor<W(!new), F(!new, ==)> {
    const pt: PageTableWalker<W, F>
    /** Slot `level - 1` caches the table at `level` on the last walk; the root is not cached. */
    const descent: array<Option<nat>>
    var lastVaddr: Option<nat>
    var pending: seq<FlushRange>
    var needsFullFlush: bool
    /** Every address queued since the last flush. */
    ghost var queued: iset<nat>

    ghost predicate Valid()
      reads this, descent, pt, pt.mem`words, pt.mem`tick, pt.mem`log
    {
      && pt.Valid()
      && descent.Length == MAX_LEVELS
      && CacheOk(pt.c.geo, pt.view, descent[..], lastVaddr)
      && QueueHolds(pending, needsFullFlush, pt.c.geo.Span(1), queued)
      && forall v :: v in pt.dirty ==> v in queued
    }

    constructor (pt: PageTableWalker<W, F>)
      requires pt.Valid() && pt.dirty == iset{}
      ensures Valid() && this.pt == pt && fresh(descent)
      ensures lastVaddr == None && pending == [] && !needsFullFlush && queued == iset{}
    {
      this.pt := pt;
      descent := new Option<nat>[MAX_LEVELS](_ => None);
      lastVaddr, pending, needsFullFlush, queued := None, [], false, iset{};
    }

    /** The deepest level whose table is still on the walk of `vaddr`. */
    method ReusableLevel(vaddr: nat) returns (r: nat)
      requires 1 <= pt.c.geo.levels
      ensures r == match lastVaddr
                   case None => pt.c.geo.levels
                   case Some(last) => FirstDifference(pt.c.geo, last, vaddr, pt.c.geo.levels)
    {
      if lastVaddr.None? {
        return pt.c.geo.levels;
      }
      var last := lastVaddr.value;
      var level := pt.c.geo.levels;
      while level >= 1
        invariant level >= 1 ==> FirstDifference(pt.c.geo, last, vaddr, level)
                                 == FirstDifference(pt.c.geo, last, vaddr, pt.c.geo.levels)
        invariant level == 0 ==> FirstDifference(pt.c.geo, last, vaddr, pt.c.geo.levels) == 1
      {
        if pt.c.geo.IndexAt(level, last) != pt.c.geo.IndexAt(level, vaddr) {
          return level;
        }
        level := level - 1;
      }
      return 1;
    }

    /** Forget the cached tables below `level`. */
    method InvalidateBelow(level: nat)
      requires descent.Length == MAX_LEVELS
      modifies descent
      ensures forall k: nat | k < MAX_LEVELS ::
                descent[k] == if k + 1 < level && k + 1 < MAX_LEVELS then None else old(descent[k])
    {
      var max := if level < MAX_LEVELS then level else MAX_LEVELS;
      var n := if max >= 1 then max - 1 else 0;
      for i := 0 to n
        invariant forall k: nat | k < MAX_LEVELS :: descent[k] == if k < i then None else old(descent[k])
      {
        descent[i] := None;
      }
    }

    /** The deepest cached table on the walk of `vaddr`, at `floor` or above. */
    method DeepestCached(vaddr: nat, floor: nat) returns (current: nat, level: nat)
      requires pt.Valid() && descent.Length == MAX_LEVELS && 1 <= floor <= pt.c.geo.levels
      requires CacheOk(pt.c.geo, pt.view, descent[..], Some(vaddr))
      ensures floor <= level <= pt.c.geo.levels
      ensures IsTable(pt.view, pt.c.geo.PathOf(vaddr, level)) && pt.view[pt.c.geo.PathOf(vaddr, level)].frame == current
      ensures level < pt.c.geo.levels ==> descent[level - 1].Some?
      ensures floor == pt.c.geo.levels || descent[floor - 1].Some? ==> level == floor
    {
      hide Lawful;
      hide AllocatorOk;
      hide Sound;
      hide Geometry.Span;
      hide Represents;
      ghost var g := pt.c.geo;
      SoundTree(pt.c, pt.mem.Snapshot(), pt.view, pt.root, pt.foreign, pt.dirty);
      RootOnWalk(pt.c, pt.view, pt.root, vaddr);
      level := pt.c.geo.levels;
      current := pt.root;
      while level > floor
        invariant floor <= level <= g.levels
        invariant IsTable(pt.view, g.PathOf(vaddr, level)) && pt.view[g.PathOf(vaddr, level)].frame == current
        invariant level < g.levels ==> descent[level - 1].Some?
      {
        level := level - 1;
        assert SlotCached(g, pt.view, descent[..], vaddr, level);
        match descent[level - 1] {
          case Some(frame) =>
            current := frame;
          case None =>
            CachedDownTo(g, pt.view, descent[..], vaddr, floor, level);
            level := level + 1;
            break;
        }
      }
    }

    /** The tables of the last walk are cached down to `level`. */
    ghost predicate CachedTo(level: nat)
      requires 1 <= level <= descent.Length == MAX_LEVELS
      reads this, descent
    {
      level < pt.c.geo.levels ==> descent[level - 1].Some?
    }

    /** The last walk shares the table at `level` with that of `v`, and remembers it. */
    ghost predicate Warm(v: nat, level: nat)
      requires 1 <= level <= descent.Length == MAX_LEVELS
      reads this, descent
    {
      lastVaddr.Some? && pt.c.geo.PathOf(lastVaddr.value, level) == pt.c.geo.PathOf(v, level) && CachedTo(level)
    }

    /** Find the table to start from: forget what the walk of `vaddr` does not share with
        the last one, and take the deepest table left. */
    method StartOfWalk(vaddr: nat, targetLevel: nat) returns (current: nat, level: nat)
      requires Valid() && 1 <= targetLevel <= pt.c.geo.levels <= MAX_LEVELS
      modifies descent
      ensures CacheOk(pt.c.geo, pt.view, descent[..], Some(vaddr))
      ensures targetLevel <= level <= pt.c.geo.levels && CachedTo(level)
      ensures IsTable(pt.view, pt.c.geo.PathOf(vaddr, level)) && pt.view[pt.c.geo.PathOf(vaddr, level)].frame == current
      ensures old(Warm(vaddr, targetLevel)) ==> level == targetLevel
    {
      hide Lawful;
      hide AllocatorOk;
      hide Sound;
      hide CacheOk;
      hide QueueHolds;
      hide Geometry.PathOf;
      ghost var g := pt.c.geo;
      ghost var warm := Warm(vaddr, targetLevel);
      var reusable := ReusableLevel(vaddr);
      InvalidateBelow(reusable);
      CacheForNext(g, pt.view, old(descent[..]), descent[..], lastVaddr, vaddr, reusable);
      if warm {
        DifferenceBelow(g, lastVaddr.value, vaddr, g.levels, targetLevel);
      }
      current, level := DeepestCached(vaddr, if reusable > targetLevel then reusable else targetLevel);
    }

    /** Descend to the table at `targetLevel`, starting from the cached part of the walk. */
    method DescendCached(vaddr: nat, targetLevel: nat, ghost leaf: W) returns (r: Result<nat>)
      requires Valid() && 1 <= targetLevel <= pt.c.geo.levels <= MAX_LEVELS
      modifies this`lastVaddr, descent, pt`view, pt.mem
      ensures pt.Valid() && pt.dirty == old(pt.dirty)
      ensures r.Ok? ==>
                && CacheOk(pt.c.geo, pt.view, descent[..], Some(vaddr)) && CachedTo(targetLevel)
                && IsTable(pt.view, pt.c.geo.PathOf(vaddr, targetLevel))
                && pt.view[pt.c.geo.PathOf(vaddr, targetLevel)].frame == r.value
      ensures r.Err? ==> lastVaddr == None
      ensures MapWalk(pt.c, old(pt.mem.Snapshot()), pt.root, pt.c.geo.levels, targetLevel, vaddr, leaf)
              == if r.Err? then (pt.mem.Snapshot(), Err(r.error))
                 else MapWalk(pt.c, pt.mem.Snapshot(), r.value, targetLevel, targetLevel, vaddr, leaf)
      ensures pt.mem.readCount <= old(pt.mem.readCount) + (pt.c.geo.levels - targetLevel)
      ensures old(Warm(vaddr, targetLevel)) ==> pt.mem.readCount == old(pt.mem.readCount)
    {
      hide Lawful;
      hide AllocatorOk;
      hide Sound;
      hide CacheOk;
      hide QueueHolds;
      hide StepDown;
      hide MapWalk;
      hide Represents;
      hide TreeOk;
      hide Grew;
      hide Geometry.PathOf;
      hide PageTableCursor.Warm;
      hide Geometry.Span;
      hide Geometry.Shift;
      ghost var g := pt.c.geo;
      ghost var s := pt.mem.Snapshot();
      SoundTree(pt.c, s, pt.view, pt.root, pt.foreign, pt.dirty);
      var current, level := StartOfWalk(vaddr, targetLevel);
      RootOnWalk(pt.c, pt.view, pt.root, vaddr);
      WalkFromTable(pt.c, s, pt.view, pt.root, vaddr, g.levels, level, targetLevel, leaf);
      ghost var done := MapWalk(pt.c, s, pt.root, g.levels, targetLevel, vaddr, leaf);
      ghost var start := level;
      while level > targetLevel
        invariant pt.Valid() && pt.dirty == old(pt.dirty) && descent.Length == MAX_LEVELS
        invariant targetLevel <= level <= start && CachedTo(level)
        invariant CacheOk(g, pt.view, descent[..], Some(vaddr))
        invariant IsTable(pt.view, g.PathOf(vaddr, level)) && pt.view[g.PathOf(vaddr, level)].frame == current
        invariant MapWalk(pt.c, pt.mem.Snapshot(), current, level, targetLevel, vaddr, leaf) == done
        invariant pt.mem.readCount == old(pt.mem.readCount) + (start - level)
      {
        ghost var before := pt.view;
        WalkStepsDown(pt.c, pt.mem.Snapshot(), current, level, targetLevel, vaddr, leaf);
        var next := pt.DescendOrLink(current, level, vaddr);
        if next.Err? {
          // A failure on an entry of unknown kind keeps the cache; a walker's own tree has none.
          if next.error != InvalidEntryKind {
            lastVaddr := None;
          }
          return Err(next.error);
        }
        current := next.value;
        level := level - 1;
        CacheAfterLink(g, before, pt.view, descent[..], Some(vaddr), vaddr, level);
        CacheDeeper(g, pt.view, descent[..], vaddr, level, current);
        descent[level - 1] := Some(current);
      }
      return Ok(current);
    }

    /** Write the leaf into the table that the cached descent has reached, unless its entry is
        taken. */
    method InstallLeaf(range: AddrRange, paddr: nat, flags: F, size: PageSize, targetLevel: nat, current: nat,
                       ghost after: View<F>) returns (r: Result<()>)
      requires pt.Valid() && descent.Length == MAX_LEVELS && 1 <= targetLevel <= MAX_LEVELS
      requires LeafRequest(pt.c, range, paddr, flags, size, targetLevel) && targetLevel <= pt.c.geo.levels
      requires CacheOk(pt.c.geo, pt.view, descent[..], Some(range.start)) && CachedTo(targetLevel)
      requires QueueHolds(pending, needsFullFlush, pt.c.geo.Span(1), queued)
      requires forall v :: v in pt.dirty ==> v in queued
      requires IsTable(pt.view, pt.c.geo.PathOf(range.start, targetLevel))
      requires pt.view[pt.c.geo.PathOf(range.start, targetLevel)].frame == current
      requires var (s1, r1) := MapWalk(pt.c, pt.mem.Snapshot(), current, targetLevel, targetLevel, range.start,
                                       pt.c.codec.newLeaf(paddr, flags, size));
               Sound(pt.c, s1, after, pt.root, pt.foreign, if r1.Ok? then pt.dirty + AddressesOf(range) else pt.dirty)
      modifies this`lastVaddr, this`pending, this`needsFullFlush, this`queued, pt`view, pt`dirty, pt.mem
      ensures Valid() && pt.view == after
      ensures (pt.mem.Snapshot(), r) ==
              MapWalk(pt.c, old(pt.mem.Snapshot()), current, targetLevel, targetLevel, range.start,
                      pt.c.codec.newLeaf(paddr, flags, size))
      ensures pt.dirty == if r.Ok? then old(pt.dirty) + AddressesOf(range) else old(pt.dirty)
      ensures queued == if r.Ok? then old(queued) + AddressesOf(range) else old(queued)
      ensures lastVaddr == if r.Ok? then Some(range.start) else None
      ensures QueueStepped(old(pending), old(needsFullFlush), range, pt.c.geo.Span(1), r.Ok?, pending, needsFullFlush)
      ensures pt.mem.readCount == old(pt.mem.readCount) + 1
    {
      hide ConfigOk;
      hide Sound;
      hide CacheOk;
      hide QueueHolds;
      hide MapWalk;
      hide Geometry.PathOf;
      hide Geometry.IndexAt;
      hide LeafRequest;
      hide Store.Put;
      hide Queueable;
      hide Overflows;
      hide AddressesOf;
      ghost var c, reached, leaf := pt.c, pt.mem.Snapshot(), pt.c.codec.newLeaf(paddr, flags, size);
      InstallsHere(c, reached, pt.view, pt.root, pt.foreign, pt.dirty, range.start, targetLevel, leaf);
      var idx := pt.c.geo.IndexAt(targetLevel, range.start);
      var existing := pt.mem.ReadEntry(current, idx);
      if pt.c.codec.isPresent(existing) {
        lastVaddr := None;
        NothingCached(c.geo, after, descent[..]);
        pt.view := after;
        return Err(AlreadyMapped);
      }
      pt.mem.WriteEntry(current, idx, pt.c.codec.newLeaf(paddr, flags, size));
      CacheAfterInstall(c, reached, pt.view, after, pt.root, pt.foreign, pt.dirty, range, paddr, flags, size,
                        targetLevel, descent[..]);
      pt.view, pt.dirty := after, pt.dirty + AddressesOf(range);
      lastVaddr := Some(range.start);
      QueueRequest(c, range, paddr, flags, size, targetLevel);
      QueueFlushRange(range);
      return Ok(());
    }

    /** Map one leaf with the cached descent: the outcome is that of a walk from the root. */
    method MapLeafSizedAtLevel(range: AddrRange, paddr: nat, flags: F, size: PageSize, targetLevel: nat)
        returns (r: Result<()>)
      requires Valid() && LeafRequest(pt.c, range, paddr, flags, size, targetLevel)
      modifies this`lastVaddr, this`pending, this`needsFullFlush, this`queued, descent, pt`view, pt`dirty, pt.mem
      ensures Valid()
      ensures (pt.mem.Snapshot(), r) ==
              MapWalk(pt.c, old(pt.mem.Snapshot()), pt.root, pt.c.geo.levels, targetLevel, range.start,
                      pt.c.codec.newLeaf(paddr, flags, size))
      ensures MapOutcome(pt.c, pt.root, pt.foreign, old(pt.dirty), range, paddr, flags, targetLevel,
                         old(pt.mem.Snapshot()), old(pt.view), pt.mem.Snapshot(), pt.view, r)
      ensures pt.dirty == if r.Ok? then old(pt.dirty) + AddressesOf(range) else old(pt.dirty)
      ensures queued == if r.Ok? then old(queued) + AddressesOf(range) else old(queued)
      ensures lastVaddr == if r.Ok? then Some(range.start) else None
      ensures r.Ok? ==> Warm(range.start, targetLevel)
      ensures QueueStepped(old(pending), old(needsFullFlush), range, pt.c.geo.Span(1), r.Ok?, pending, needsFullFlush)
      ensures pt.mem.readCount <= old(pt.mem.readCount) + (pt.c.geo.levels - targetLevel) + 1
      ensures old(Warm(range.start, targetLevel)) ==> pt.mem.readCount <= old(pt.mem.readCount) + 1
    {
      hide ConfigOk;
      hide Sound;
      hide CacheOk;
      hide QueueHolds;
      hide MapOutcome;
      hide MapWalk;
      hide Geometry.PathOf;
      hide LeafRequest;
      hide Store.Put;
      hide Queueable;
      hide Overflows;
      hide AddressesOf;
      hide Geometry.IndexAt;
      hide Pow2;
      var vaddr := range.start;
      var leaf := pt.c.codec.newLeaf(paddr, flags, size);
      ghost var c := pt.c;
      ghost var after := WalkPlan(c, pt.mem.Snapshot(), pt.view, pt.root, pt.foreign, pt.dirty,
                                  range, paddr, flags, size, targetLevel);
      var found := DescendCached(vaddr, targetLevel, leaf);
      if found.Err? {
        NothingCached(c.geo, after, descent[..]);
        pt.view := after;
        return Err(found.error);
      }
      r := InstallLeaf(range, paddr, flags, size, targetLevel, found.value, after);
    }

    /** Map one leaf, once it has passed its checks. */
    method MapLeaf(range: AddrRange, paddr: nat, flags: F) returns (r: Result<()>)
      requires Valid() && range.Valid() && pt.c.codec.encodable(flags)
      modifies this`lastVaddr, this`pending, this`needsFullFlush, this`queued, descent, pt`view, pt`dirty, pt.mem
      ensures Valid()
      ensures LeafEffect(pt.c, pt.root, pt.foreign, old(pt.dirty), range, paddr, flags,
                         old(pt.mem.Snapshot()), old(pt.view), pt.mem.Snapshot(), pt.view, r)
      ensures pt.dirty == if r.Ok? then old(pt.dirty) + AddressesOf(range) else old(pt.dirty)
      ensures queued == if r.Ok? then old(queued) + AddressesOf(range) else old(queued)
      ensures QueueStepped(old(pending), old(needsFullFlush), range, pt.c.geo.Span(1), r.Ok?, pending, needsFullFlush)
      ensures lastVaddr == if r.Ok? then Some(range.start)
                           else if LeafCheck(pt.c.geo, range, paddr).Err? then old(lastVaddr) else None
      ensures pt.mem.readCount <= old(pt.mem.readCount) + pt.c.geo.levels
      ensures match LeafCheck(pt.c.geo, range, paddr)
              case Err(_) => pt.mem.readCount == old(pt.mem.readCount) && descent[..] == old(descent[..])
              case Ok((_, level)) =>
                1 <= level <= MAX_LEVELS
                && (r.Ok? ==> Warm(range.start, level))
                && (old(Warm(range.start, level)) ==> pt.mem.readCount <= old(pt.mem.readCount) + 1)
    {
      hide Overflows;
      hide Lawful;
      hide AllocatorOk;
      hide Sound;
      hide CacheOk;
      hide QueueHolds;
      hide MapOutcome;
      hide MapWalk;
      hide LeafRequest;
      hide Warm;
      CheckedLeaf(pt.c, range, paddr, flags);
      LawfulLevels(pt.c);
      var size :- CheckLeafRange(pt.c.geo, range);
      var _ :- CheckPaddr(pt.c.geo, paddr);
      if !size.IsAligned(range.start) || !size.IsAligned(paddr) {
        return Err(NotAligned);
      }
      var supported := SizeToLevel(pt.c.geo, size);
      var level :- supported.OkOr(UnsupportedSize);
      RequestLevel(pt.c, range, paddr, flags, size, level);
      r := MapLeafSizedAtLevel(range, paddr, flags, size, level);
    }

    /** The last leaf's table is cached. */
    ghost predicate WarmAfter(v: nat, tiles: seq<PageSize>)
      requires descent.Length == MAX_LEVELS
      reads this, descent
    {
      tiles == [] ||
      var level := pt.c.geo.LevelOfSize(tiles[|tiles| - 1]);
      level.Some? && 1 <= level.value <= MAX_LEVELS && Warm(v + Offset(tiles, |tiles| - 1), level.value)
    }

    lemma {:induction false} WarmAtStart(v: nat)
      requires descent.Length == MAX_LEVELS
      ensures WarmAfter(v, []) && ReadBound(pt.c.geo, v, []) == 0
    {
    }

    /** A leaf that is not cold finds its table cached. */
    lemma {:induction false} WarmForNext(v: nat, tiles: seq<PageSize>, size: PageSize)
      requires descent.Length == MAX_LEVELS && WarmAfter(v, tiles)
      requires !ColdTile(pt.c.geo, v, tiles + [size], |tiles|)
      ensures var level := pt.c.geo.LevelOfSize(size);
              level.Some? && 1 <= level.value <= MAX_LEVELS && Warm(v + Total(tiles), level.value)
    {
      TotalAppend(tiles, size);
    }

    lemma {:induction false} WarmWithNext(v: nat, tiles: seq<PageSize>, size: PageSize)
      requires descent.Length == MAX_LEVELS
      requires var level := pt.c.geo.LevelOfSize(size);
               level.Some? && 1 <= level.value <= MAX_LEVELS && Warm(v + Total(tiles), level.value)
      ensures WarmAfter(v, tiles + [size])
    {
      TotalAppend(tiles, size);
    }

    /** Between two leaves of the request that `j` set out on. */
    ghost predicate Midway(j: Journey<W, F>, leaves: seq<LeafAt>)
      reads this, descent, pt, pt.mem
    {
      && Valid() && pt.c.codec.encodable(j.flags)
      && Underway(pt.c, pt.root, j.store, j.view, pt.mem.Snapshot(), pt.view, j.request, j.flags, leaves)
      && pt.dirty == j.dirty + AddressesOf(j.request.First(DoneBytes(leaves)))
      && queued == j.queued + AddressesOf(j.request.First(DoneBytes(leaves)))
      && (j.queueEmpty ==> j.queued == iset{} && !needsFullFlush)
      && lastVaddr == LastMapped(j.last, leaves)
      && WarmAfter(j.request.range.start, SizesOf(leaves))
      && pt.mem.readCount <= j.readsBefore + ReadBound(pt.c.geo, j.request.range.start, SizesOf(leaves))
    }

    /** The end of that request. */
    ghost predicate Arrived(j: Journey<W, F>, r: Result<()>, leaves: seq<LeafAt>)
      reads this, descent, pt, pt.mem
    {
      && Valid()
      && RequestOutcome(pt.c, pt.root, j.store, j.view, pt.mem.Snapshot(), pt.view, j.request, j.flags, r, leaves)
      && pt.dirty == j.dirty + AddressesOf(j.request.First(DoneBytes(leaves)))
      && queued == j.queued + AddressesOf(j.request.First(DoneBytes(leaves)))
      && (j.queueEmpty ==> j.queued == iset{} && !needsFullFlush)
      && lastVaddr == (if r.Err? && !FailsChecks(pt.c.geo, j.request, DoneBytes(leaves), r.error) then None
                       else LastMapped(j.last, leaves))
      && (r.Ok? ==> pt.mem.readCount <= j.readsBefore + ReadBound(pt.c.geo, j.request.range.start, SizesOf(leaves)))
    }

    /** Map `range` as one leaf of `size`: by the checks of a single leaf, or directly when its
        length has already decided its level. */
    method MapOne(range: AddrRange, paddr: nat, flags: F, size: PageSize, decided: Option<nat>) returns (r: Result<()>)
      requires Valid() && range.Valid() && pt.c.codec.encodable(flags) && range.Size() == size.Bytes()
      requires decided.Some? ==> LeafCheck(pt.c.geo, range, paddr) == Ok((size, decided.value))
      modifies this`lastVaddr, this`pending, this`needsFullFlush, this`queued, descent, pt`view, pt`dirty, pt.mem
      ensures Valid()
      ensures LeafEffect(pt.c, pt.root, pt.foreign, old(pt.dirty), range, paddr, flags,
                         old(pt.mem.Snapshot()), old(pt.view), pt.mem.Snapshot(), pt.view, r)
      ensures pt.dirty == if r.Ok? then old(pt.dirty) + AddressesOf(range) else old(pt.dirty)
      ensures queued == if r.Ok? then old(queued) + AddressesOf(range) else old(queued)
      ensures QueueStepped(old(pending), old(needsFullFlush), range, pt.c.geo.Span(1), r.Ok?, pending, needsFullFlush)
      ensures lastVaddr == if r.Ok? then Some(range.start)
                           else if LeafCheck(pt.c.geo, range, paddr).Err? then old(lastVaddr) else None
      ensures pt.mem.readCount <= old(pt.mem.readCount) + pt.c.geo.levels
      ensures var level := pt.c.geo.LevelOfSize(size);
              && (r.Ok? ==> level.Some? && 1 <= level.value <= MAX_LEVELS && Warm(range.start, level.value))
              && (level.Some? && 1 <= level.value <= MAX_LEVELS && old(Warm(range.start, level.value)) ==>
                    pt.mem.readCount <= old(pt.mem.readCount) + 1)
    {
      hide QueueStepped;
      hide Valid;
      hide LeafEffect;
      hide LeafCheck;
      hide Warm;
      hide AddressesOf;
      hide MapOutcome;
      hide MapWalk;
      hide LeafRequest;
      hide ConfigOk;
      hide PageSize.Bytes;
      ghost var c, s, view, dirty := pt.c, pt.mem.Snapshot(), pt.view, pt.dirty;
      CacheLength();
      ConfigOfValid();
      LawfulLevels(c);
      CheckedSize(c.geo, range, paddr, size);
      match decided {
        case None =>
          r := MapLeaf(range, paddr, flags);
          CheckOfEffect(c, pt.root, pt.foreign, dirty, range, paddr, flags, s, view, pt.mem.Snapshot(), pt.view, r);
        case Some(level) =>
          CheckedLeaf(c, range, paddr, flags);
          RequestLevel(c, range, paddr, flags, size, level);
          r := MapLeafSizedAtLevel(range, paddr, flags, size, level);
          AsLeafEffect(c, pt.root, pt.foreign, dirty, range, paddr, flags, s, view, pt.mem.Snapshot(), pt.view, r,
                       size, level);
      }
    }

    lemma {:induction false} ConfigOfValid()
      requires Valid()
      ensures ConfigOk(pt.c) && Sound(pt.c, pt.mem.Snapshot(), pt.view, pt.root, pt.foreign, pt.dirty)
    {
    }

    /** Map the next leaf of a request. */
    method MapNext(ghost j: Journey<W, F>, ghost leaves: seq<LeafAt>, vaddr: nat, paddr: nat, flags: F, size: PageSize,
                   decided: Option<nat>) returns (r: Result<()>)
      requires Midway(j, leaves) && flags == j.flags
      requires var leaf := LeafAt(vaddr, size, paddr);
               && NextLeaf(pt.c.geo, j.request, DoneBytes(leaves)) == Ok(leaf)
               && LinearAt(j.request, DoneBytes(leaves), leaf) && j.request.range.Valid()
               && DoneBytes(leaves) + size.Bytes() <= j.request.range.Size()
               && (decided.Some? ==> LeafCheck(pt.c.geo, leaf.Range(), paddr) == Ok((size, decided.value)))
      modifies this`lastVaddr, this`pending, this`needsFullFlush, this`queued, descent, pt`view, pt`dirty, pt.mem
      ensures r.Ok? ==> Midway(j, leaves + [LeafAt(vaddr, size, paddr)])
      ensures r.Err? ==> Arrived(j, r, leaves)
    {
      hide Valid;
      hide Underway;
      hide RequestOutcome;
      hide LeafEffect;
      hide LeafCheck;
      hide Warm;
      hide WarmAfter;
      hide ColdTile;
      hide ReadBound;
      hide NextLeaf;
      hide LinearAt;
      hide AddressesOf;
      hide ConfigOk;
      hide Sound;
      hide QueueStepped;
      hide FailsChecks;
      hide PageSize.Bytes;
      hide SizesOf;
      ghost var c, s, view, dirty := pt.c, pt.mem.Snapshot(), pt.view, pt.dirty;
      ghost var leaf, sizes := LeafAt(vaddr, size, paddr), SizesOf(leaves);
      CacheLength();
      ConfigOfValid();
      NextRange(c.geo, j.request, DoneBytes(leaves), leaf);
      SizesAppend(leaves, leaf);
      NextCost(c.geo, j.request, leaves, leaf);
      if !ColdTile(c.geo, j.request.range.start, sizes + [size], |sizes|) {
        WarmForNext(j.request.range.start, sizes, size);
      }
      ShortQueue(j, leaves);
      var range :- RangeFromStartSize(vaddr, size.Bytes()).OkOr(AddressOutOfRange);
      ghost var before, wasFull := pending, needsFullFlush;
      r := MapOne(range, paddr, flags, size, decided);
      CacheLength();
      if j.queueEmpty {
        ShortQueueGrows(before, range, c.geo.Span(1), r.Ok?, pending, needsFullFlush);
      }
      if r.Ok? {
        assert r.value == ();
        NextMapped(j, leaves, leaf, s, view, dirty);
      } else {
        NextFailed(j, leaves, leaf, s, view, dirty, r);
      }
    }

    /** The request goes on behind a leaf that has been mapped. */
    lemma {:induction false} NextMapped(
        j: Journey<W, F>, leaves: seq<LeafAt>, leaf: LeafAt, s: Store<W>, view: View<F>, dirty: iset<nat>)
      requires Valid() && ConfigOk(pt.c) && pt.c.codec.encodable(j.flags)
      requires Sound(pt.c, s, view, pt.root, pt.foreign, dirty)
      requires Underway(pt.c, pt.root, j.store, j.view, s, view, j.request, j.flags, leaves)
      requires NextLeaf(pt.c.geo, j.request, DoneBytes(leaves)) == Ok(leaf)
      requires LinearAt(j.request, DoneBytes(leaves), leaf) && leaf.start == j.request.range.start + DoneBytes(leaves)
      requires DoneBytes(leaves) + leaf.size.Bytes() <= j.request.range.Size()
      requires LeafEffect(pt.c, pt.root, pt.foreign, dirty, leaf.Range(), leaf.paddr, j.flags,
                          s, view, pt.mem.Snapshot(), pt.view, Ok(()))
      requires dirty == j.dirty + AddressesOf(j.request.First(DoneBytes(leaves)))
      requires pt.dirty == dirty + AddressesOf(leaf.Range())
      requires queued == j.queued + AddressesOf(j.request.First(DoneBytes(leaves))) + AddressesOf(leaf.Range())
      requires (j.queueEmpty ==> j.queued == iset{} && !needsFullFlush) && lastVaddr == Some(leaf.start)
      requires descent.Length == MAX_LEVELS
      requires var level := pt.c.geo.LevelOfSize(leaf.size);
               level.Some? && 1 <= level.value <= MAX_LEVELS && Warm(leaf.start, level.value)
      requires pt.mem.readCount <= j.readsBefore + ReadBound(pt.c.geo, j.request.range.start, SizesOf(leaves + [leaf]))
      ensures Midway(j, leaves + [leaf])
    {
      hide Valid;
      hide Underway;
      hide LeafEffect;
      hide Warm;
      hide WarmAfter;
      hide ReadBound;
      hide NextLeaf;
      hide LinearAt;
      hide AddressesOf;
      hide ConfigOk;
      hide Sound;
      hide PageSize.Bytes;
      UnderwayGrows(pt.c, pt.root, pt.foreign, dirty, j.store, j.view, s, view, pt.mem.Snapshot(), pt.view,
                    j.request, j.flags, leaves, leaf);
      AddressesGrow(j.request, DoneBytes(leaves), leaf);
      SizesAppend(leaves, leaf);
      WarmWithNext(j.request.range.start, SizesOf(leaves), leaf.size);
    }

    /** It ends at one that fails. */
    lemma {:induction false} NextFailed(
        j: Journey<W, F>, leaves: seq<LeafAt>, leaf: LeafAt, s: Store<W>, view: View<F>, dirty: iset<nat>,
        r: Result<()>)
      requires Valid() && ConfigOk(pt.c) && Sound(pt.c, s, view, pt.root, pt.foreign, dirty) && r.Err?
      requires Underway(pt.c, pt.root, j.store, j.view, s, view, j.request, j.flags, leaves)
      requires NextLeaf(pt.c.geo, j.request, DoneBytes(leaves)) == Ok(leaf)
      requires DoneBytes(leaves) + leaf.size.Bytes() <= j.request.range.Size()
      requires LeafEffect(pt.c, pt.root, pt.foreign, dirty, leaf.Range(), leaf.paddr, j.flags,
                          s, view, pt.mem.Snapshot(), pt.view, r)
      requires pt.dirty == dirty == j.dirty + AddressesOf(j.request.First(DoneBytes(leaves)))
      requires queued == j.queued + AddressesOf(j.request.First(DoneBytes(leaves)))
      requires j.queueEmpty ==> j.queued == iset{} && !needsFullFlush
      requires lastVaddr ==
                 if LeafCheck(pt.c.geo, leaf.Range(), leaf.paddr).Err? then LastMapped(j.last, leaves) else None
      ensures Arrived(j, r, leaves)
    {
      hide Valid;
      hide Underway;
      hide RequestOutcome;
      hide LeafEffect;
      hide LeafCheck;
      hide NextLeaf;
      hide AddressesOf;
      hide ConfigOk;
      hide Sound;
      hide FailsChecks;
      hide PageSize.Bytes;
      FailureOfLeaf(pt.c, pt.root, pt.foreign, dirty, s, view, pt.mem.Snapshot(), pt.view, j.request, j.flags,
                    DoneBytes(leaves), leaf, r);
      UnderwayFails(pt.c, pt.root, pt.foreign, dirty, j.store, j.view, s, view, pt.mem.Snapshot(), pt.view,
                    j.request, j.flags, leaves, leaf, r);
    }

    /** What a request queues is one interval, so a queue that was empty stays short. */
    lemma {:induction false} ShortQueue(j: Journey<W, F>, leaves: seq<LeafAt>)
      requires Midway(j, leaves)
      ensures j.queueEmpty ==> |pending| <= 1 && !needsFullFlush
    {
      hide Underway;
      hide WarmAfter;
      hide ReadBound;
      hide CacheOk;
      hide ConfigOk;
      hide Sound;
      if j.queueEmpty {
        QueueOfInterval(pending, pt.c.geo.Span(1), j.request.First(DoneBytes(leaves)));
      }
    }

    lemma {:induction false} MidwayIsValid(j: Journey<W, F>, leaves: seq<LeafAt>)
      requires Midway(j, leaves)
      ensures Valid()
    {
    }

    /** A request ends where no leaf can be chosen. */
    lemma {:induction false} StuckHere(j: Journey<W, F>, leaves: seq<LeafAt>, e: PagingError)
      requires Midway(j, leaves) && DoneBytes(leaves) < j.request.range.Size()
      requires NextLeaf(pt.c.geo, j.request, DoneBytes(leaves)) == Err(e)
      ensures Arrived(j, Err(e), leaves)
    {
      hide Valid;
      hide Underway;
      hide RequestOutcome;
      hide WarmAfter;
      hide ReadBound;
      hide AddressesOf;
      UnderwayStuck(pt.c, pt.root, j.store, j.view, pt.mem.Snapshot(), pt.view, j.request, j.flags, leaves, e);
    }

    /** And where the next leaf fails its checks. */
    lemma {:induction false} RefusedHere(j: Journey<W, F>, leaves: seq<LeafAt>, e: PagingError)
      requires Midway(j, leaves)
      requires var next := NextLeaf(pt.c.geo, j.request, DoneBytes(leaves));
               && next.Ok? && DoneBytes(leaves) + next.value.size.Bytes() <= j.request.range.Size()
               && LeafCheck(pt.c.geo, next.value.Range(), next.value.paddr) == Err(e)
      ensures Arrived(j, Err(e), leaves)
    {
      hide Underway;
      hide RequestOutcome;
      hide WarmAfter;
      hide ReadBound;
      hide AddressesOf;
      hide NextLeaf;
      hide LeafCheck;
      hide CacheOk;
      hide QueueHolds;
      hide ConfigOk;
      hide Sound;
      hide PageSize.Bytes;
      var leaf, s := NextLeaf(pt.c.geo, j.request, DoneBytes(leaves)).value, pt.mem.Snapshot();
      UnderwayFails(pt.c, pt.root, pt.foreign, pt.dirty, j.store, j.view, s, pt.view, s, pt.view, j.request, j.flags,
                    leaves, leaf, Err(e));
    }

    /** What a request has queued if nothing was pending when it set out. */
    lemma {:induction false} QueueOnArrival(j: Journey<W, F>, r: Result<()>, leaves: seq<LeafAt>)
      requires Arrived(j, r, leaves) && j.queueEmpty
      ensures pt.c.geo.Lawful() && !needsFullFlush
      ensures QueueHolds(pending, false, pt.c.geo.Span(1), AddressesOf(j.request.First(DoneBytes(leaves))))
    {
      hide RequestOutcome;
      hide CacheOk;
      hide QueueHolds;
      hide Sound;
      hide FailsChecks;
      hide AddressesOf;
      hide ReadBound;
      hide Geometry.Lawful;
      var done := AddressesOf(j.request.First(DoneBytes(leaves)));
      assert iset{} + done == done;
    }

    /** A request sets out. */
    ghost function SetOut(q: Request, flags: F): Journey<W, F>
      reads this, pt, pt.mem
    {
      Journey(pt.mem.Snapshot(), pt.view, pt.dirty, queued, pending == [] && !needsFullFlush, lastVaddr,
              pt.mem.readCount, q, flags)
    }

    lemma {:induction false} MidwayStarts(q: Request, flags: F)
      requires Valid() && pt.c.codec.encodable(flags)
      ensures Midway(SetOut(q, flags), []) && DoneBytes([]) == 0
    {
      hide Valid;
      hide Underway;
      hide WarmAfter;
      hide ReadBound;
      assert descent.Length == MAX_LEVELS by { CacheLength(); }
      EmptyQueue();
      UnderwayStarts(pt.c, pt.root, pt.mem.Snapshot(), pt.view, q, flags);
      WarmAtStart(q.range.start);
      assert SizesOf([]) == [];
      assert AddressesOf(q.First(0)) == iset{};
    }

    lemma {:induction false} EmptyQueue()
      requires Valid()
      ensures pending == [] && !needsFullFlush ==> queued == iset{}
    {
      hide CacheOk;
      hide QueueOk;
      NothingCovered(pt.c.geo.Span(1));
    }

    lemma {:induction false} CacheLength()
      requires Valid()
      ensures descent.Length == MAX_LEVELS
    {
    }

    lemma {:induction false} ArrivedAtEnd(j: Journey<W, F>, leaves: seq<LeafAt>)
      requires Midway(j, leaves) && DoneBytes(leaves) == j.request.range.Size()
      ensures Arrived(j, Ok(()), leaves)
    {
      hide Valid;
      hide Underway;
      hide RequestOutcome;
      hide WarmAfter;
      hide ReadBound;
      hide AddressesOf;
      UnderwayEnds(pt.c, pt.root, j.store, j.view, pt.mem.Snapshot(), pt.view, j.request, j.flags, leaves);
    }

    /** Map one extent of a request leaf by leaf, each of the fixed size or as large as fits. */
    method MapPieces(ghost j: Journey<W, F>, ghost before: seq<LeafAt>, range: AddrRange, phys: AddrRange, flags: F,
                     fixed: Option<PageSize>) returns (r: Result<()>, ghost leaves: seq<LeafAt>)
      requires Midway(j, before) && flags == j.flags && fixed == j.request.fixed
      requires ExtentOf(j.request, DoneBytes(before), range, phys)
      modifies this`lastVaddr, this`pending, this`needsFullFlush, this`queued, descent, pt`view, pt`dirty, pt.mem
      ensures r.Ok? ==> Midway(j, leaves) && DoneBytes(leaves) == DoneBytes(before) + range.Size()
      ensures r.Err? ==> Arrived(j, r, leaves)
    {
      hide Midway;
      hide Arrived;
      hide ExtentOf;
      hide BackedBy;
      hide PieceSize;
      hide NextLeaf;
      hide LinearAt;
      hide PageSize.Bytes;
      leaves := before;
      ExtentFacts(j.request, DoneBytes(before), range, phys);
      var offset, total := 0, range.Size();
      while offset < total
        invariant 0 <= offset <= total && Midway(j, leaves) && DoneBytes(leaves) == DoneBytes(before) + offset
        invariant WithinExtent(j.request, offset)
        decreases total - offset
      {
        var vaddr :- OffsetAddress(range.start, offset);
        var paddr :- OffsetAddress(phys.start, offset);
        var next := ChooseSize(pt.c.geo, fixed, vaddr, paddr, total - offset);
        GranuleHasRoom(j.request, DoneBytes(before), range, phys, offset);
        NextInExtent(pt.c.geo, j.request, DoneBytes(before), range, phys, offset);
        if next.Err? {
          StuckHere(j, leaves, next.error);
          return Err(next.error), leaves;
        }
        var size := next.value;
        r := MapNext(j, leaves, vaddr, paddr, flags, size, None);
        if r.Err? {
          return r, leaves;
        }
        SizesAppend(leaves, LeafAt(vaddr, size, paddr));
        leaves := leaves + [LeafAt(vaddr, size, paddr)];
        offset := offset + size.Bytes();
      }
      return Ok(()), leaves;
    }

    /** Map one extent: as one leaf if its length is a leaf size, otherwise leaf by leaf. */
    method MapContiguous(ghost j: Journey<W, F>, ghost before: seq<LeafAt>, range: AddrRange, phys: AddrRange, flags: F,
                         fixed: Option<PageSize>) returns (r: Result<()>, ghost leaves: seq<LeafAt>)
      requires Midway(j, before) && flags == j.flags && fixed == j.request.fixed
      requires range.Valid() && phys.Valid()
      requires range.Size() == phys.Size() > 0 ==> ExtentOf(j.request, DoneBytes(before), range, phys)
      modifies this`lastVaddr, this`pending, this`needsFullFlush, this`queued, descent, pt`view, pt`dirty, pt.mem
      ensures match ContiguousCheck(pt.c.geo, range, phys, fixed)
              case Err(e) =>
                && r == Err(e) && leaves == before && Midway(j, before) && Valid()
                && pt.mem.Snapshot() == old(pt.mem.Snapshot())
                && pt.view == old(pt.view) && pt.dirty == old(pt.dirty) && queued == old(queued)
                && pending == old(pending) && needsFullFlush == old(needsFullFlush) && lastVaddr == old(lastVaddr)
                && (fixed.Some? && range.Size() == phys.Size() > 0 ==> Arrived(j, r, before))
              case Ok(_) =>
                && (r.Ok? ==> Midway(j, leaves) && DoneBytes(leaves) == DoneBytes(before) + range.Size())
                && (r.Err? ==> Arrived(j, r, leaves))
    {
      hide Valid;
      hide Midway;
      hide Arrived;
      hide ExtentOf;
      hide ExactLeafSize;
      hide NextLeaf;
      hide LinearAt;
      MidwayIsValid(j, before);
      if range.Size() == 0 || phys.Size() == 0 || range.Size() != phys.Size() {
        return Err(InvalidMappingShape), before;
      }
      var exact := ExactLeafSize(pt.c.geo, range, phys.start, fixed);
      if exact.Err? {
        if fixed.Some? {
          RefusedInExtent(pt.c.geo, j.request, DoneBytes(before), range, phys, exact.error);
          RefusedHere(j, before, exact.error);
        }
        return Err(exact.error), before;
      }
      if exact.value.Some? {
        var (size, level) := exact.value.value;
        ExactInExtent(pt.c.geo, j.request, DoneBytes(before), range, phys, size, level);
        r := MapNext(j, before, range.start, phys.start, flags, size, Some(level));
        SizesAppend(before, LeafAt(range.start, size, phys.start));
        return r, if r.Ok? then before + [LeafAt(range.start, size, phys.start)] else before;
      }
      r, leaves := MapPieces(j, before, range, phys, flags, fixed);
    }

    /** Map the extents one after the other. */
    method MapSegments(ghost j: Journey<W, F>, range: AddrRange, ranges: seq<AddrRange>, flags: F, granule: PageSize)
        returns (r: Result<()>, ghost leaves: seq<LeafAt>)
      requires Midway(j, []) && flags == j.flags && j.request == Request(range, ranges, Some(granule))
      requires ScatterShape(range, ranges, granule)
      modifies this`lastVaddr, this`pending, this`needsFullFlush, this`queued, descent, pt`view, pt`dirty, pt.mem
      ensures Arrived(j, r, leaves)
    {
      hide Midway;
      hide Arrived;
      hide ExtentOf;
      hide ContiguousCheck;
      hide AllocatorOk;
      hide DoneBytes;
      hide PageTableWalker.Valid;
      leaves := [];
      ShapeStarts(range, ranges, granule);
      var offset := 0;
      for k := 0 to |ranges|
        invariant Midway(j, leaves) && DoneBytes(leaves) == offset == SegOffset(ranges, k)
        invariant granule.IsAligned(offset)
      {
        NextExtent(range, ranges, granule, k);
        var vaddr :- OffsetAddress(range.start, offset);
        var vrange :- RangeFromStartSize(vaddr, ranges[k].Size()).OkOr(AddressOutOfRange);
        r, leaves := MapContiguous(j, leaves, vrange, ranges[k], flags, Some(granule));
        if r.Err? {
          return;
        }
        offset := offset + ranges[k].Size();
      }
      ArrivedAtEnd(j, leaves);
      r := Ok(());
    }

    /** Map a range to a list of extents, every leaf at exactly the granule. */
    method MapScattered(range: AddrRange, backing: MapBacking, flags: F, granule: PageSize)
        returns (r: Result<()>, ghost leaves: seq<LeafAt>)
      requires Valid() && range.Valid() && BackingValid(backing) && pt.c.codec.encodable(flags)
      modifies this`lastVaddr, this`pending, this`needsFullFlush, this`queued, descent, pt`view, pt`dirty, pt.mem
      ensures match ScatterCheck(pt.c.geo, range, backing, granule)
              case Err(e) =>
                && r == Err(e) && leaves == [] && Valid() && pt.mem.Snapshot() == old(pt.mem.Snapshot())
                && pt.view == old(pt.view) && pt.dirty == old(pt.dirty) && queued == old(queued)
                && pending == old(pending) && needsFullFlush == old(needsFullFlush) && lastVaddr == old(lastVaddr)
              case Ok(_) =>
                Arrived(old(SetOut(Request(range, ExtentsOf(backing), Some(granule)), flags)), r, leaves)
    {
      hide Valid;
      hide Midway;
      hide Arrived;
      hide SegmentsOk;
      hide Machine.Snapshot;
      hide CheckScatterSegment;
      hide DoneBytes;
      hide PageTableCursor.Valid;
      ghost var extents := ExtentsOf(backing);
      ghost var j := SetOut(Request(range, extents, Some(granule)), flags);
      MidwayStarts(Request(range, extents, Some(granule)), flags);
      if range.Size() == 0 || !granule.IsAligned(range.Size()) {
        return Err(InvalidMappingShape), [];
      }
      var supported := SizeToLevel(pt.c.geo, granule);
      if supported.None? {
        return Err(UnsupportedSize), [];
      }
      match backing {
        case OneExtent(phys) =>
          OneSegment(phys, granule);
          var checked := CheckScatterSegment(phys, granule);
          if checked.Err? || phys.Size() != range.Size() {
            return Err(InvalidMappingShape), [];
          }
          NextExtent(range, extents, granule, 0);
          r, leaves := MapContiguous(j, [], range, phys, flags, Some(granule));
          if r.Ok? {
            assert r.value == ();
            ArrivedAtEnd(j, leaves);
          }
        case ManyExtents(ranges) =>
          var checked := CheckSegments(ranges, granule, range.Size());
          if checked.Err? {
            return Err(checked.error), [];
          }
          r, leaves := MapSegments(j, range, ranges, flags, granule);
      }
    }

    /** Map a range as its flags ask for; invalidation is queued. */
    method Map(range: AddrRange, backing: MapBacking, flags: MappingFlags<F>)
        returns (r: Result<()>, ghost leaves: seq<LeafAt>)
      requires Valid() && range.Valid() && BackingValid(backing) && pt.c.codec.encodable(flags.leaf)
      modifies this`lastVaddr, this`pending, this`needsFullFlush, this`queued, descent, pt`view, pt`dirty, pt.mem
      ensures match RequestCheck(pt.c.geo, range, backing, flags)
              case Err(e) =>
                && r == Err(e) && leaves == [] && Valid() && pt.mem.Snapshot() == old(pt.mem.Snapshot())
                && pt.view == old(pt.view) && pt.dirty == old(pt.dirty) && queued == old(queued)
                && pending == old(pending) && needsFullFlush == old(needsFullFlush) && lastVaddr == old(lastVaddr)
              case Ok(q) => Arrived(old(SetOut(q, flags.leaf)), r, leaves)
    {
      hide Valid;
      hide Midway;
      hide Arrived;
      hide ContiguousCheck;
      hide ScatterCheck;
      match flags.contiguity {
        case Contiguous =>
          match backing {
            case OneExtent(phys) =>
              ghost var q := Request(range, [phys], None);
              ghost var j := SetOut(q, flags.leaf);
              MidwayStarts(q, flags.leaf);
              WholeExtent(range, phys);
              r, leaves := MapContiguous(j, [], range, phys, flags.leaf, None);
              if r.Ok? {
                assert r.value == ();
                ArrivedAtEnd(j, leaves);
              }
            case ManyExtents(_) =>
              return Err(InvalidMappingShape), [];
          }
        case Scattered(granule) =>
          r, leaves := MapScattered(range, backing, flags.leaf, granule);
      }
    }

    /** Unmap an exact leaf; the cached descent is forgotten, since reclaiming may free it. */
    method Unmap(range: AddrRange) returns (r: Result<Mapping<F>>)
      requires Valid()
      modifies this`lastVaddr, this`pending, this`needsFullFlush, this`queued, descent, pt`view, pt`dirty, pt.mem
      ensures Valid()
      ensures r == UnmapResult(pt.c, old(pt.view), range) && lastVaddr == None
      ensures r.Ok? <==> HoldsLeaf(pt.c.geo, old(pt.view), range)
      ensures r.Ok? ==> r == QueryResult(pt.c.geo, old(pt.view), range.start) && r.value.range == range
      ensures r.Err? ==> r.error == if pt.c.geo.VaddrIsValid(range.start) then NotMapped else AddressOutOfRange
      ensures r.Ok? ==>
                forall v: nat ::
                  QueryResult(pt.c.geo, pt.view, v) ==
                  if range.Contains(v) then Err(NotMapped) else QueryResult(pt.c.geo, old(pt.view), v)
      ensures forall k: nat | k + 1 < pt.c.geo.levels && k < MAX_LEVELS :: descent[k] == None
      ensures (pt.mem.Snapshot(), r) == UnmapStep(pt.c, old(pt.mem.Snapshot()), pt.root, range)
      ensures r.Err? ==> pt.mem.Snapshot() == old(pt.mem.Snapshot()) && pt.view == old(pt.view)
      ensures r.Ok? ==> LeafRemoved(pt.c, pt.root, pt.foreign, old(pt.dirty), range,
                                    ExactLevel(pt.c.geo, old(pt.view), range).value,
                                    old(pt.mem.Snapshot()), old(pt.view), pt.mem.Snapshot(), pt.view)
      ensures var more := if r.Ok? then AddressesOf(range) else iset{};
              pt.dirty == old(pt.dirty) + more && queued == old(queued) + more
    {
      hide Lawful;
      hide AllocatorOk;
      hide Sound;
      hide CacheOk;
      hide QueueHolds;
      hide LeafRemoved;
      hide AddressesOf;
      hide ExactLevel;
      hide UnmapStep;
      hide HoldsLeaf;
      hide QueryResult;
      LawfulLevels(pt.c);
      InvalidateBelow(pt.c.geo.levels);
      lastVaddr := None;
      NothingCached(pt.c.geo, pt.view, descent[..]);
      ExactQueueable(pt.c, pt.mem.Snapshot(), pt.view, pt.root, range, pt.foreign, pt.dirty);
      var mapping :- pt.UnmapNoFlush(range);
      NothingCached(pt.c.geo, pt.view, descent[..]);
      QueueFlushRange(mapping.range);
      return Ok(mapping);
    }

    /** Change the flags of an exact leaf; invalidation is queued and the cache is kept. */
    method Protect(range: AddrRange, flags: F) returns (r: Result<Mapping<F>>)
      requires Valid() && pt.c.codec.encodable(flags)
      modifies this`lastVaddr, this`pending, this`needsFullFlush, this`queued, descent, pt`view, pt`dirty, pt.mem
      ensures Valid()
      ensures r == ProtectResult(pt.c, old(pt.view), range, flags)
      ensures r.Ok? <==> HoldsLeaf(pt.c.geo, old(pt.view), range)
      ensures r.Ok? ==>
                var q := QueryResult(pt.c.geo, old(pt.view), range.start);
                q.Ok? && q.value.range == range && r.value == Mapping(range, q.value.paddr, flags)
      ensures r.Err? ==> r.error == if pt.c.geo.VaddrIsValid(range.start) then NotMapped else AddressOutOfRange
      ensures r.Ok? ==>
                forall v: nat ::
                  QueryResult(pt.c.geo, pt.view, v) ==
                  if range.Contains(v) then Ok(Mapping(range, r.value.paddr, pt.c.codec.Norm(flags)))
                  else QueryResult(pt.c.geo, old(pt.view), v)
      ensures descent[..] == old(descent[..]) && lastVaddr == old(lastVaddr)
      ensures (pt.mem.Snapshot(), r) == ProtectStep(pt.c, old(pt.mem.Snapshot()), pt.root, range, flags)
      ensures r.Err? ==> pt.mem.Snapshot() == old(pt.mem.Snapshot()) && pt.view == old(pt.view)
      ensures r.Ok? ==> LeafReplaced(pt.c, pt.root, pt.foreign, old(pt.dirty), range,
                                     ExactLevel(pt.c.geo, old(pt.view), range).value, r.value.paddr,
                                     pt.c.codec.Norm(flags),
                                     old(pt.mem.Snapshot()), old(pt.view), pt.mem.Snapshot(), pt.view)
      ensures var more := if r.Ok? then AddressesOf(range) else iset{};
              pt.dirty == old(pt.dirty) + more && queued == old(queued) + more
    {
      hide Lawful;
      hide AllocatorOk;
      hide Sound;
      hide CacheOk;
      hide QueueHolds;
      hide LeafReplaced;
      hide AddressesOf;
      hide ProtectStep;
      hide HoldsLeaf;
      hide QueryResult;
      ghost var view := pt.view;
      ExactQueueable(pt.c, pt.mem.Snapshot(), view, pt.root, range, pt.foreign, pt.dirty);
      var mapping :- pt.ProtectNoFlush(range, flags);
      CacheAfterReplace(pt.c, pt.root, pt.foreign, old(pt.dirty), range, ExactLevel(pt.c.geo, view, range).value,
                        mapping.paddr, pt.c.codec.Norm(flags), old(pt.mem.Snapshot()), view, pt.mem.Snapshot(), pt.view,
                        descent[..], lastVaddr);
      QueueFlushRange(mapping.range);
      return Ok(mapping);
    }

    /** Retarget an exact leaf; invalidation is queued and the cache is kept. */
    method Remap(range: AddrRange, paddr: nat, flags: F) returns (r: Result<Mapping<F>>)
      requires Valid() && pt.c.codec.encodable(flags)
      modifies this`lastVaddr, this`pending, this`needsFullFlush, this`queued, descent, pt`view, pt`dirty, pt.mem
      ensures Valid()
      ensures r == RemapResult(pt.c, old(pt.view), range, paddr, flags)
      ensures r.Ok? <==>
                && HoldsLeaf(pt.c.geo, old(pt.view), range)
                && paddr < Pow2(pt.c.geo.paBits) && paddr % range.Size() == 0
      ensures r.Ok? ==> r.value == Mapping(range, paddr, flags)
      ensures r.Err? ==>
                r.error == if paddr >= Pow2(pt.c.geo.paBits) || !pt.c.geo.VaddrIsValid(range.start)
                           then AddressOutOfRange
                           else if !HoldsLeaf(pt.c.geo, old(pt.view), range) then NotMapped
                           else NotAligned
      ensures r.Ok? ==>
                forall v: nat ::
                  QueryResult(pt.c.geo, pt.view, v) ==
                  if range.Contains(v) then Ok(Mapping(range, paddr, pt.c.codec.Norm(flags)))
                  else QueryResult(pt.c.geo, old(pt.view), v)
      ensures descent[..] == old(descent[..]) && lastVaddr == old(lastVaddr)
      ensures (pt.mem.Snapshot(), r) == RemapStep(pt.c, old(pt.mem.Snapshot()), pt.root, range, paddr, flags)
      ensures r.Err? ==> pt.mem.Snapshot() == old(pt.mem.Snapshot()) && pt.view == old(pt.view)
      ensures r.Ok? ==> LeafReplaced(pt.c, pt.root, pt.foreign, old(pt.dirty), range,
                                     ExactLevel(pt.c.geo, old(pt.view), range).value, paddr, pt.c.codec.Norm(flags),
                                     old(pt.mem.Snapshot()), old(pt.view), pt.mem.Snapshot(), pt.view)
      ensures var more := if r.Ok? then AddressesOf(range) else iset{};
              pt.dirty == old(pt.dirty) + more && queued == old(queued) + more
    {
      hide Lawful;
      hide AllocatorOk;
      hide Sound;
      hide CacheOk;
      hide QueueHolds;
      hide LeafReplaced;
      hide AddressesOf;
      hide RemapStep;
      hide HoldsLeaf;
      hide QueryResult;
      ghost var view := pt.view;
      ExactQueueable(pt.c, pt.mem.Snapshot(), view, pt.root, range, pt.foreign, pt.dirty);
      var mapping :- pt.RemapNoFlush(range, paddr, flags);
      CacheAfterReplace(pt.c, pt.root, pt.foreign, old(pt.dirty), range, ExactLevel(pt.c.geo, view, range).value,
                        paddr, pt.c.codec.Norm(flags), old(pt.mem.Snapshot()), view, pt.mem.Snapshot(), pt.view,
                        descent[..], lastVaddr);
      QueueFlushRange(mapping.range);
      return Ok(mapping);
    }

    /** Drain the queue; dropping the cursor afterwards finds it empty and emits nothing. */
    method Finish() returns (r: Result<()>)
      requires Valid()
      modifies this`pending, this`needsFullFlush, this`queued, pt`dirty, pt.mem`log
      ensures Valid() && r == Ok(()) && pt.dirty == iset{}
      ensures NoChange(pt.c, pt.root, old(pt.mem.Snapshot()), pt.mem.Snapshot())
      ensures pt.mem.log == old(pt.mem.log) + Emission(pt.c, old(pending), old(needsFullFlush))
    {
      hide NoChange;
      hide QueueHolds;
      hide CacheOk;
      hide Sound;
      FlushPending();
      ghost var s := pt.mem.Snapshot();
      FlushPending();
      NoChangeTrans(pt.c, pt.root, old(pt.mem.Snapshot()), s, pt.mem.Snapshot());
      r := Ok(());
    }

    /** Queue the invalidation of a range of base pages, merging it with what it touches. */
    method QueueFlushRange(range: AddrRange)
      requires pt.c.geo.Lawful() && Queueable(pt.c.geo, range)
      requires QueueHolds(pending, needsFullFlush, pt.c.geo.Span(1), queued)
      modifies this`pending, this`needsFullFlush, this`queued
      ensures QueueHolds(pending, needsFullFlush, pt.c.geo.Span(1), queued)
      ensures queued == old(queued) + AddressesOf(range)
      ensures needsFullFlush <==> old(needsFullFlush) || Overflows(old(pending), range, pt.c.geo.Span(1))
      ensures needsFullFlush <==>
                || old(needsFullFlush)
                || (&& |old(pending)| == 128 && range.Size() > 0
                    && forall r | r in old(pending) ::
                         range.end < r.start || r.Limit(pt.c.geo.Span(1)) < range.start)
    {
      hide QueueOk;
      hide Covered;
      hide Merging;
      hide ApartFrom;
      hide FlushRange.Limit;
      hide QueueHolds;
      hide Overflows;
      hide Lawful;
      hide Geometry.Span;
      hide PageSize.Bytes;
      QueueHoldsOk(pending, needsFullFlush, pt.c.geo.Span(1), queued);
      OverflowsWhen(pending, range, pt.c.geo.Span(1));
      queued := queued + AddressesOf(range);
      if needsFullFlush {
        return;
      }
      ghost var page := pt.c.geo.Span(1);
      pt.c.geo.SizeIsSpan(1, pt.c.geo.BasePageSize());
      var pageSize := pt.c.geo.BasePageSize().Bytes();
      var pages := range.Size() / pageSize;
      DigitsOf(range.Size(), pageSize);
      if pages == 0 {
        NothingQueued(pending, range, page);
        QueueGrew(pending, pending, page, old(queued), range);
        return;
      }
      var start: nat, end: nat := range.start, range.start + pages * pageSize;
      // A sum that overflowed would call for a full flush; that of a range with a
      // representable end does not.
      assert end < ADDRESS_LIMIT;
      ghost var before := pending;
      MergingStarts(before, range, page);
      var idx := 0;
      while idx < |pending|
        invariant idx <= |pending| && !needsFullFlush && queued == old(queued) + AddressesOf(range)
        invariant Merging(before, pending, idx, start, end, range, page)
        decreases |pending| - idx
      {
        MergingEntry(before, pending, idx, start, end, range, page);
        var r := pending[idx];
        // Likewise for the end of a queued range.
        var rEnd := r.End(pageSize);
        if end < r.start || rEnd.value < start {
          idx := idx + 1;
          continue;
        }
        start := Min(start, r.start);
        end := Max(end, rEnd.value);
        pending := SwapRemove(pending, idx);
      }
      MergingEnds(before, pending, start, end, range, page);
      var merged := FlushRange(start, (end - start) / pageSize);
      if |pending| < FLUSH_RANGE_CAP {
        QueueGrew(before, pending + [merged], page, old(queued), range);
        pending := pending + [merged];
      } else {
        QueueOverflowed(page, queued);
        needsFullFlush, pending := true, [];
      }
    }

    /** Sweep the pending ranges in ascending order. */
    method FlushRanges()
      requires pt.c.geo.Lawful() && QueueOk(pending, pt.c.geo.Span(1))
      requires DirtyOnly(pt.c, pt.root, pt.mem.log, pt.dirty)
      requires forall v: nat :: v in pt.dirty ==> Covered(pending, pt.c.geo.Span(1), v)
      modifies pt.mem`log
      ensures pt.mem.log == old(pt.mem.log) + Sweeps(SortByStart(pending), pt.c.geo.Span(1))
      ensures DirtyOnly(pt.c, pt.root, pt.mem.log, iset{})
      ensures Current(pt.mem.log) == Current(old(pt.mem.log))
    {
      hide Lawful;
      hide QueueOk;
      hide Covered;
      hide DirtyOnly;
      hide RangeOk;
      hide Remaining;
      hide Current;
      var c := pt.c;
      ghost var page := c.geo.Span(1);
      c.geo.SizeIsSpan(1, c.geo.BasePageSize());
      var sorted := SortByStart(pending);
      SortedQueue(pending, page);
      DirtyWeaken(c, pt.root, pt.mem.log, pt.dirty, Remaining(sorted, page, 0));
      for k := 0 to |sorted|
        invariant pt.mem.log == old(pt.mem.log) + Sweeps(sorted[..k], page)
        invariant DirtyOnly(c, pt.root, pt.mem.log, Remaining(sorted, page, k))
        invariant Current(pt.mem.log) == Current(old(pt.mem.log))
      {
        SweepCleans(c, pt.root, pt.mem.log, sorted, k);
        SweepsStep<W>(old(pt.mem.log), sorted, page, k);
        pt.mem.FlushTlbRangeLocal(sorted[k].start, c.geo.BasePageSize(), sorted[k].pages);
      }
      NothingRemains(sorted, page);
    }

    /** Emit the pending invalidations: all of the TLB if the queue overflowed or the policy
        prefers it, otherwise each range in ascending order. */
    method FlushPending()
      requires Valid()
      modifies this`pending, this`needsFullFlush, this`queued, pt`dirty, pt.mem`log
      ensures Valid() && pending == [] && !needsFullFlush && queued == iset{} && pt.dirty == iset{}
      ensures NoChange(pt.c, pt.root, old(pt.mem.Snapshot()), pt.mem.Snapshot())
      ensures pt.mem.log == old(pt.mem.log) + Emission(pt.c, old(pending), old(needsFullFlush))
    {
      hide Lawful;
      hide AllocatorOk;
      hide Represents;
      hide Owns;
      hide DirtyOnly;
      hide QueueOk;
      hide Covered;
      hide CacheOk;
      hide NoChange;
      hide Sweeps;
      hide SortByStart;
      hide PageCount;
      hide Current;
      var c := pt.c;
      ghost var page, s := c.geo.Span(1), pt.mem.Snapshot();
      EmptyQueueOk(page);
      NothingCovered(page);
      EmissionShape(c, pending, needsFullFlush);
      var count := PageCount(pending);
      if needsFullFlush {
        DirtyAfterFlush(c, pt.root, pt.mem.log, FlushedAll, pt.dirty, iset{});
        pt.mem.FlushTlbAllLocal();
      } else if count == 0 {
        NoPages(pending, page);
        DirtyWeaken(c, pt.root, pt.mem.log, pt.dirty, iset{});
      } else if c.preferFull(count) {
        DirtyAfterFlush(c, pt.root, pt.mem.log, FlushedAll, pt.dirty, iset{});
        pt.mem.FlushTlbAllLocal();
      } else {
        FlushRanges();
      }
      FlushesAreQuiet(c, pt.root, s, pt.mem.Snapshot(), Emission(c, pending, needsFullFlush));
      pending, needsFullFlush, queued := [], false, iset{};
      pt.dirty := iset{};
    }
  }
}
