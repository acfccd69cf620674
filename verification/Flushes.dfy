/** The invalidations that a queue of ranges turns into, and what they clean. */
module Flushes {
  import opened Basics
  import opened Memory
  import opened Tlb
  import opened Histories
  import opened FlushQueue

  /** Queued pages in all, as far as they can be counted. */
  function PageCount(q: seq<FlushRange>): nat {
    if q == [] then 0 else SaturatingAdd(PageCount(q[..|q| - 1]), q[|q| - 1].pages)
  }

  /** One sweep per range, in order. */
  ghost function Sweeps<W>(q: seq<FlushRange>, stride: nat): seq<Event<W>> {
    if q == [] then [] else Sweeps(q[..|q| - 1], stride) + Sweep(q[|q| - 1].start, stride, q[|q| - 1].pages)
  }

  /** What flushing a queue emits: nothing, one full invalidation, or ascending sweeps. */
  ghost function Emission<W, F>(c: Config<W, F>, q: seq<FlushRange>, full: bool): seq<Event<W>> {
    if full then [FlushedAll]
    else if PageCount(q) == 0 then []
    else if c.preferFull(PageCount(q)) then [FlushedAll]
    else Sweeps(SortByStart(q), c.geo.Span(1))
  }

  /** Every queued range has pages, so a queue without pages is empty. */
  lemma {:induction false} NoPages(q: seq<FlushRange>, page: nat)
    requires page > 0 && QueueOk(q, page)
    ensures PageCount(q) == 0 <==> q == []
  {
    assert q != [] ==> RangeOk(q[|q| - 1], page);
  }

  /** The addresses of the ranges from `k` on. */
  ghost function Remaining(q: seq<FlushRange>, page: nat, k: nat): iset<nat>
    requires k <= |q|
  {
    iset v: nat | Covered(q[k..], page, v)
  }

  /** Sorting the queue first loses nothing. */
  lemma {:induction false} SortedQueue(q: seq<FlushRange>, page: nat)
    requires page > 0 && QueueOk(q, page)
    ensures forall i | 0 <= i < |SortByStart(q)| :: RangeOk(SortByStart(q)[i], page)
    ensures forall v: nat :: Covered(q, page, v) <==> v in Remaining(SortByStart(q), page, 0)
  {
    hide RangeOk;
    hide Covered;
    SortKeeps(q);
    SameRanges(q, SortByStart(q), page);
    assert SortByStart(q)[0..] == SortByStart(q);
  }

  /** The next range to sweep and the ranges after it. */
  lemma {:induction false} RemainingStep(q: seq<FlushRange>, page: nat, k: nat, v: nat)
    requires page > 0 && k < |q|
    ensures v in Remaining(q, page, k) <==> InRange(q[k], page, v) || v in Remaining(q, page, k + 1)
  {
    var tail, rest := q[k..], q[k + 1..];
    assert tail[0] == q[k];
    if i :| 0 <= i < |rest| && InRange(rest[i], page, v) {
      assert tail[i + 1] == rest[i];
    }
    if i :| 0 <= i < |tail| && InRange(tail[i], page, v) && i > 0 {
      assert rest[i - 1] == tail[i];
    }
  }

  /** Sweeping range `k` leaves the ranges after it. */
  lemma {:induction false} SweepCleans<W(!new), F(!new)>(
      c: Config<W, F>, root: nat, log: seq<Event<W>>, q: seq<FlushRange>, k: nat)
    requires c.geo.Lawful() && k < |q| && RangeOk(q[k], c.geo.Span(1))
    requires DirtyOnly(c, root, log, Remaining(q, c.geo.Span(1), k))
    ensures var swept := log + Sweep(q[k].start, c.geo.Span(1), q[k].pages);
            DirtyOnly(c, root, swept, Remaining(q, c.geo.Span(1), k + 1)) && Current(swept) == Current(log)
  {
    hide DirtyOnly;
    hide Remaining;
    var page := c.geo.Span(1);
    forall v: nat | c.geo.VaddrIsValid(v) && v in Remaining(q, page, k)
      ensures v in Remaining(q, page, k + 1) || q[k].start <= v < q[k].start + q[k].pages * page
    {
      RemainingStep(q, page, k, v);
    }
    DirtyAfterSweep(c, root, log, q[k].start, q[k].pages, Remaining(q, page, k), Remaining(q, page, k + 1));
  }

  lemma {:induction false} SweepsStep<W>(before: seq<Event<W>>, q: seq<FlushRange>, stride: nat, k: nat)
    requires k < |q|
    ensures before + Sweeps(q[..k], stride) + Sweep(q[k].start, stride, q[k].pages)
            == before + Sweeps(q[..k + 1], stride)
  {
    assert q[..k + 1][..k] == q[..k];
  }

  /** After the last range nothing is left. */
  lemma {:induction false} NothingRemains(q: seq<FlushRange>, page: nat)
    ensures Remaining(q, page, |q|) == iset{}
    ensures q[..|q|] == q
  {
  }

  /** Invalidations alone change no translation. */
  lemma {:induction false} FlushesAreQuiet<W, F>(
      c: Config<W, F>, root: nat, a: Store<W>, b: Store<W>, emitted: seq<Event<W>>)
    requires b.words == a.words && b.log == a.log + emitted
    requires forall k: nat | k < |emitted| :: !emitted[k].Wrote?
    ensures NoChange(c, root, a, b)
    ensures a.log != [] ==> b.log != [] && b.log[0] == a.log[0]
  {
    forall k: nat | |a.log| <= k < |b.log| ensures !b.log[k].Wrote? {
      assert b.log[k] == emitted[k - |a.log|];
    }
  }

  /** Sweeps hold no writes. */
  lemma {:induction false} SweepsAreFlushes<W>(q: seq<FlushRange>, stride: nat)
    ensures forall k: nat | k < |Sweeps<W>(q, stride)| :: !Sweeps<W>(q, stride)[k].Wrote?
    decreases |q|
  {
    if q != [] {
      SweepsAreFlushes<W>(q[..|q| - 1], stride);
      SweepIsFlushes<W>(q[|q| - 1].start, stride, q[|q| - 1].pages);
    }
  }

  lemma {:induction false} SweepIsFlushes<W>(start: nat, stride: nat, count: nat)
    ensures forall k: nat | k < count :: !Sweep<W>(start, stride, count)[k].Wrote?
    decreases count
  {
    if count > 0 {
      SweepIsFlushes<W>(start, stride, count - 1);
    }
  }

  /** Flushing a sound queue leaves nothing dirty that was only dirty by the queue. */
  lemma {:induction false} EmissionShape<W, F>(c: Config<W, F>, q: seq<FlushRange>, full: bool)
    ensures forall k: nat | k < |Emission(c, q, full)| :: !Emission(c, q, full)[k].Wrote?
  {
    SweepsAreFlushes<W>(SortByStart(q), c.geo.Span(1));
  }

  /** The queue is sound and covers exactly the addresses queued, unless it overflowed. */
  ghost predicate QueueHolds(pending: seq<FlushRange>, full: bool, page: nat, queued: iset<nat>)
    requires page > 0
  {
    && QueueOk(pending, page) && (full ==> pending == [])
    && (!full ==> forall v: nat :: Covered(pending, page, v) <==> v in queued)
  }

  /** A queue that covers what it covered before and `range` as well. */
  lemma {:induction false} QueueGrew(
      before: seq<FlushRange>, after: seq<FlushRange>, page: nat, queued: iset<nat>, range: AddrRange)
    requires page > 0 && QueueHolds(before, false, page, queued) && QueueOk(after, page)
    requires forall v: nat :: Covered(after, page, v) <==> Covered(before, page, v) || range.Contains(v)
    ensures QueueHolds(after, false, page, queued + AddressesOf(range))
  {
    hide QueueOk;
    hide Covered;
  }

  lemma {:induction false} QueueHoldsOk(pending: seq<FlushRange>, full: bool, page: nat, queued: iset<nat>)
    requires page > 0 && QueueHolds(pending, full, page, queued)
    ensures QueueOk(pending, page) && (full ==> pending == [])
    ensures full ==> forall more :: QueueHolds(pending, full, page, queued + more)
  {
  }

  lemma {:induction false} QueueOverflowed(page: nat, queued: iset<nat>)
    requires page > 0
    ensures QueueHolds([], true, page, queued)
  {
  }

  /** A queue that holds the addresses of one range is one entry at most. */
  lemma {:induction false} QueueOfInterval(q: seq<FlushRange>, page: nat, range: AddrRange)
    requires page > 0 && range.start <= range.end && QueueHolds(q, false, page, AddressesOf(range))
    ensures range.start == range.end ==> q == []
    ensures range.start < range.end ==>
              |q| == 1 && q[0].start == range.start && q[0].Limit(page) == range.end && RangeOk(q[0], page)
  {
    hide Covered;
    hide FlushRange.Limit;
    forall v: nat ensures Covered(q, page, v) <==> range.start <= v < range.end {
      assert v in AddressesOf(range) <==> range.start <= v < range.end;
    }
    OneRange(q, page, range.start, range.end);
  }

  lemma {:induction false} NothingCovered(page: nat)
    ensures forall v: nat :: !Covered([], page, v)
  {
  }
}
