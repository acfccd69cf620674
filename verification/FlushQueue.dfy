/** Pending invalidation ranges, kept apart from each other. */
module FlushQueue {
  import opened Basics
  import opened Power

  /** Storage capacity of the queue. */
  const FLUSH_RANGE_CAP: nat := 128

  datatype FlushRange = FlushRange(start: nat, pages: nat) {
    /** One past the last byte, unless that is not representable. */
    function End(pageBytes: nat): Option<nat> {
      if start + pages * pageBytes < ADDRESS_LIMIT then Some(start + pages * pageBytes) else None
    }

    function Limit(pageBytes: nat): nat {
      start + pages * pageBytes
    }
  }

  /** A queued range is a positive whole number of aligned pages. */
  ghost predicate RangeOk(r: FlushRange, page: nat)
    requires page > 0
  {
    r.pages >= 1 && r.start % page == 0 && r.Limit(page) < ADDRESS_LIMIT
  }

  lemma {:induction false} EmptyQueueOk(page: nat)
    requires page > 0
    ensures QueueOk([], page)
  {
  }

  /** Two ranges neither overlap nor touch. */
  predicate Apart(a: FlushRange, b: FlushRange, page: nat) {
    a.Limit(page) < b.start || b.Limit(page) < a.start
  }

  /** A queued range neither overlaps nor touches `range`. */
  predicate ApartFrom(r: FlushRange, range: AddrRange, page: nat) {
    range.end < r.start || r.Limit(page) < range.start
  }

  lemma {:induction false} AlignedEnd(start: nat, size: nat, page: nat)
    requires page > 0 && start % page == 0 && size % page == 0
    ensures (start + size) % page == 0
  {
    DigitsOf(size, page);
    AddMultipleMod(start, size / page, page);
  }

  ghost predicate QueueOk(q: seq<FlushRange>, page: nat)
    requires page > 0
  {
    && |q| <= FLUSH_RANGE_CAP
    && (forall i | 0 <= i < |q| :: RangeOk(q[i], page))
    && (forall i, j | 0 <= i < j < |q| :: Apart(q[i], q[j], page))
  }

  ghost predicate InRange(r: FlushRange, page: nat, v: nat) {
    r.start <= v < r.Limit(page)
  }

  /** `v` lies in one of the ranges. */
  ghost predicate Covered(q: seq<FlushRange>, page: nat, v: nat) {
    exists i :: 0 <= i < |q| && InRange(q[i], page, v)
  }

  /** The queue without entry `i`, its last entry moved into the gap. */
  function SwapRemove<T>(q: seq<T>, i: nat): seq<T>
    requires i < |q|
  {
    q[i := q[|q| - 1]][..|q| - 1]
  }

  lemma {:induction false} SwapRemoveKeeps(q: seq<FlushRange>, i: nat, page: nat)
    requires page > 0 && QueueOk(q, page) && i < |q|
    ensures QueueOk(SwapRemove(q, i), page)
    ensures forall k | 0 <= k < i :: SwapRemove(q, i)[k] == q[k]
    ensures forall v :: Covered(q, page, v) <==> Covered(SwapRemove(q, i), page, v) || InRange(q[i], page, v)
    ensures forall k | 0 <= k < |q| - 1 :: Apart(SwapRemove(q, i)[k], q[i], page)
  {
    var rest := SwapRemove(q, i);
    forall v ensures Covered(q, page, v) <==> Covered(rest, page, v) || InRange(q[i], page, v) {
      if k :| 0 <= k < |q| && InRange(q[k], page, v) {
        if k == |q| - 1 {
          assert i < |rest| ==> rest[i] == q[k];
        } else if k != i {
          assert rest[k] == q[k];
        }
      }
      if k :| 0 <= k < |rest| && InRange(rest[k], page, v) {
        assert rest[k] == q[k] || rest[k] == q[|q| - 1];
      }
    }
    forall a, b | 0 <= a < b < |rest| ensures Apart(rest[a], rest[b], page) {
      assert Apart(q[a], q[b], page) && Apart(q[a], q[|q| - 1], page) && Apart(q[b], q[|q| - 1], page);
    }
    forall k | 0 <= k < |rest| ensures Apart(rest[k], q[i], page) {
      if k == i {
        assert Apart(q[i], q[|q| - 1], page);
      } else if k < i {
        assert Apart(q[k], q[i], page);
      } else {
        assert Apart(q[i], q[k], page);
      }
    }
  }

  /** The pages between two page boundaries. */
  lemma {:induction false} PagesBetween(start: nat, end: nat, page: nat)
    requires page > 0 && start % page == 0 && end % page == 0 && start < end
    ensures (end - start) / page >= 1 && start + ((end - start) / page) * page == end
  {
    DigitsOf(start, page);
    DigitsOf(end, page);
    var n := end / page - start / page;
    assert end - start == n * page by {
      assert n * page == (end / page) * page - (start / page) * page;
    }
    MultipleModInt(n, page, end - start);
  }

  lemma {:induction false} MultipleModInt(n: int, page: nat, x: nat)
    requires page > 0 && x == n * page && x > 0
    ensures x / page == n && n >= 1
  {
    assert n < 1 ==> n * page <= 0;
    MultipleMod(n, page);
  }

  /** The end of a run of pages is a page boundary. */
  lemma {:induction false} LimitAligned(r: FlushRange, page: nat)
    requires page > 0 && RangeOk(r, page)
    ensures r.Limit(page) % page == 0 && r.start < r.Limit(page)
  {
    AddMultipleMod(r.start, r.pages, page);
    MulAtLeast(r.pages, page);
  }

  /** Merging a touching range: what was apart from both stays apart from the hull. */
  lemma {:induction false} HullApart(r: FlushRange, a: FlushRange, start: nat, end: nat, page: nat)
    requires Apart(r, a, page) && (end < r.start || r.Limit(page) < start)
    requires start <= end && a.start <= a.Limit(page) && !(end < a.start || a.Limit(page) < start)
    ensures var lo, hi := Min(start, a.start), Max(end, a.Limit(page)); hi < r.start || r.Limit(page) < lo
  {
  }

  function Min(a: nat, b: nat): nat {
    if a < b then a else b
  }

  function Max(a: nat, b: nat): nat {
    if a < b then b else a
  }

  /** Appending a range that is apart from all others. */
  lemma {:induction false} PushKeeps(q: seq<FlushRange>, r: FlushRange, page: nat)
    requires page > 0 && QueueOk(q, page) && RangeOk(r, page) && |q| < FLUSH_RANGE_CAP
    requires forall i | 0 <= i < |q| :: Apart(q[i], r, page)
    ensures QueueOk(q + [r], page)
    ensures forall v :: Covered(q + [r], page, v) <==> Covered(q, page, v) || InRange(r, page, v)
  {
    var all := q + [r];
    forall v ensures Covered(all, page, v) <==> Covered(q, page, v) || InRange(r, page, v) {
      if k :| 0 <= k < |q| && InRange(q[k], page, v) {
        assert all[k] == q[k];
      }
      if InRange(r, page, v) {
        assert all[|q|] == r;
      }
    }
  }

  /** Insert a range into a queue sorted by start. */
  function InsertByStart(q: seq<FlushRange>, r: FlushRange): seq<FlushRange> {
    if q == [] || r.start <= q[0].start then [r] + q else [q[0]] + InsertByStart(q[1..], r)
  }

  /** The queue in ascending order of start. */
  function SortByStart(q: seq<FlushRange>): seq<FlushRange> {
    if q == [] then [] else InsertByStart(SortByStart(q[1..]), q[0])
  }

  ghost predicate SortedByStart(q: seq<FlushRange>) {
    forall i, j | 0 <= i < j < |q| :: q[i].start <= q[j].start
  }

  lemma {:induction false} InsertKeeps(q: seq<FlushRange>, r: FlushRange)
    requires SortedByStart(q)
    ensures SortedByStart(InsertByStart(q, r))
    ensures multiset(InsertByStart(q, r)) == multiset(q) + multiset{r}
    decreases |q|
  {
    if q == [] || r.start <= q[0].start {
    } else {
      InsertKeeps(q[1..], r);
      assert q == [q[0]] + q[1..];
      InsertedLater(q, r, InsertByStart(q[1..], r));
    }
  }

  /** Whatever follows the first range starts no earlier. */
  lemma {:induction false} InsertedLater(q: seq<FlushRange>, r: FlushRange, rest: seq<FlushRange>)
    requires SortedByStart(q) && q != [] && q[0].start < r.start && SortedByStart(rest)
    requires multiset(rest) == multiset(q[1..]) + multiset{r}
    ensures SortedByStart([q[0]] + rest)
  {
    forall k | 0 <= k < |rest| ensures q[0].start <= rest[k].start {
      assert rest[k] in multiset(rest);
      assert rest[k] in q[1..] || rest[k] == r;
    }
  }

  /** Sorting orders the queue and neither loses nor repeats a range. */
  lemma {:induction false} SortKeeps(q: seq<FlushRange>)
    ensures SortedByStart(SortByStart(q))
    ensures multiset(SortByStart(q)) == multiset(q)
    decreases |q|
  {
    if q != [] {
      SortKeeps(q[1..]);
      InsertKeeps(SortByStart(q[1..]), q[0]);
      assert q == [q[0]] + q[1..];
    }
  }

  /** A reordered queue covers the same addresses with sound ranges. */
  lemma {:induction false} SameRanges(q: seq<FlushRange>, s: seq<FlushRange>, page: nat)
    requires page > 0 && multiset(s) == multiset(q)
    requires forall i | 0 <= i < |q| :: RangeOk(q[i], page)
    ensures forall i | 0 <= i < |s| :: RangeOk(s[i], page)
    ensures forall v :: Covered(s, page, v) <==> Covered(q, page, v)
  {
    forall i | 0 <= i < |s| ensures s[i] in q {
      assert s[i] in multiset(s);
    }
    forall i | 0 <= i < |q| ensures q[i] in s {
      assert q[i] in multiset(q);
    }
  }

  /** A full queue that cannot absorb a further range. */
  ghost predicate Overflows(q: seq<FlushRange>, range: AddrRange, page: nat) {
    range.Size() > 0 && |q| == FLUSH_RANGE_CAP && forall i | 0 <= i < |q| :: ApartFrom(q[i], range, page)
  }

  lemma {:induction false} OverflowsWhen(q: seq<FlushRange>, range: AddrRange, page: nat)
    ensures Overflows(q, range, page) <==>
            && |q| == 128 && range.Size() > 0
            && forall r | r in q :: range.end < r.start || r.Limit(page) < range.start
  {
    hide FlushRange.Limit;
  }

  /** What becomes of the queue when `range` is queued on success and left alone otherwise. */
  ghost predicate QueueStepped(
      before: seq<FlushRange>, wasFull: bool, range: AddrRange, page: nat, ok: bool, after: seq<FlushRange>, full: bool)
  {
    if ok then full <==> wasFull || Overflows(before, range, page) else after == before && full == wasFull
  }

  lemma {:induction false} ShortQueueGrows(
      before: seq<FlushRange>, range: AddrRange, page: nat, ok: bool, after: seq<FlushRange>, full: bool)
    requires QueueStepped(before, false, range, page, ok, after, full) && |before| < FLUSH_RANGE_CAP
    ensures !full
  {
  }

  /** An entry covers its first and its last address, and nothing covers the one after. */
  lemma {:induction false} EntryCovers(q: seq<FlushRange>, page: nat, i: nat)
    requires page > 0 && QueueOk(q, page) && i < |q|
    ensures q[i].start < q[i].Limit(page)
    ensures Covered(q, page, q[i].start) && Covered(q, page, q[i].Limit(page) - 1)
    ensures !Covered(q, page, q[i].Limit(page))
  {
    assert RangeOk(q[i], page);
    MulAtLeast(q[i].pages, page);
    assert InRange(q[i], page, q[i].start) && InRange(q[i], page, q[i].Limit(page) - 1);
    forall j | 0 <= j < |q| ensures !InRange(q[j], page, q[i].Limit(page)) {
      if j != i {
        EntriesApart(q, page, i, j);
      }
    }
  }

  lemma {:induction false} EntriesApart(q: seq<FlushRange>, page: nat, i: nat, j: nat)
    requires page > 0 && QueueOk(q, page) && i < |q| && j < |q| && i != j
    ensures Apart(q[i], q[j], page) && !InRange(q[i], page, q[j].start)
  {
    assert RangeOk(q[j], page);
    MulAtLeast(q[j].pages, page);
    assert if i < j then Apart(q[i], q[j], page) else Apart(q[j], q[i], page);
  }

  /** A sound queue that covers one interval is one range, or empty if the interval is. */
  lemma {:induction false} OneRange(q: seq<FlushRange>, page: nat, start: nat, end: nat)
    requires page > 0 && QueueOk(q, page) && start <= end
    requires forall v: nat :: Covered(q, page, v) <==> start <= v < end
    ensures start == end ==> q == []
    ensures start < end ==> |q| == 1 && q[0].start == start && q[0].Limit(page) == end
  {
    hide QueueOk;
    hide Apart;
    hide FlushRange.Limit;
    if q != [] {
      EntryCovers(q, page, 0);
      assert Covered(q, page, start);
      var i: nat :| i < |q| && InRange(q[i], page, start);
      EntryCovers(q, page, i);
      OnlyEntry(q, page, start, end, i, 0);
      OnlyEntry(q, page, start, end, i, |q| - 1);
    } else {
      assert !Covered(q, page, start);
    }
  }

  /** No other entry starts in an interval that one entry covers alone. */
  lemma {:induction false} OnlyEntry(q: seq<FlushRange>, page: nat, start: nat, end: nat, i: nat, j: nat)
    requires page > 0 && QueueOk(q, page) && i < |q| && q[i].start == start && q[i].Limit(page) == end
    requires forall v: nat :: Covered(q, page, v) <==> start <= v < end
    requires j < |q|
    ensures j == i
  {
    hide QueueOk;
    hide Apart;
    hide FlushRange.Limit;
    EntryCovers(q, page, j);
    if j != i {
      EntriesApart(q, page, i, j);
    }
  }

  lemma {:induction false} NothingQueued(q: seq<FlushRange>, range: AddrRange, page: nat)
    requires range.Valid() && range.Size() == 0
    ensures forall v :: Covered(q, page, v) <==> Covered(q, page, v) || range.Contains(v)
    ensures !Overflows(q, range, page)
  {
  }

  /** While merging `range` into the queue `before`: `[start, end)` is the hull of what was
      absorbed, the first `idx` remaining entries are apart from it, and nothing is lost. */
  ghost predicate Merging(
      before: seq<FlushRange>, q: seq<FlushRange>, idx: nat, start: nat, end: nat, range: AddrRange, page: nat)
    requires page > 0
  {
    && idx <= |q| <= |before| <= FLUSH_RANGE_CAP && QueueOk(q, page)
    && start % page == 0 && end % page == 0 && start < end < ADDRESS_LIMIT
    && (forall k | 0 <= k < idx :: end < q[k].start || q[k].Limit(page) < start)
    && (forall v: nat :: Covered(q, page, v) || start <= v < end <==> Covered(before, page, v) || range.Contains(v))
    && (|q| == |before| ==> q == before && AddrRange(start, end) == range)
    && (|q| < |before| ==> exists i :: 0 <= i < |before| && !ApartFrom(before[i], range, page))
  }

  lemma {:induction false} MergingStarts(before: seq<FlushRange>, range: AddrRange, page: nat)
    requires page > 0 && QueueOk(before, page) && range.Valid() && range.Size() > 0
    requires range.start % page == 0 && range.Size() % page == 0
    ensures Merging(before, before, 0, range.start, range.end, range, page)
  {
    AlignedEnd(range.start, range.Size(), page);
  }

  /** Entry `idx` is either apart from the hull, or is absorbed by it. */
  lemma {:induction false} MergingEntry(
      before: seq<FlushRange>, q: seq<FlushRange>, idx: nat, start: nat, end: nat, range: AddrRange, page: nat)
    requires page > 0 && Merging(before, q, idx, start, end, range, page) && idx < |q|
    ensures q[idx].End(page) == Some(q[idx].Limit(page))
    ensures end < q[idx].start || q[idx].Limit(page) < start ==>
              Merging(before, q, idx + 1, start, end, range, page)
    ensures !(end < q[idx].start || q[idx].Limit(page) < start) ==>
              Merging(before, SwapRemove(q, idx), idx, Min(start, q[idx].start), Max(end, q[idx].Limit(page)),
                      range, page)
  {
    var r := q[idx];
    assert RangeOk(r, page);
    if !(end < r.start || r.Limit(page) < start) {
      SwapRemoveKeeps(q, idx, page);
      LimitAligned(r, page);
      var rest, lo, hi := SwapRemove(q, idx), Min(start, r.start), Max(end, r.Limit(page));
      forall k | 0 <= k < idx ensures hi < rest[k].start || rest[k].Limit(page) < lo {
        assert rest[k] == q[k] && Apart(rest[k], r, page);
        HullApart(rest[k], r, start, end, page);
      }
      AbsorbedSame(before, q, rest, r, start, end, lo, hi, range, page);
      if |q| == |before| {
        assert !ApartFrom(before[idx], range, page);
      }
    }
  }

  /** Absorbing a touching entry keeps the covered addresses. */
  lemma {:induction false} AbsorbedSame(
      before: seq<FlushRange>, q: seq<FlushRange>, rest: seq<FlushRange>, r: FlushRange,
      start: nat, end: nat, lo: nat, hi: nat, range: AddrRange, page: nat)
    requires forall v: nat :: Covered(q, page, v) || start <= v < end <==> Covered(before, page, v) || range.Contains(v)
    requires forall v: nat :: Covered(q, page, v) <==> Covered(rest, page, v) || InRange(r, page, v)
    requires start < end && r.start < r.Limit(page) && !(end < r.start || r.Limit(page) < start)
    requires lo == Min(start, r.start) && hi == Max(end, r.Limit(page))
    ensures forall v: nat :: Covered(rest, page, v) || lo <= v < hi <==> Covered(before, page, v) || range.Contains(v)
  {
    hide Covered;
    hide FlushRange.Limit;
  }

  /** With all entries apart from the hull, the hull can be queued; the queue is then too
      long only if nothing was absorbed. */
  lemma {:induction false} MergingEnds(
      before: seq<FlushRange>, q: seq<FlushRange>, start: nat, end: nat, range: AddrRange, page: nat)
    requires page > 0 && Merging(before, q, |q|, start, end, range, page) && range.Size() > 0
    ensures var merged := FlushRange(start, (end - start) / page);
            |q| < FLUSH_RANGE_CAP ==>
              && QueueOk(q + [merged], page)
              && forall v: nat :: Covered(q + [merged], page, v) <==> Covered(before, page, v) || range.Contains(v)
    ensures |q| >= FLUSH_RANGE_CAP <==> Overflows(before, range, page)
    ensures start < end
  {
    var merged := FlushRange(start, (end - start) / page);
    PagesBetween(start, end, page);
    assert merged.Limit(page) == end;
    if |q| < FLUSH_RANGE_CAP {
      forall i | 0 <= i < |q| ensures Apart(q[i], merged, page) {
      }
      PushKeeps(q, merged, page);
      forall v: nat ensures Covered(q + [merged], page, v) <==> Covered(before, page, v) || range.Contains(v) {
        assert InRange(merged, page, v) <==> start <= v < end;
      }
    }
  }
}
