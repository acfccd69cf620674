/** What a queue of ranges emits, page by page. */
module Emissions {
  import opened Basics
  import opened Power
  import opened PageSizes
  import opened Geometries
  import opened Memory
  import opened Tlb
  import opened Tilings
  import opened FlushQueue
  import opened Flushes
  import opened Walker

  /** The events are page invalidations at ascending addresses, none twice. */
  ghost predicate Ascending<W(!new)>(events: seq<Event<W>>) {
    && (forall i: nat | i < |events| :: events[i].FlushedPage?)
    && forall i: nat, j: nat | i < j < |events| :: events[i].vaddr < events[j].vaddr
  }

  /** A sweep that stays below the address limit visits its pages in order. */
  lemma {:induction false} SweepAt<W>(start: nat, stride: nat, count: nat, k: nat)
    requires k < count && start + count * stride < ADDRESS_LIMIT
    ensures Sweep<W>(start, stride, count)[k] == FlushedPage(start + k * stride)
    decreases count
  {
    assert count * stride == (count - 1) * stride + stride;
    if k < count - 1 {
      SweepAt<W>(start, stride, count - 1, k);
    } else {
      StrideIs(start, stride, count - 1);
    }
  }

  /** The address of the `k`-th page of a queued range. */
  function PageStart(r: FlushRange, page: nat, k: nat): nat {
    r.start + k * page
  }

  lemma {:induction false} RangeSweepAt<W>(r: FlushRange, page: nat, k: nat)
    requires page > 0 && RangeOk(r, page) && k < r.pages
    ensures Sweep<W>(r.start, page, r.pages)[k] == FlushedPage(PageStart(r, page, k))
  {
    hide Sweep;
    SweepAt<W>(r.start, page, r.pages, k);
  }

  lemma {:induction false} PagesAscend(r: FlushRange, page: nat, i: nat, j: nat)
    requires page > 0 && i < j
    ensures PageStart(r, page, i) < PageStart(r, page, j)
  {
    MulMonotone(i + 1, j, page);
    assert (i + 1) * page == i * page + page;
  }

  /** The sweep of a queued range lists its pages. */
  lemma {:induction false} SweepListsPages<W(!new)>(r: FlushRange, page: nat)
    requires page > 0 && RangeOk(r, page)
    ensures var events := Sweep<W>(r.start, page, r.pages);
            && Ascending(events)
            && forall v: nat :: FlushedPage(v) in events <==> v % page == 0 && InRange(r, page, v)
  {
    hide Sweep;
    hide PageStart;
    hide RangeOk;
    hide InRange;
    var events := Sweep<W>(r.start, page, r.pages);
    forall k: nat | k < r.pages ensures events[k] == FlushedPage(PageStart(r, page, k)) {
      RangeSweepAt<W>(r, page, k);
    }
    forall i: nat, j: nat | i < j < |events| ensures events[i].vaddr < events[j].vaddr {
      PagesAscend(r, page, i, j);
    }
    forall v: nat ensures FlushedPage(v) in events <==> v % page == 0 && InRange(r, page, v) {
      if v % page == 0 && InRange(r, page, v) {
        var k := PageNumber(r, page, v);
        assert events[k] == FlushedPage(v);
      }
      if k: nat :| k < |events| && events[k] == FlushedPage(v) {
        PageOfRange(r, page, k);
      }
    }
  }

  lemma {:induction false} PageNumber(r: FlushRange, page: nat, v: nat) returns (k: nat)
    requires page > 0 && RangeOk(r, page) && v % page == 0 && InRange(r, page, v)
    ensures k < r.pages && v == PageStart(r, page, k)
  {
    k := (v - r.start) / page;
    DifferenceMod(r.start, v - r.start, page);
    DigitsOf(v - r.start, page);
    QuotientBound(v - r.start, page, r.pages);
  }

  lemma {:induction false} PageOfRange(r: FlushRange, page: nat, k: nat)
    requires page > 0 && RangeOk(r, page) && k < r.pages
    ensures PageStart(r, page, k) % page == 0 && InRange(r, page, PageStart(r, page, k))
  {
    AddMultipleMod(r.start, k, page);
    MulMonotone(k + 1, r.pages, page);
    assert (k + 1) * page == k * page + page;
  }

  /** Invalidating a range of base pages, such as that of a leaf, flushes everything if the policy
      says so of the number of pages, and otherwise each of them once, in ascending order. */
  lemma {:induction false} LeafEmissionInPages<W(!new), F>(c: Config<W, F>, range: AddrRange, n: nat)
    requires c.geo.Lawful() && range.start < range.end < ADDRESS_LIMIT
    requires range.start % c.geo.Span(1) == 0 && range.Size() == n * c.geo.Span(1)
    ensures c.preferFull(n) ==> LeafEmission(c, range) == [FlushedAll]
    ensures !c.preferFull(n) ==>
              var events := LeafEmission(c, range);
              && |events| == n && Ascending(events)
              && forall v: nat :: FlushedPage(v) in events <==> v % c.geo.Span(1) == 0 && range.Contains(v)
  {
    hide Sweep;
    hide Ascending;
    hide Geometry.Span;
    hide PageSize.Bytes;
    c.geo.SizeIsSpan(1, c.geo.BasePageSize());
    MultipleMod(n, c.geo.Span(1));
    SweepListsPages<W>(FlushRange(range.start, n), c.geo.Span(1));
  }

  /** Ranges in ascending order that neither overlap nor touch. */
  ghost predicate InOrder(q: seq<FlushRange>, page: nat)
    requires page > 0
  {
    && (forall i: nat | i < |q| :: RangeOk(q[i], page))
    && forall i: nat, j: nat | i < j < |q| :: q[i].Limit(page) < q[j].start
  }

  /** Sweeping such ranges one by one lists their pages, and there are as many as were counted. */
  lemma {:induction false} SweepsListPages<W(!new)>(q: seq<FlushRange>, page: nat)
    requires page > 0 && InOrder(q, page)
    ensures var events := Sweeps<W>(q, page);
            && Ascending(events)
            && (forall v: nat :: FlushedPage(v) in events <==> v % page == 0 && Covered(q, page, v))
            && |events| == PageCount(q)
            && (q != [] ==> |events| * page <= q[|q| - 1].Limit(page))
    decreases |q|
  {
    hide Sweep;
    hide FlushRange.Limit;
    hide InRange;
    if q != [] {
      var rest, last := q[..|q| - 1], q[|q| - 1];
      var events, sweep := Sweeps<W>(rest, page), Sweep<W>(last.start, page, last.pages);
      SweepsListPages<W>(rest, page);
      SweepListsPages<W>(last, page);
      CountFits(if rest == [] then 0 else rest[|rest| - 1].Limit(page), |events|, last, page);
      forall v: nat ensures Covered(q, page, v) <==> Covered(rest, page, v) || InRange(last, page, v) {
        CoveredByLast(q, page, v);
      }
      forall i: nat | i < |events| ensures events[i].vaddr < last.start {
        assert FlushedPage(events[i].vaddr) in events;
        CoveredBefore(q, page, events[i].vaddr);
      }
      forall i: nat | i < |sweep| ensures last.start <= sweep[i].vaddr {
        assert FlushedPage(sweep[i].vaddr) in sweep;
        StartsFirst(last, page, sweep[i].vaddr);
      }
      AscendingAppend(events, sweep, last.start);
    }
  }

  lemma {:induction false} StartsFirst(r: FlushRange, page: nat, v: nat)
    requires InRange(r, page, v)
    ensures r.start <= v
  {
  }

  lemma {:induction false} BelowLimit(r: FlushRange, page: nat, v: nat)
    requires InRange(r, page, v)
    ensures v < r.Limit(page)
  {
  }

  lemma {:induction false} AscendingAppend<W(!new)>(a: seq<Event<W>>, b: seq<Event<W>>, border: nat)
    requires Ascending(a) && Ascending(b)
    requires forall i: nat | i < |a| :: a[i].vaddr < border
    requires forall i: nat | i < |b| :: border <= b[i].vaddr
    ensures Ascending(a + b)
  {
    var all := a + b;
    forall i: nat | i < |all| ensures all[i].FlushedPage? {
    }
    forall i: nat, j: nat | i < j < |all| ensures all[i].vaddr < all[j].vaddr {
      if i < |a| {
        assert all[i] == a[i];
      }
      if j >= |a| {
        assert all[j] == b[j - |a|];
      }
    }
  }

  lemma {:induction false} CoveredByLast(q: seq<FlushRange>, page: nat, v: nat)
    requires page > 0 && q != []
    ensures Covered(q, page, v) <==> Covered(q[..|q| - 1], page, v) || InRange(q[|q| - 1], page, v)
  {
    hide InRange;
    var rest := q[..|q| - 1];
    if i :| 0 <= i < |q| && InRange(q[i], page, v) && i < |q| - 1 {
      assert rest[i] == q[i];
    }
    if i :| 0 <= i < |rest| && InRange(rest[i], page, v) {
      assert rest[i] == q[i];
    }
  }

  lemma {:induction false} CoveredBefore(q: seq<FlushRange>, page: nat, v: nat)
    requires page > 0 && InOrder(q, page) && q != [] && Covered(q[..|q| - 1], page, v)
    ensures v < q[|q| - 1].start
  {
    hide FlushRange.Limit;
    hide InRange;
    var rest := q[..|q| - 1];
    var i :| 0 <= i < |rest| && InRange(rest[i], page, v);
    assert rest[i] == q[i];
    BelowLimit(q[i], page, v);
  }

  lemma {:induction false} CountFits(limit: nat, count: nat, last: FlushRange, page: nat)
    requires page > 0 && RangeOk(last, page) && count * page <= limit <= last.start
    ensures (count + last.pages) * page <= last.Limit(page) < ADDRESS_LIMIT
    ensures SaturatingAdd(count, last.pages) == count + last.pages
  {
    assert (count + last.pages) * page == count * page + last.pages * page;
    MulAtLeast(page, count + last.pages);
  }

  /** Pages added up from the first range on. */
  function PageSum(q: seq<FlushRange>): nat {
    if q == [] then 0 else q[0].pages + PageSum(q[1..])
  }

  lemma {:induction false} PageSumLast(q: seq<FlushRange>)
    requires q != []
    ensures PageSum(q) == PageSum(q[..|q| - 1]) + q[|q| - 1].pages
    decreases |q|
  {
    if |q| > 1 {
      PageSumLast(q[1..]);
      assert q[1..][..|q| - 2] == q[..|q| - 1][1..];
    }
  }

  lemma {:induction false} CountIsSum(q: seq<FlushRange>)
    ensures PageCount(q) == if PageSum(q) < ADDRESS_LIMIT then PageSum(q) else ADDRESS_LIMIT - 1
    decreases |q|
  {
    if q != [] {
      CountIsSum(q[..|q| - 1]);
      PageSumLast(q);
    }
  }

  lemma {:induction false} SumInserted(q: seq<FlushRange>, r: FlushRange)
    ensures PageSum(InsertByStart(q, r)) == PageSum(q) + r.pages
    decreases |q|
  {
    if q == [] || r.start <= q[0].start {
      assert ([r] + q)[1..] == q;
    } else {
      SumInserted(q[1..], r);
      assert ([q[0]] + InsertByStart(q[1..], r))[1..] == InsertByStart(q[1..], r);
    }
  }

  lemma {:induction false} SumSorted(q: seq<FlushRange>)
    ensures PageSum(SortByStart(q)) == PageSum(q)
    decreases |q|
  {
    if q != [] {
      SumSorted(q[1..]);
      SumInserted(SortByStart(q[1..]), q[0]);
    }
  }

  lemma {:induction false} CountSorted(q: seq<FlushRange>)
    ensures PageCount(SortByStart(q)) == PageCount(q)
  {
    CountIsSum(q);
    CountIsSum(SortByStart(q));
    SumSorted(q);
  }

  /** What flushing a queue emits: one full invalidation if the queue overflowed or if the policy
      says so of its number of pages; otherwise every page of every queued range once, in
      ascending order, and so nothing for an empty queue. */
  lemma {:induction false} EmissionInPages<W(!new), F>(c: Config<W, F>, q: seq<FlushRange>, n: nat)
    requires c.geo.Lawful() && QueueOk(q, c.geo.Span(1)) && n == PageCount(q)
    ensures Emission(c, q, true) == [FlushedAll]
    ensures n > 0 && c.preferFull(n) ==> Emission(c, q, false) == [FlushedAll]
    ensures n == 0 || !c.preferFull(n) ==>
              var events := Emission(c, q, false);
              && |events| == n && Ascending(events)
              && forall v: nat ::
                   FlushedPage(v) in events <==> v % c.geo.Span(1) == 0 && Covered(q, c.geo.Span(1), v)
  {
    hide Geometry.Lawful;
    hide Geometry.Span;
    hide Sweeps;
    hide RangeOk;
    hide FlushRange.Limit;
    hide Covered;
    hide PageCount;
    hide Ascending;
    var page, sorted := c.geo.Span(1), SortByStart(q);
    NoPages(q, page);
    if q == [] {
      NothingCovered(page);
      NothingAscends<W>();
    } else {
      SortedInOrder(q, page);
      SortedCovers(q, page);
      CountSorted(q);
      SweepsListPages<W>(sorted, page);
    }
  }

  lemma {:induction false} NothingAscends<W(!new)>()
    ensures Ascending<W>([])
  {
  }

  lemma {:induction false} SortedCovers(q: seq<FlushRange>, page: nat)
    requires page > 0 && QueueOk(q, page)
    ensures forall v: nat :: Covered(SortByStart(q), page, v) <==> Covered(q, page, v)
  {
    hide RangeOk;
    hide Covered;
    SortKeeps(q);
    SameRanges(q, SortByStart(q), page);
  }

  /** What occurs at two places occurs twice. */
  lemma {:induction false} TwicePresent(s: seq<FlushRange>, i: nat, j: nat)
    requires i < j < |s| && s[i] == s[j]
    ensures multiset(s)[s[i]] >= 2
  {
    var front, back := s[..j], s[j..];
    assert front[i] in multiset(front) && back[0] in multiset(back);
    assert front + back == s;
  }

  lemma {:induction false} OncePresent(q: seq<FlushRange>, r: FlushRange)
    requires forall i: nat, j: nat | i < j < |q| :: q[i] != q[j]
    ensures multiset(q)[r] <= 1
    decreases |q|
  {
    if q != [] {
      var rest, last := q[..|q| - 1], q[|q| - 1];
      OncePresent(rest, r);
      assert rest + [last] == q;
      if r in multiset(rest) {
        assert r in rest;
      }
    }
  }

  lemma {:induction false} PairApart(q: seq<FlushRange>, s: seq<FlushRange>, page: nat, i: nat, j: nat)
    requires page > 0 && QueueOk(q, page) && multiset(s) == multiset(q) && SortedByStart(s) && i < j < |s|
    ensures s[i].Limit(page) < s[j].start
  {
    forall a: nat, b: nat | a < b < |q| ensures q[a] != q[b] {
      ApartDiffer(q, page, a, b);
    }
    if s[i] == s[j] {
      TwicePresent(s, i, j);
      OncePresent(q, s[i]);
    }
    assert s[i] in multiset(s) && s[j] in multiset(s);
    var a :| 0 <= a < |q| && q[a] == s[i];
    var b :| 0 <= b < |q| && q[b] == s[j];
    EitherApart(q, page, a, b);
  }

  lemma {:induction false} ApartDiffer(q: seq<FlushRange>, page: nat, a: nat, b: nat)
    requires page > 0 && QueueOk(q, page) && a < b < |q|
    ensures q[a] != q[b]
  {
    assert Apart(q[a], q[b], page) && RangeOk(q[a], page);
    MulAtLeast(q[a].pages, page);
  }

  lemma {:induction false} EitherApart(q: seq<FlushRange>, page: nat, a: nat, b: nat)
    requires page > 0 && QueueOk(q, page) && a < |q| && b < |q| && a != b && q[a].start <= q[b].start
    ensures q[a].Limit(page) < q[b].start
  {
    assert Apart(q[a], q[b], page) || Apart(q[b], q[a], page);
    assert RangeOk(q[b], page);
    MulAtLeast(q[b].pages, page);
  }

  /** Ranges that are apart stay so when sorted, so that each ends before the next starts. */
  lemma {:induction false} SortedInOrder(q: seq<FlushRange>, page: nat)
    requires page > 0 && QueueOk(q, page)
    ensures InOrder(SortByStart(q), page)
  {
    hide FlushRange.Limit;
    hide Covered;
    hide SortByStart;
    var s := SortByStart(q);
    SortKeeps(q);
    SameRanges(q, s, page);
    forall i: nat, j: nat | i < j < |s| ensures s[i].Limit(page) < s[j].start {
      PairApart(q, s, page, i, j);
    }
  }
}
