/** What a TLB filled by hardware at arbitrary moments may hold after a history. */
module Tlb {
  import opened Basics
  import opened Power
  import opened Memory
  import opened Trie

  ghost function AddressesOf(r: AddrRange): iset<nat> {
    iset v: nat | r.Contains(v)
  }

  /** The memory left by a history. */
  ghost function Current<W>(log: seq<Event<W>>): map<nat, seq<W>> {
    if log == [] then map[]
    else if log[|log| - 1].Wrote? then log[|log| - 1].words
    else Current(log[..|log| - 1])
  }

  /** An invalidation reaches `v` when it covers the base page of `v`. */
  predicate Covers<W, F>(c: Config<W, F>, e: Event<W>, v: nat) {
    match e
    case Wrote(_) => false
    case FlushedPage(a) => a / c.geo.Span(1) == v / c.geo.Span(1)
    case FlushedAll => true
  }

  /** The fullest TLB: every translation that was current at some moment since the last
      invalidation of its address. */
  ghost predicate MayHold<W(!new), F(!new)>(c: Config<W, F>, root: nat, log: seq<Event<W>>, v: nat, h: Hit<F>) {
    if log == [] then false
    else
      var e, before := log[|log| - 1], log[..|log| - 1];
      if e.Wrote? then MayHold(c, root, before, v, h) || Xlate(c, e.words, root, v) == Some(h)
      else if Covers(c, e, v) then Xlate(c, Current(before), root, v) == Some(h)
      else MayHold(c, root, before, v, h)
  }

  /** Nothing the TLB may hold for `v` differs from the current translation. */
  ghost predicate CleanAt<W(!new), F(!new)>(c: Config<W, F>, root: nat, log: seq<Event<W>>, v: nat) {
    forall h :: MayHold(c, root, log, v, h) ==> Xlate(c, Current(log), root, v) == Some(h)
  }

  /** Only addresses in `dirty` may be cached with an outdated translation. */
  ghost predicate DirtyOnly<W(!new), F(!new)>(
      c: Config<W, F>, root: nat, log: seq<Event<W>>, dirty: iset<nat>) {
    forall v :: c.geo.VaddrIsValid(v) && v !in dirty ==> CleanAt(c, root, log, v)
  }

  /** One actual TLB evolution: before each event the hardware may fill in current
      translations and drop entries; an invalidation removes what it covers. */
  ghost predicate TlbRun<W(!new), F(!new)>(
      c: Config<W, F>, root: nat, log: seq<Event<W>>, tlbs: seq<iset<(nat, Hit<F>)>>) {
    && |tlbs| == |log| + 1
    && tlbs[0] == iset{}
    && forall k, v, h | 0 <= k < |log| && (v, h) in tlbs[k + 1] ::
         Xlate(c, Current(log[..k + 1]), root, v) == Some(h) || ((v, h) in tlbs[k] && !Covers(c, log[k], v))
  }

  /** `MayHold` bounds every actual TLB. */
  lemma {:induction false} MayHoldBoundsTlbs<W(!new), F(!new)>(
      c: Config<W, F>, root: nat, log: seq<Event<W>>, tlbs: seq<iset<(nat, Hit<F>)>>, v: nat, h: Hit<F>)
    requires TlbRun(c, root, log, tlbs) && (log == [] || log[0].Wrote?)
    requires (v, h) in tlbs[|log|]
    ensures MayHold(c, root, log, v, h)
    decreases |log|
  {
    if log != [] {
      var n := |log| - 1;
      var before := log[..n];
      assert log[..n + 1] == log;
      assert Xlate(c, Current(log[..n + 1]), root, v) == Some(h) || ((v, h) in tlbs[n] && !Covers(c, log[n], v));
      if (v, h) in tlbs[n] && !Covers(c, log[n], v) {
        assert TlbRun(c, root, before, tlbs[..n + 1]) by {
          forall k, a, b | 0 <= k < |before| && (a, b) in tlbs[..n + 1][k + 1]
            ensures Xlate(c, Current(before[..k + 1]), root, a) == Some(b)
                    || ((a, b) in tlbs[..n + 1][k] && !Covers(c, before[k], a))
          {
            assert before[..k + 1] == log[..k + 1];
          }
        }
        MayHoldBoundsTlbs(c, root, before, tlbs[..n + 1], v, h);
      } else {
        CurrentMayBeHeld(c, root, log, v, h);
      }
    }
  }

  /** A current translation may always be filled in. */
  lemma {:induction false} CurrentMayBeHeld<W(!new), F(!new)>(
      c: Config<W, F>, root: nat, log: seq<Event<W>>, v: nat, h: Hit<F>)
    requires log != [] && log[0].Wrote? && Xlate(c, Current(log), root, v) == Some(h)
    ensures MayHold(c, root, log, v, h)
    decreases |log|
  {
    var e, before := log[|log| - 1], log[..|log| - 1];
    if !e.Wrote? && !Covers(c, e, v) {
      CurrentMayBeHeld(c, root, before, v, h);
    }
  }

  lemma {:induction false} LastOf<T>(s: seq<T>, e: T)
    ensures (s + [e])[|s + [e]| - 1] == e && (s + [e])[..|s + [e]| - 1] == s
  {
  }

  /** A write that leaves the translation alone outside `dirty` keeps the rest clean. */
  lemma {:induction false} DirtyAfterWrite<W(!new), F(!new)>(
      c: Config<W, F>, root: nat, log: seq<Event<W>>, m: map<nat, seq<W>>, dirty: iset<nat>)
    requires DirtyOnly(c, root, log, dirty)
    requires forall v: nat | c.geo.VaddrIsValid(v) && v !in dirty ::
               Xlate(c, Current(log), root, v) == Xlate(c, m, root, v)
    ensures DirtyOnly(c, root, log + [Wrote(m)], dirty) && Current(log + [Wrote(m)]) == m
  {
    hide Translate;
    LastOf(log, Wrote(m));
    forall v: nat | c.geo.VaddrIsValid(v) && v !in dirty ensures CleanAt(c, root, log + [Wrote(m)], v) {
      assert CleanAt(c, root, log, v);
    }
  }

  /** An invalidation cleans what it covers. */
  lemma {:induction false} DirtyAfterFlush<W(!new), F(!new)>(
      c: Config<W, F>, root: nat, log: seq<Event<W>>, e: Event<W>, dirty: iset<nat>, rest: iset<nat>)
    requires DirtyOnly(c, root, log, dirty) && !e.Wrote?
    requires forall v: nat | c.geo.VaddrIsValid(v) && v in dirty :: v in rest || Covers(c, e, v)
    ensures DirtyOnly(c, root, log + [e], rest) && Current(log + [e]) == Current(log)
  {
    hide Translate;
    LastOf(log, e);
    forall v: nat | c.geo.VaddrIsValid(v) && v !in rest ensures CleanAt(c, root, log + [e], v) {
      if v !in dirty {
        assert CleanAt(c, root, log, v);
      }
    }
  }

  /** A sweep over base pages cleans the addresses it passes. */
  lemma {:induction false} DirtyAfterSweep<W(!new), F(!new)>(
      c: Config<W, F>, root: nat, log: seq<Event<W>>, start: nat, count: nat, dirty: iset<nat>, rest: iset<nat>)
    requires c.geo.Lawful() && DirtyOnly(c, root, log, dirty)
    requires start % c.geo.Span(1) == 0 && start + count * c.geo.Span(1) < ADDRESS_LIMIT
    requires forall v: nat | c.geo.VaddrIsValid(v) && v in dirty ::
               v in rest || start <= v < start + count * c.geo.Span(1)
    ensures DirtyOnly(c, root, log + Sweep(start, c.geo.Span(1), count), rest)
    ensures Current(log + Sweep(start, c.geo.Span(1), count)) == Current(log)
    decreases count
  {
    var s := c.geo.Span(1);
    if count == 0 {
      assert log + Sweep(start, s, 0) == log;
      DirtyWeaken(c, root, log, dirty, rest);
    } else {
      var at := start + (count - 1) * s;
      assert count * s == (count - 1) * s + s;
      StrideIs(start, s, count - 1);
      var before := rest + AddressesOf(AddrRange(at, at + s));
      DirtyAfterSweep(c, root, log, start, count - 1, dirty, before);
      var e: Event<W> := FlushedPage(at);
      forall v: nat | c.geo.VaddrIsValid(v) && v in before ensures v in rest || Covers(c, e, v) {
        if at <= v < at + s {
          SamePage(v, at, start, count - 1, s);
        }
      }
      DirtyAfterFlush(c, root, log + Sweep(start, s, count - 1), e, before, rest);
      assert log + Sweep(start, s, count) == log + Sweep(start, s, count - 1) + [e];
    }
  }

  /** Enlarging the dirty set claims less; only valid addresses count. */
  lemma {:induction false} DirtyWeaken<W(!new), F(!new)>(
      c: Config<W, F>, root: nat, log: seq<Event<W>>, dirty: iset<nat>, more: iset<nat>)
    requires DirtyOnly(c, root, log, dirty)
    requires forall v: nat | c.geo.VaddrIsValid(v) && v in dirty :: v in more
    ensures DirtyOnly(c, root, log, more)
  {
    hide CleanAt;
  }

  lemma {:induction false} SamePage(v: nat, at: nat, start: nat, k: nat, s: nat)
    requires s > 0 && start % s == 0 && at == start + k * s && at <= v < at + s
    ensures at / s == v / s
  {
    AddMultipleMod(start, k, s);
    DigitsOf(at, s);
    DivModUnique(v, s, at / s, v - at);
  }

  /** Strides that stay below the address limit never saturate. */
  lemma {:induction false} StrideIs(start: nat, stride: nat, count: nat)
    requires start + count * stride < ADDRESS_LIMIT
    ensures Stride(start, stride, count) == start + count * stride
    decreases count
  {
    if count > 0 {
      assert count * stride == (count - 1) * stride + stride;
      StrideIs(start, stride, count - 1);
    }
  }

  /** No TLB can hold anything for an address space rooted at `root`. */
  ghost predicate Unheld<W(!new), F(!new)>(c: Config<W, F>, root: nat, log: seq<Event<W>>) {
    forall v: nat, h :: c.geo.VaddrIsValid(v) ==> !MayHold(c, root, log, v, h)
  }

  /** Nothing translates through a frame that is not live. */
  lemma {:induction false} DeadRoot<W, F>(c: Config<W, F>, m: map<nat, seq<W>>, root: nat, v: nat)
    requires root !in m
    ensures Xlate(c, m, root, v) == None
  {
  }

  /** So a machine without history holds nothing for a root yet to be allocated. */
  lemma {:induction false} UnheldAtFirst<W(!new), F(!new)>(c: Config<W, F>, root: nat, m: map<nat, seq<W>>)
    requires root !in m
    ensures Unheld(c, root, [Wrote(m)])
  {
    hide Xlate;
    var log: seq<Event<W>> := [Wrote(m)];
    forall v: nat, h | c.geo.VaddrIsValid(v) ensures !MayHold(c, root, log, v, h) {
      DeadRoot(c, m, root, v);
      assert log[..|log| - 1] == [];
    }
  }

  /** Nor does one whose TLB has just been flushed. */
  lemma {:induction false} UnheldAfterFlush<W(!new), F(!new)>(c: Config<W, F>, root: nat, log: seq<Event<W>>)
    requires root !in Current(log)
    ensures Unheld(c, root, log + [FlushedAll])
  {
    hide Xlate;
    LastOf(log, FlushedAll);
    forall v: nat, h | c.geo.VaddrIsValid(v) ensures !MayHold(c, root, log + [FlushedAll], v, h) {
      DeadRoot(c, Current(log), root, v);
    }
  }
}
