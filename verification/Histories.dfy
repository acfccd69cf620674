/** Sound machine states, and histories in which the translation changes at most once. */
module Histories {
  import opened Basics
  import opened Entries
  import opened Memory
  import opened Trie
  import opened TreeEdits
  import opened Translation
  import opened Tlb

  /** The live frames are those of the tree and those of others, which are untouched. */
  ghost predicate Owns<W, F>(words: map<nat, seq<W>>, view: View<F>, foreign: map<nat, seq<W>>) {
    && foreign.Keys !! Frames(view)
    && words.Keys == foreign.Keys + Frames(view)
    && forall f | f in foreign :: words[f] == foreign[f]
  }

  /** The history starts with a memory and leads to the present one. */
  ghost predicate HistoryOk<W>(s: Store<W>) {
    s.log != [] && s.log[0].Wrote? && Current(s.log) == s.words
  }

  ghost predicate Sound<W(!new), F(!new)>(
      c: Config<W, F>, s: Store<W>, view: View<F>, root: nat, foreign: map<nat, seq<W>>, dirty: iset<nat>) {
    && Represents(c, s.words, view, root)
    && Owns(s.words, view, foreign)
    && s.log != [] && s.log[0].Wrote? && Current(s.log) == s.words
    && DirtyOnly(c, root, s.log, dirty)
  }

  /** Overwriting a frame of the tree. */
  lemma {:induction false} OwnsAfterPut<W, F>(
      words: map<nat, seq<W>>, view: View<F>, foreign: map<nat, seq<W>>, after: View<F>, f: nat, x: seq<W>)
    requires Owns(words, view, foreign) && f in Frames(view) && Frames(after) == Frames(view)
    ensures Owns(words[f := x], after, foreign)
  {
    hide Frames;
  }

  /** Adding a frame to the tree. */
  lemma {:induction false} OwnsAfterAlloc<W, F>(
      words: map<nat, seq<W>>, view: View<F>, foreign: map<nat, seq<W>>, after: View<F>, f: nat, x: seq<W>)
    requires Owns(words, view, foreign) && f !in words && Frames(after) == Frames(view) + {f}
    ensures Owns(words[f := x], after, foreign)
  {
    hide Frames;
  }

  /** Taking a frame from the tree. */
  lemma {:induction false} OwnsAfterFree<W, F>(
      words: map<nat, seq<W>>, view: View<F>, foreign: map<nat, seq<W>>, after: View<F>, f: nat)
    requires Owns(words, view, foreign) && f in Frames(view) && Frames(after) == Frames(view) - {f}
    ensures Owns(words - {f}, after, foreign)
  {
    hide Frames;
  }

  /** A write that changes no translation leaves nothing outdated. */
  lemma {:induction false} DirtyAfterQuietWrite<W(!new), F(!new)>(
      c: Config<W, F>, root: nat, log: seq<Event<W>>, m: map<nat, seq<W>>, dirty: iset<nat>)
    requires DirtyOnly(c, root, log, dirty) && Agree(c, root, Current(log), m)
    ensures DirtyOnly(c, root, log + [Wrote(m)], dirty) && Current(log + [Wrote(m)]) == m
  {
    hide DirtyOnly;
    hide Xlate;
    DirtyAfterWrite(c, root, log, m, dirty);
  }

  /** A write that changes the translation of one range leaves that range outdated. */
  lemma {:induction false} DirtyAfterLeafWrite<W(!new), F(!new)>(
      c: Config<W, F>, root: nat, log: seq<Event<W>>, m: map<nat, seq<W>>, dirty: iset<nat>, range: AddrRange)
    requires DirtyOnly(c, root, log, dirty) && AgreeOutside(c, root, Current(log), m, range)
    ensures DirtyOnly(c, root, log + [Wrote(m)], dirty + AddressesOf(range)) && Current(log + [Wrote(m)]) == m
  {
    hide DirtyOnly;
    hide Xlate;
    DirtyWeaken(c, root, log, dirty, dirty + AddressesOf(range));
    DirtyAfterWrite(c, root, log, m, dirty + AddressesOf(range));
  }

  /** From `lo` to `hi` every memory of the history translates like `m`. */
  ghost predicate Quiet<W, F>(
      c: Config<W, F>, root: nat, log: seq<Event<W>>, lo: nat, hi: nat, m: map<nat, seq<W>>) {
    forall k: nat | lo <= k < hi && k < |log| :: log[k].Wrote? ==> Agree(c, root, log[k].words, m)
  }

  /** No write between the two states changes the translation. */
  ghost predicate NoChange<W, F>(c: Config<W, F>, root: nat, before: Store<W>, after: Store<W>) {
    && before.log <= after.log
    && Quiet(c, root, after.log, |before.log|, |after.log|, before.words)
    && Agree(c, root, before.words, after.words)
  }

  /** At most one write changes the translation: a walk between any two writes sees the
      old translation everywhere or the new one everywhere. */
  ghost predicate OneChange<W, F>(c: Config<W, F>, root: nat, before: Store<W>, after: Store<W>) {
    && before.log <= after.log
    && exists k: nat | |before.log| <= k <= |after.log| ::
         Quiet(c, root, after.log, |before.log|, k, before.words)
         && Quiet(c, root, after.log, k, |after.log|, after.words)
  }

  lemma {:induction false} NoChangeTrans<W, F>(c: Config<W, F>, root: nat, a: Store<W>, b: Store<W>, d: Store<W>)
    requires NoChange(c, root, a, b) && NoChange(c, root, b, d)
    ensures NoChange(c, root, a, d)
  {
    hide Xlate;
    forall k: nat | |a.log| <= k < |d.log|
      ensures d.log[k].Wrote? ==> Agree(c, root, d.log[k].words, a.words)
    {
      if k < |b.log| {
        assert d.log[k] == b.log[k];
      }
    }
  }

  /** One more write after a quiet history, then quiet again. */
  lemma {:induction false} OneChangeAt<W, F>(
      c: Config<W, F>, root: nat, a: Store<W>, b: Store<W>, d: Store<W>, e: Store<W>)
    requires NoChange(c, root, a, b) && d.log == b.log + [Wrote(d.words)] && NoChange(c, root, d, e)
    ensures OneChange(c, root, a, e)
  {
    hide Xlate;
    forall k: nat | |a.log| <= k < |b.log|
      ensures e.log[k].Wrote? ==> Agree(c, root, e.log[k].words, a.words)
    {
      assert e.log[k] == d.log[k] == b.log[k];
    }
    forall k: nat | |b.log| <= k < |e.log|
      ensures e.log[k].Wrote? ==> Agree(c, root, e.log[k].words, e.words)
    {
      if k == |b.log| {
        assert e.log[k] == d.log[k];
      }
    }
    assert Quiet(c, root, e.log, |a.log|, |b.log|, a.words);
    assert Quiet(c, root, e.log, |b.log|, |e.log|, e.words);
  }

  lemma {:induction false} NoChangeRefl<W, F>(c: Config<W, F>, root: nat, a: Store<W>, b: Store<W>)
    requires a.log == b.log && a.words == b.words
    ensures NoChange(c, root, a, b)
  {
  }

  lemma {:induction false} NoChangeThenOne<W, F>(c: Config<W, F>, root: nat, a: Store<W>, b: Store<W>, d: Store<W>)
    requires NoChange(c, root, a, b) && OneChange(c, root, b, d)
    ensures OneChange(c, root, a, d)
  {
    hide Xlate;
    var k: nat :| |b.log| <= k <= |d.log|
                  && Quiet(c, root, d.log, |b.log|, k, b.words) && Quiet(c, root, d.log, k, |d.log|, d.words);
    forall j: nat | |a.log| <= j < k ensures d.log[j].Wrote? ==> Agree(c, root, d.log[j].words, a.words) {
      if j < |b.log| {
        assert d.log[j] == b.log[j];
      }
    }
    assert Quiet(c, root, d.log, |a.log|, k, a.words);
  }

  lemma {:induction false} OneThenNoChange<W, F>(c: Config<W, F>, root: nat, a: Store<W>, b: Store<W>, d: Store<W>)
    requires OneChange(c, root, a, b) && NoChange(c, root, b, d)
    ensures OneChange(c, root, a, d)
  {
    hide Xlate;
    var k: nat :| |a.log| <= k <= |b.log|
                  && Quiet(c, root, b.log, |a.log|, k, a.words) && Quiet(c, root, b.log, k, |b.log|, b.words);
    forall j: nat | |a.log| <= j < k ensures d.log[j].Wrote? ==> Agree(c, root, d.log[j].words, a.words) {
      assert d.log[j] == b.log[j];
    }
    forall j: nat | k <= j < |d.log| ensures d.log[j].Wrote? ==> Agree(c, root, d.log[j].words, d.words) {
      if j < |b.log| {
        assert d.log[j] == b.log[j];
      }
    }
    assert Quiet(c, root, d.log, |a.log|, k, a.words);
    assert Quiet(c, root, d.log, k, |d.log|, d.words);
  }

  lemma {:induction false} QuietStep<W, F>(c: Config<W, F>, root: nat, a: Store<W>, b: Store<W>)
    requires b.log == a.log + [Wrote(b.words)] && Agree(c, root, a.words, b.words)
    ensures NoChange(c, root, a, b)
  {
    hide Xlate;
  }

  lemma {:induction false} TwoQuietSteps<W, F>(c: Config<W, F>, root: nat, a: Store<W>, b: Store<W>, d: Store<W>)
    requires b.log == a.log + [Wrote(b.words)] && Agree(c, root, a.words, b.words)
    requires d.log == b.log + [Wrote(d.words)] && Agree(c, root, b.words, d.words)
    ensures NoChange(c, root, a, d) && d.log == a.log + [Wrote(b.words), Wrote(d.words)]
  {
    hide Agree;
    QuietStep(c, root, a, b);
    QuietStep(c, root, b, d);
    NoChangeTrans(c, root, a, b, d);
  }

  /** An allocator answer only advances the clock, or adds one zeroed, fresh, fit frame. */
  lemma {:induction false} AllocStep<W(!new), F(!new)>(c: Config<W, F>, s: Store<W>)
    requires ConfigOk(c)
    ensures var (s1, r) := s.Alloc(c);
            && (r.Err? ==> s1.words == s.words && s1.log == s.log
                           && (r.error == OutOfMemory || r.error == NotAligned))
            && (r.Ok? ==> r.value !in s.words && FrameOk(c.geo, r.value) && r.value in s1.words
                          && s1.words == s.words[r.value := s1.words[r.value]]
                          && s1.log == s.log + [Wrote(s1.words)]
                          && forall level: int | level >= 1 :: NewFrameIsEmpty(c, s1.words, r.value, level))
  {
    hide Lawful;
    var _ := c.grants(s.words.Keys, s.tick);
    assert !c.codec.isPresent(c.codec.zero) by { ZeroIsEmpty(c); }
  }

  lemma {:induction false} ZeroIsEmpty<W(!new), F(!new)>(c: Config<W, F>)
    requires ConfigOk(c)
    ensures !c.codec.isPresent(c.codec.zero)
  {
  }
}
