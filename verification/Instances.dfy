/** The shipped entry formats, ready for the walker. */
module Instances {
  import opened Basics
  import opened Power
  import opened Geometries
  import opened Entries
  import opened Memory
  import opened Trie
  import opened Histories
  import opened Tlb
  import opened Blocks
  import opened Steps
  import opened MapWalks
  import opened Pruning
  import opened Tightness
  import opened BlockEdits
  import opened BlockExactness
  import opened Attributes
  import opened Formats
  import PageSizes
  import Splitting
  import X86Entries
  import RiscvEntries

  /** With an allocator that keeps its contract, the x86-64 formats are sound configurations. */
  lemma {:induction false} X86ConfigOk(c: Config<bv64, LeafFlags>)
    requires c.geo == X86_48 || c.geo == X86_57
    requires c.codec == X86Entries.CODEC && AllocatorOk(c)
    ensures ConfigOk(c)
  {
    X86Entries.X86IsLawful(c.geo);
  }

  /** And so are the RISC-V formats, with and without page-based memory types. */
  lemma {:induction false} RiscvConfigOk(c: Config<bv64, LeafFlags>, svpbmt: bool)
    requires c.geo == RV_39 || c.geo == RV_48 || c.geo == RV_57
    requires c.codec == RiscvEntries.CodecFor(svpbmt) && AllocatorOk(c)
    ensures ConfigOk(c)
  {
    RiscvEntries.RiscvIsLawful(svpbmt, c.geo);
  }

  /** An allocator that hands out ever higher 4 KiB frames. */
  function Bump(live: set<nat>, tick: nat): Grant {
    if 0x1000 * (tick + 1) !in live && 0x1000 * (tick + 1) < Pow2(52) then Granted(0x1000 * (tick + 1), 0x1000)
    else Denied(OutOfMemory)
  }

  /** The assumptions are consistent: a sound configuration whose first grant succeeds gives a
      sound state to start from. */
  lemma {:induction false} SoundStateExists() returns (c: Config<bv64, LeafFlags>, s: Store<bv64>, root: nat)
    ensures ConfigOk(c) && Sound(c, s, map[Root := Table(root)], root, map[], iset{})
  {
    hide ConfigOk;
    hide Sound;
    c := Config(X86_48, X86Entries.CODEC, Bump, count => count > 32);
    BumpIsOk(c);
    X86ConfigOk(c);
    var before: Store<bv64> := Store(map[], 0, [Wrote(map[])]);
    FirstFrame();
    UnheldAtFirst(c, 0x1000, map[]);
    FreshRoot(c, before);
    X86_48.SizeIsSpan(1, PageSizes.Size4K);
    var (after, granted) := before.Alloc(c);
    s, root := after, granted.value;
  }

  lemma {:induction false} BumpIsOk(c: Config<bv64, LeafFlags>)
    requires c.geo == X86_48 && c.grants == Bump
    ensures AllocatorOk(c)
  {
    forall live, tick {:trigger c.grants(live, tick)}
      ensures match c.grants(live, tick)
              case Granted(start, _) => start !in live && c.geo.PaddrIsValid(start)
              case Denied(e) => e == OutOfMemory || e == NotAligned
    {
    }
  }

  lemma {:induction false} FirstFrame()
    ensures Bump({}, 0) == Granted(0x1000, 0x1000)
  {
    PageBytes();
    Pow2Monotone(13, 52);
    assert Pow2(13) == 2 * Pow2(12);
  }

  /** An allocator that has two frames to give. */
  function Scarce(live: set<nat>, tick: nat): Grant {
    if tick <= 1 && 0x1000 * (tick + 1) !in live then Granted(0x1000 * (tick + 1), 0x1000) else Denied(OutOfMemory)
  }

  lemma {:induction false} ScarceFrames()
    ensures X86_48.PaddrIsValid(0x1000) && X86_48.PaddrIsValid(0x2000)
  {
    PageBytes();
    Pow2Monotone(14, 52);
    assert Pow2(14) == 2 * Pow2(13) == 4 * Pow2(12);
  }

  lemma {:induction false} ScarceIsOk(c: Config<bv64, LeafFlags>)
    requires c.geo == X86_48 && c.grants == Scarce
    ensures AllocatorOk(c)
  {
    hide Geometry.PaddrIsValid;
    ScarceFrames();
    forall live, tick {:trigger c.grants(live, tick)}
      ensures match c.grants(live, tick)
              case Granted(start, _) => start !in live && c.geo.PaddrIsValid(start)
              case Denied(e) => e == OutOfMemory || e == NotAligned
    {
    }
  }

  /** Walking down through an absent entry asks the allocator. */
  lemma {:induction false} AbsentAsks(c: Config<bv64, LeafFlags>, s: Store<bv64>, frame: nat, level: nat, v: nat)
    requires c.codec == X86Entries.CODEC && frame in s.words
    requires var i := c.geo.IndexAt(level, v); i < |s.words[frame]| && s.words[frame][i] == 0
    ensures StepDown(c, s, frame, level, v) ==
            var (s1, r) := s.Alloc(c);
            if r.Err? then (s1, r)
            else (s1.Put(frame, c.geo.IndexAt(level, v), c.codec.newTable(r.value, level)), r)
  {
    hide Geometry.IndexAt;
    X86Entries.ZeroIsAbsent();
  }

  /** Walking down through an empty frame does. */
  lemma {:induction false} EmptyFrameAsks(c: Config<bv64, LeafFlags>, s: Store<bv64>, frame: nat, level: nat)
    requires c.codec == X86Entries.CODEC && frame in s.words && |s.words[frame]| > 0 && s.words[frame][0] == 0
    ensures StepDown(c, s, frame, level, 0) ==
            var (s1, r) := s.Alloc(c);
            if r.Err? then (s1, r) else (s1.Put(frame, 0, c.codec.newTable(r.value, level)), r)
  {
    hide StepDown;
    SmallQuotient(0, c.geo.Span(level));
    SmallQuotient(0, c.geo.Fan(level));
    assert c.geo.IndexAt(level, 0) == 0;
    AbsentAsks(c, s, frame, level, 0);
  }

  /** The state after the root has been granted. */
  lemma {:induction false} FirstRoot(c: Config<bv64, LeafFlags>) returns (s: Store<bv64>)
    requires c.geo == X86_48 && c.codec == X86Entries.CODEC && c.grants({}, 0) == Granted(0x1000, 0x1000) && ConfigOk(c)
    ensures s.words == map[0x1000 := seq(512, _ => 0)] && s.tick == 1
    ensures Sound(c, s, map[Root := Table(0x1000)], 0x1000, map[], iset{})
  {
    hide ConfigOk;
    hide Sound;
    var before: Store<bv64> := Store(map[], 0, [Wrote(map[])]);
    UnheldAtFirst(c, 0x1000, map[]);
    assert before.words.Keys == {};
    FirstGrant(c, before);
    FreshRoot(c, before);
    s := before.Alloc(c).0;
  }

  lemma {:induction false} FirstGrant(c: Config<bv64, LeafFlags>, before: Store<bv64>)
    requires c.geo == X86_48 && c.codec == X86Entries.CODEC && c.grants({}, 0) == Granted(0x1000, 0x1000)
    requires before.words == map[] && before.words.Keys == {} && before.tick == 0
    ensures var (s, r) := before.Alloc(c);
            r == Ok(0x1000) && s.words == map[0x1000 := seq(512, _ => 0)] && s.tick == 1
  {
    PageBytes();
    assert Pow2(9) == 512;
  }

  /** A tree that is not tight: with one frame left, mapping a page under an empty root links
      one table and is refused the next. */
  lemma {:induction false} StrandedTable() returns (
      c: Config<bv64, LeafFlags>, s: Store<bv64>, s1: Store<bv64>, after: View<LeafFlags>)
    ensures ConfigOk(c) && Sound(c, s, map[Root := Table(0x1000)], 0x1000, map[], iset{})
    ensures Tight<LeafFlags>(map[Root := Table(0x1000)])
    ensures MapWalk(c, s, 0x1000, 4, 1, 0, X86Entries.NewLeaf(0, READABLE, PageSizes.Size4K)) == (s1, Err(OutOfMemory))
    ensures Sound(c, s1, after, 0x1000, map[], iset{}) && !Tight(after)
  {
    hide ConfigOk;
    hide Sound;
    hide TargetOk;
    hide MapOutcome;
    hide MapWalk;
    hide LeafRequest;
    hide Tight;
    hide RefusesNext;
    hide X86Entries.NewLeaf;
    c := Config(X86_48, X86Entries.CODEC, Scarce, count => count > 32);
    ScarceIsOk(c);
    X86ConfigOk(c);
    s := FirstRoot(c);
    var view: View<LeafFlags> := map[Root := Table(0x1000)];
    var leaf := X86Entries.NewLeaf(0, READABLE, PageSizes.Size4K);
    BareRootIsTight();
    RefusedWalk(c, s, leaf);
    FirstPage(c);
    var range := AddrRange(0, 0x1000);
    assert X86_48.PathOf(0, 4) == Root;
    after := MapWalkEffect(c, s, view, 0x1000, map[], iset{}, range, 0, READABLE, PageSizes.Size4K, 4, 1);
    var walked := MapWalk(c, s, 0x1000, 4, 1, 0, leaf);
    s1 := walked.0;
    OutcomeIsSound(c, 0x1000, map[], iset{}, range, 0, READABLE, 1, s, view, s1, after, walked.1);
    TightIffNotStranded(c, 0x1000, map[], iset{}, range, 0, READABLE, 1, s, view, s1, after, walked.1);
  }

  lemma {:induction false} BareRootIsTight()
    ensures Tight<LeafFlags>(map[Root := Table(0x1000)])
  {
  }

  const READABLE: LeafFlags := LeafFlags(AccessFlags(READ), DEFAULT_ATTRIBUTES)

  /** The first page is a leaf that can be asked for. */
  lemma {:induction false} FirstPage(c: Config<bv64, LeafFlags>)
    requires c.geo == X86_48 && c.codec == X86Entries.CODEC
    ensures LeafRequest(c, AddrRange(0, 0x1000), 0, READABLE, PageSizes.Size4K, 1)
  {
    hide Geometry.VaddrIsValid;
    PageBytes();
    LowAddressIsValid(0);
    LeafLevels4K(X86_48, 1, PageSizes.Size4K);
    Pow2Monotone(12, 52);
  }

  /** The walk is granted the table below the root and refused the one below that. */
  lemma {:induction false} RefusedWalk(c: Config<bv64, LeafFlags>, s: Store<bv64>, leaf: bv64)
    requires c.geo == X86_48 && c.codec == X86Entries.CODEC && c.grants == Scarce
    requires s.words == map[0x1000 := seq(512, _ => 0)] && s.tick == 1
    ensures MapWalk(c, s, 0x1000, 4, 1, 0, leaf).1 == Err(OutOfMemory) && !RefusesNext(c, s)
  {
    hide StepDown;
    hide Geometry.IndexAt;
    PageBytes();
    assert Pow2(9) == 512;
    EmptyFrameAsks(c, s, 0x1000, 4);
    var (s1, r1) := StepDown(c, s, 0x1000, 4, 0);
    assert c.grants(s.words.Keys, 1) == Granted(0x2000, 0x1000);
    assert r1 == Ok(0x2000) && s1.words[0x2000] == seq(512, _ => 0) && s1.tick == 2;
    EmptyFrameAsks(c, s1, 0x2000, 3);
    var (s2, r2) := StepDown(c, s1, 0x2000, 3, 0);
    assert r2 == Err(OutOfMemory);
    WalkStepsDown(c, s, 0x1000, 4, 1, 0, leaf);
    WalkStepsDown(c, s1, 0x2000, 3, 1, 0, leaf);
  }

  /** Whatever the tree holds, merging two mebibytes at a 4 KiB boundary is refused as
      misaligned, not as impossible to coalesce. */
  lemma {:induction false} MergeOffBoundary<F>(view: View<F>, r: Result<PageSizes.PageSize>)
    requires MergeAnswer(X86_48, view, AddrRange(0x1000, 0x20_1000), r)
    ensures r == Err(NotAligned)
  {
    hide CheckLeafRange;
    hide Splitting.Mergeable;
    OffBoundary();
  }

  lemma {:induction false} OffBoundary()
    ensures CheckLeafRange(X86_48, AddrRange(0x1000, 0x20_1000)) == Err(NotAligned)
  {
    hide Geometry.VaddrIsValid;
    hide Geometry.PaddrIsValid;
    LowAddressIsValid(0x1000);
    LowAddressIsValid(0x20_0fff);
  }
}
