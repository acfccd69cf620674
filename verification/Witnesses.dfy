/** Concrete requests: one that fails as misaligned after a leaf of it has been mapped, and one
    whose extent is several granules long. */
module Witnesses {
  import opened Basics
  import opened Power
  import opened PageSizes
  import opened Geometries
  import opened Blocks
  import opened Entries
  import opened Memory
  import opened Trie
  import opened Histories
  import opened MapWalks
  import opened Requests
  import opened Extents
  import opened Plans
  import opened Pruning
  import opened Answers
  import opened TakeUp
  import opened PageTable
  import opened Attributes
  import opened Formats
  import opened Instances
  import X86Entries

  /** An allocator with two frames to give, and after them ranges of twice the size. */
  function Oversized(live: set<nat>, tick: nat): Grant {
    if tick <= 1 && 0x1000 * (tick + 1) !in live then Granted(0x1000 * (tick + 1), 0x1000)
    else if 0x1_0000 !in live then Granted(0x1_0000, 0x2000)
    else Denied(OutOfMemory)
  }

  lemma {:induction false} OversizedIsOk(c: Config<bv64, LeafFlags>)
    requires c.geo == X86_48 && c.grants == Oversized
    ensures AllocatorOk(c)
  {
    hide Geometry.PaddrIsValid;
    LowAddressIsValid(0x1000);
    LowAddressIsValid(0x2000);
    LowAddressIsValid(0x1_0000);
    forall live, tick {:trigger c.grants(live, tick)}
      ensures match c.grants(live, tick)
              case Granted(start, _) => start !in live && c.geo.PaddrIsValid(start)
              case Denied(e) => e == OutOfMemory || e == NotAligned
    {
    }
  }

  /** Two gibibytes on both sides of the first boundary between level-3 tables. */
  const ACROSS: AddrRange := AddrRange(0x7f_c000_0000, 0x80_4000_0000)
  const HALVES: seq<AddrRange> := [AddrRange(0x4000_0000, 0x8000_0000), AddrRange(0, 0x4000_0000)]
  const BY_GIBIBYTES: MappingFlags<LeafFlags> := MappingFlags(READABLE, Scattered(Size1G))

  lemma {:induction false} Spans()
    ensures X86_48.Span(4) == 0x80_0000_0000 && X86_48.Span(3) == 0x4000_0000 && X86_48.Span(1) == 0x1000
    ensures X86_48.Fan(4) == X86_48.Fan(3) == X86_48.EntriesPerTable() == 512
  {
    hide Pow2;
    FirstShifts(X86_48);
    PageBytes();
    NinthPower();
    Pow2Add(9, 9);
    Pow2Add(18, 9);
    Pow2Add(18, 12);
    Pow2Add(27, 12);
  }

  lemma {:induction false} NinthPower()
    ensures Pow2(9) == 512
  {
  }

  /** The indices that the two leaves select. */
  lemma {:induction false} Indices()
    ensures X86_48.IndexAt(4, 0x7f_c000_0000) == 0 && X86_48.IndexAt(3, 0x7f_c000_0000) == 511
    ensures X86_48.IndexAt(4, 0x80_0000_0000) == 1
  {
    hide Geometry.Span;
    hide Geometry.Fan;
    Spans();
  }

  lemma {:induction false} HighAddressIsValid(v: nat)
    requires v < 0x100_0000_0000
    ensures X86_48.VaddrIsValid(v) && X86_48.PaddrIsValid(v)
  {
    hide Canonical;
    hide Pow2;
    AddressWidths();
    FirstShifts(X86_48);
    PageBytes();
    NinthPower();
    Pow2Add(9, 9);
    Pow2Add(18, 9);
    Pow2Add(27, 12);
    Pow2Add(39, 1);
    Pow2One();
    Pow2Monotone(40, 47);
    Pow2Monotone(40, 52);
    CanonicalHalves(v, 48);
  }

  lemma {:induction false} Pow2One()
    ensures Pow2(1) == 2
  {
  }

  const FIRST: LeafAt := LeafAt(0x7f_c000_0000, Size1G, 0x4000_0000)
  const SECOND: LeafAt := LeafAt(0x80_0000_0000, Size1G, 0)

  /** The first leaf links a level-3 table and stands in its last entry. */
  lemma {:induction false} FirstWalk(c: Config<bv64, LeafFlags>, s: Store<bv64>, leaf: bv64)
    requires c.geo == X86_48 && c.codec == X86Entries.CODEC && c.grants == Oversized
    requires s.words == map[0x1000 := seq(512, _ => 0)] && s.tick == 1
    ensures var (s1, r) := MapWalk(c, s, 0x1000, 4, 3, FIRST.start, leaf);
            && r == Ok(()) && s1.tick == 2 && s1.words.Keys == {0x1000, 0x2000}
            && |s1.words[0x1000]| == 512 && s1.words[0x1000][1] == 0
  {
    hide StepDown;
    hide Geometry.IndexAt;
    hide Geometry.Span;
    hide Geometry.EntriesPerTable;
    Spans();
    Indices();
    AbsentAsks(c, s, 0x1000, 4, FIRST.start);
    var (s1, r1) := StepDown(c, s, 0x1000, 4, FIRST.start);
    assert c.grants(s.words.Keys, 1) == Granted(0x2000, 0x1000);
    assert r1 == Ok(0x2000) && s1.words[0x2000] == seq(512, _ => 0) && s1.tick == 2;
    assert s1.words[0x1000][1] == 0 && s1.words.Keys == {0x1000, 0x2000};
    WalkStepsDown(c, s, 0x1000, 4, 3, FIRST.start, leaf);
    X86Entries.ZeroIsAbsent();
  }

  /** The second leaf needs another level-3 table, and is handed a range of the wrong size. */
  lemma {:induction false} SecondWalk(c: Config<bv64, LeafFlags>, s: Store<bv64>, leaf: bv64)
    requires c.geo == X86_48 && c.codec == X86Entries.CODEC && c.grants == Oversized
    requires s.words.Keys == {0x1000, 0x2000} && s.tick == 2
    requires |s.words[0x1000]| == 512 && s.words[0x1000][1] == 0
    ensures var (s1, r) := MapWalk(c, s, 0x1000, 4, 3, SECOND.start, leaf);
            r == Err(NotAligned) && s1.words == s.words
  {
    hide StepDown;
    hide Geometry.IndexAt;
    hide Geometry.Span;
    Spans();
    Indices();
    AbsentAsks(c, s, 0x1000, 4, SECOND.start);
    assert c.grants(s.words.Keys, 2) == Granted(0x1_0000, 0x2000);
    WalkStepsDown(c, s, 0x1000, 4, 3, SECOND.start, leaf);
  }

  lemma {:induction false} GibibyteLevel()
    ensures X86_48.LevelOfSize(Size1G) == Some(3)
  {
    Lawful4K(X86_48);
    LeafLevels4K(X86_48, 3, Size1G);
    LevelOfSizeIs(X86_48, Size1G, 3);
  }

  /** The request passes its checks, aligned as it is. */
  lemma {:induction false} AcrossIsTakenUp()
    ensures RequestCheck(X86_48, ACROSS, ManyExtents(HALVES), BY_GIBIBYTES) == Ok(Request(ACROSS, HALVES, Some(Size1G)))
    ensures Size1G.IsAligned(ACROSS.start)
  {
    hide Geometry.LevelOfSize;
    GibibyteLevel();
    assert SegmentOk(HALVES[0], Size1G) && SegmentOk(HALVES[1], Size1G);
    assert SegOffset(HALVES, 1) == 0x4000_0000;
    assert SegOffset(HALVES, 2) == 0x8000_0000;
  }

  /** Its leaves pass theirs. */
  lemma {:induction false} AcrossLeaves()
    ensures var q := Request(ACROSS, HALVES, Some(Size1G));
            NextLeaf(X86_48, q, 0) == Ok(FIRST) && NextLeaf(X86_48, q, 0x4000_0000) == Ok(SECOND)
    ensures LeafCheck(X86_48, FIRST.Range(), FIRST.paddr) == Ok((Size1G, 3))
    ensures LeafCheck(X86_48, SECOND.Range(), SECOND.paddr) == Ok((Size1G, 3))
  {
    hide Geometry.LevelOfSize;
    hide Geometry.VaddrIsValid;
    hide Geometry.PaddrIsValid;
    GibibyteLevel();
    HighAddressIsValid(FIRST.start);
    HighAddressIsValid(FIRST.start + 0x3fff_ffff);
    HighAddressIsValid(FIRST.paddr);
    HighAddressIsValid(SECOND.start);
    HighAddressIsValid(SECOND.start + 0x3fff_ffff);
    HighAddressIsValid(SECOND.paddr);
    assert TargetFrom(HALVES, 1, 0) == Some(0);
  }

  /** An aligned request for two gibibytes: the first is mapped, the allocator hands out a
      range of the wrong size for the table that the second needs, and the answer is that
      something is not aligned. The first leaf and its table stay. */
  lemma {:induction false} HalfDoneRequest() returns (c: Config<bv64, LeafFlags>, s: Store<bv64>, s1: Store<bv64>)
    ensures ConfigOk(c) && Sound(c, s, map[Root := Table(0x1000)], 0x1000, map[], iset{})
    ensures c.geo == X86_48 && Size1G.IsAligned(ACROSS.start)
    ensures RequestCheck(c.geo, ACROSS, ManyExtents(HALVES), BY_GIBIBYTES).Ok?
    ensures MapStep(c, s, 0x1000, ACROSS, ManyExtents(HALVES), BY_GIBIBYTES) == (s1, Err(NotAligned), [FIRST])
    ensures s1.words != s.words
  {
    hide ConfigOk;
    hide Sound;
    hide MapWalk;
    hide RequestCheck;
    hide LeafCheck;
    hide NextLeaf;
    hide X86Entries.NewLeaf;
    c := Config(X86_48, X86Entries.CODEC, Oversized, count => count > 32);
    OversizedIsOk(c);
    X86ConfigOk(c);
    s := FirstRoot(c);
    AcrossIsTakenUp();
    AcrossLeaves();
    var leaf := X86Entries.NewLeaf(FIRST.paddr, READABLE, Size1G);
    FirstWalk(c, s, leaf);
    var mid := MapWalk(c, s, 0x1000, 4, 3, FIRST.start, leaf).0;
    SecondWalk(c, mid, X86Entries.NewLeaf(SECOND.paddr, READABLE, Size1G));
    s1 := MapWalk(c, mid, 0x1000, 4, 3, SECOND.start, X86Entries.NewLeaf(SECOND.paddr, READABLE, Size1G)).0;
    var q := Request(ACROSS, HALVES, Some(Size1G));
    assert RunRequest(c, mid, 0x1000, q, READABLE, 0x4000_0000) == (s1, Err(NotAligned), []);
    assert RunRequest(c, s, 0x1000, q, READABLE, 0) == (s1, Err(NotAligned), [FIRST] + []);
    assert 0x2000 in s1.words && 0x2000 !in s.words;
    assert [FIRST] + [] == [FIRST];
  }

  /** Sixteen kibibytes from one extent, page by page. */
  const FOUR_PAGES: AddrRange := AddrRange(0, 0x4000)
  const ONE_PIECE: MapBacking := OneExtent(AddrRange(0x10_0000, 0x10_4000))

  lemma {:induction false} FourPagesAnswerable(flags: LeafFlags)
    ensures Answerable(X86_48, FOUR_PAGES, ONE_PIECE, MappingFlags(flags, Scattered(Size4K)))
  {
    hide Geometry.VaddrIsValid;
    hide Pow2;
    Lawful4K(X86_48);
    LeafLevels4K(X86_48, 1, Size4K);
    assert X86_48.LevelSupportsLeaf(1, Size4K);
    forall v: nat | FOUR_PAGES.Contains(v) ensures X86_48.VaddrIsValid(v) {
      LowAddressIsValid(v);
    }
    LowAddressIsValid(0x10_4000);
    var ranges := ExtentsOf(ONE_PIECE);
    assert SegOffset(ranges, 1) == SegOffset(ranges, 0) + 0x4000;
  }

  /** An extent of several granules is taken up: on a tight tree with nothing mapped there, the
      call succeeds with four leaves. */
  lemma {:induction false} FourPages(
      c: Config<bv64, LeafFlags>, root: nat, s0: Store<bv64>, view0: View<LeafFlags>, s1: Store<bv64>,
      view1: View<LeafFlags>, flags: LeafFlags, r: Result<()>, leaves: seq<LeafAt>)
    requires ConfigOk(c) && c.geo == X86_48 && Tight(view0) && Generous(c)
    requires MapDone(c, root, s0, view0, s1, view1, FOUR_PAGES, ONE_PIECE, MappingFlags(flags, Scattered(Size4K)),
                     r, leaves)
    requires forall v: nat | v < 0x4000 :: Xlate(c, s0.words, root, v) == None
    ensures r == Ok(()) && |leaves| == 4
    ensures forall v: nat | v < 0x4000 ::
              Xlate(c, s1.words, root, v) == Some(Hit(0x10_0000 + v, c.codec.Norm(flags)))
  {
    hide ConfigOk;
    hide Tight;
    hide Generous;
    hide MapDone;
    hide Xlate;
    hide Answerable;
    FourPagesAnswerable(flags);
    CallSucceeds(c, root, s0, view0, s1, view1, FOUR_PAGES, ONE_PIECE, MappingFlags(flags, Scattered(Size4K)),
                 r, leaves);
    forall v: nat | v < 0x4000
      ensures Xlate(c, s1.words, root, v) == Some(Hit(0x10_0000 + v, c.codec.Norm(flags)))
    {
      assert FOUR_PAGES.Contains(v);
      OneTarget(AddrRange(0x10_0000, 0x10_4000), v);
    }
  }
}
