/** Whole runs of a page table: any operations in any order, from creation to drop. */
module Lifetimes {
  import opened Basics
  import opened PageSizes
  import opened Geometries
  import opened Entries
  import opened Memory
  import opened Trie
  import opened Translation
  import opened Tlb
  import opened Histories
  import opened MapWalks
  import opened Queries
  import opened Pruning
  import opened Splitting
  import opened Tightness
  import opened Requests
  import opened Plans
  import opened Runs
  import opened LeafEdits
  import opened BlockEdits
  import opened Exactness
  import opened BlockExactness
  import opened Walker
  import opened Cursor
  import opened TakeUp
  import opened PageTable

  /** One call of the public interface. */
  datatype Op<+F> =
    | DoQuery(vaddr: nat)
    | DoMap(range: AddrRange, backing: MapBacking, flags: MappingFlags<F>)
    | DoRemap(range: AddrRange, paddr: nat, leaf: F)
    | DoProtect(range: AddrRange, leaf: F)
    | DoUnmap(range: AddrRange)
    | DoSplit(range: AddrRange)
    | DoMerge(range: AddrRange)

  /** What a successful call returns. */
  datatype Reply<+F> = Done | Found(mapping: Mapping<F>) | Sized(size: PageSize)

  function DoneReply<F>(r: Result<()>): Result<Reply<F>> {
    match r
    case Ok(_) => Ok(Done)
    case Err(e) => Err(e)
  }

  function FoundReply<F>(r: Result<Mapping<F>>): Result<Reply<F>> {
    match r
    case Ok(mapping) => Ok(Found(mapping))
    case Err(e) => Err(e)
  }

  function SizedReply<F>(r: Result<PageSize>): Result<Reply<F>> {
    match r
    case Ok(size) => Ok(Sized(size))
    case Err(e) => Err(e)
  }

  /** Ranges have representable ends and flags are ones a leaf can carry. */
  ghost predicate OpOk<W(!new), F(!new)>(c: Config<W, F>, op: Op<F>) {
    match op
    case DoQuery(_) => true
    case DoMap(range, backing, flags) => range.Valid() && BackingValid(backing) && c.codec.encodable(flags.leaf)
    case DoRemap(_, _, leaf) => c.codec.encodable(leaf)
    case DoProtect(_, leaf) => c.codec.encodable(leaf)
    case DoUnmap(_) => true
    case DoSplit(_) => true
    case DoMerge(range) => range.Valid()
  }

  /** A current translation is all that any TLB may hold for a clean address. */
  lemma {:induction false} TlbIsCoherent<W(!new), F(!new)>(
      c: Config<W, F>, s: Store<W>, view: View<F>, root: nat, foreign: map<nat, seq<W>>, dirty: iset<nat>,
      tlbs: seq<iset<(nat, Hit<F>)>>, v: nat, h: Hit<F>)
    requires Sound(c, s, view, root, foreign, dirty) && TlbRun(c, root, s.log, tlbs)
    requires c.geo.VaddrIsValid(v) && v !in dirty && (v, h) in tlbs[|s.log|]
    ensures Xlate(c, s.words, root, v) == Some(h)
  {
    hide Xlate;
    hide Represents;
    hide TlbRun;
    MayHoldBoundsTlbs(c, root, s.log, tlbs, v, h);
    assert CleanAt(c, root, s.log, v);
  }

  /** However the hardware fills its TLB, what it holds for a valid address is current. */
  ghost predicate Coherent<W(!new), F(!new)>(c: Config<W, F>, root: nat, s: Store<W>) {
    forall tlbs: seq<iset<(nat, Hit<F>)>>, v: nat, h: Hit<F> |
      |tlbs| == |s.log| + 1 && TlbRun(c, root, s.log, tlbs) ::
      c.geo.VaddrIsValid(v) && (v, h) in tlbs[|s.log|] ==> Xlate(c, s.words, root, v) == Some(h)
  }

  lemma {:induction false} CleanIsCoherent<W(!new), F(!new)>(
      c: Config<W, F>, s: Store<W>, view: View<F>, root: nat, foreign: map<nat, seq<W>>)
    requires Sound(c, s, view, root, foreign, iset{})
    ensures Coherent(c, root, s)
  {
    hide Sound;
    hide TlbRun;
    hide Xlate;
    forall tlbs: seq<iset<(nat, Hit<F>)>>, v: nat, h: Hit<F> |
      |tlbs| == |s.log| + 1 && TlbRun(c, root, s.log, tlbs)
      ensures c.geo.VaddrIsValid(v) && (v, h) in tlbs[|s.log|] ==> Xlate(c, s.words, root, v) == Some(h)
    {
      if c.geo.VaddrIsValid(v) && (v, h) in tlbs[|s.log|] {
        TlbIsCoherent(c, s, view, root, foreign, iset{}, tlbs, v, h);
      }
    }
  }

  /** Splitting keeps the tree tight. */
  lemma {:induction false} SplitKeepsTight<W(!new), F(!new)>(
      c: Config<W, F>, s: Store<W>, view: View<F>, range: AddrRange, level: nat, after: View<F>, r: Result<PageSize>)
    requires level >= 2 && Tight(view) && SplitOutcome(c, s, view, range, level, after, r)
    requires r.Err? ==> after == view
    ensures Tight(after)
  {
    hide SplitView;
    hide Tight;
    if r.Ok? {
      var p := c.geo.PathOf(range.start, level - 1);
      var (_, grant) := s.Alloc(c);
      TightAfterSplit(view, p, grant.value, view[p].paddr, view[p].flags,
                      c.geo.Span(level - 1), c.geo.EntriesPerTable());
    }
  }

  function Erase<T>(r: Result<T>): Result<()> {
    match r
    case Ok(_) => Ok(())
    case Err(e) => Err(e)
  }

  /** The operation is a map whose leaf is refused a frame after it has been granted another:
      the only way to leave empty tables behind. */
  ghost predicate Strands<W, F>(c: Config<W, F>, s: Store<W>, root: nat, op: Op<F>) {
    && op.DoMap?
    && var check := RequestCheck(c.geo, op.range, op.backing, op.flags);
    && check.Ok?
    && var (_, r, leaves) := RunRequest(c, s, root, check.value, op.flags.leaf, 0);
    && r.Err?
    && Stranded(c, AfterLeaves(c, s, root, op.flags.leaf, leaves), root, check.value, op.flags.leaf, DoneBytes(leaves))
  }

  /** The state after an operation on `range` and the invalidation it takes, if any. */
  ghost function ThenFlushed<W, F>(c: Config<W, F>, stepped: Store<W>, flush: bool, range: AddrRange): Store<W> {
    stepped.Emit(if flush then LeafEmission(c, range) else [])
  }

  /** The machine state that an operation leads to, and what it answers. */
  ghost function OpStep<W, F>(c: Config<W, F>, s: Store<W>, root: nat, op: Op<F>): (Store<W>, Result<Reply<F>>) {
    match op
    case DoQuery(vaddr) => (s, FoundReply(QueryStep(c, s, root, vaddr)))
    case DoMap(range, backing, flags) =>
      var (s1, r) := MapCall(c, s, root, range, backing, flags);
      (s1, DoneReply(r))
    case DoRemap(range, paddr, leaf) =>
      var (s1, r) := RemapStep(c, s, root, range, paddr, leaf);
      (ThenFlushed(c, s1, r.Ok?, range), FoundReply(r))
    case DoProtect(range, leaf) =>
      var (s1, r) := ProtectStep(c, s, root, range, leaf);
      (ThenFlushed(c, s1, r.Ok?, range), FoundReply(r))
    case DoUnmap(range) =>
      var (s1, r) := UnmapStep(c, s, root, range);
      (ThenFlushed(c, s1, r.Ok?, range), FoundReply(r))
    case DoSplit(range) =>
      var (s1, r) := SplitStep(c, s, root, range);
      (ThenFlushed(c, s1, r.Ok?, range), SizedReply(r))
    case DoMerge(range) =>
      var (s1, r) := MergeStep(c, s, root, range);
      (ThenFlushed(c, s1, s1 != s, range), SizedReply(r))
  }

  /** Perform one operation. */
  method Apply<W(!new), F(!new, ==)>(pt: PageTableWalker<W, F>, op: Op<F>) returns (r: Result<Reply<F>>)
    requires pt.Valid() && pt.dirty == iset{} && OpOk(pt.c, op)
    modifies pt`view, pt`dirty, pt.mem
    ensures pt.Valid() && pt.dirty == iset{} && Coherent(pt.c, pt.root, pt.mem.Snapshot())
    ensures (pt.mem.Snapshot(), r) == OpStep(pt.c, old(pt.mem.Snapshot()), pt.root, op)
    ensures Tight(old(pt.view)) ==> (Tight(pt.view) <==> !Strands(pt.c, old(pt.mem.Snapshot()), pt.root, op))
  {
    hide Lawful;
    hide AllocatorOk;
    hide Sound;
    hide MapDone;
    hide LeavesChosen;
    hide Answerable;
    hide MapStep;
    hide RunRequest;
    hide Tight;
    hide Coherent;
    hide OneChange;
    hide AgreeOutside;
    hide MapsTo;
    hide MapsNothing;
    hide Pruned;
    ghost var c, view, s := pt.c, pt.view, pt.mem.Snapshot();
    match op {
      case DoQuery(v) =>
        var q := pt.Query(v);
        r := FoundReply(q);
      case DoMap(range, backing, flags) =>
        var m, leaves := Map(pt, range, backing, flags);
        r := DoneReply(m);
        MapTight(c, pt.root, s, view, pt.mem.Snapshot(), pt.view, range, backing, flags, m, leaves);
      case _ =>
        r := ApplyExact(pt, op);
    }
    CleanIsCoherent(c, pt.mem.Snapshot(), pt.view, pt.root, pt.foreign);
  }

  /** A map call loses tightness exactly by stranding a table. */
  lemma {:induction false} MapTight<W(!new), F(!new)>(
      c: Config<W, F>, root: nat, s0: Store<W>, view0: View<F>, s1: Store<W>, view1: View<F>,
      range: AddrRange, backing: MapBacking, flags: MappingFlags<F>, r: Result<()>, leaves: seq<LeafAt>)
    requires MapDone(c, root, s0, view0, s1, view1, range, backing, flags, r, leaves)
    ensures (s1, r) == MapCall(c, s0, root, range, backing, flags)
    ensures Tight(view0) ==> (Tight(view1) <==> !Strands(c, s0, root, DoMap(range, backing, flags)))
  {
    hide RunRequest;
    hide RequestCheck;
    hide AfterLeaves;
    hide Stranded;
    hide StopsAt;
    hide FailsChecks;
    hide Mapped;
    hide Tight;
    hide Occupied;
    hide NoChange;
  }

  /** Perform an operation on an existing leaf; none of them strands a table. */
  method ApplyExact<W(!new), F(!new, ==)>(pt: PageTableWalker<W, F>, op: Op<F>) returns (r: Result<Reply<F>>)
    requires pt.Valid() && pt.dirty == iset{} && OpOk(pt.c, op) && !op.DoQuery? && !op.DoMap?
    modifies pt`view, pt`dirty, pt.mem
    ensures pt.Valid() && pt.dirty == iset{}
    ensures (pt.mem.Snapshot(), r) == OpStep(pt.c, old(pt.mem.Snapshot()), pt.root, op)
    ensures Tight(old(pt.view)) ==> Tight(pt.view)
  {
    hide ConfigOk;
    hide Sound;
    hide Tight;
    hide OneChange;
    hide NoChange;
    hide AgreeOutside;
    hide MapsTo;
    hide MapsNothing;
    hide Pruned;
    hide AddressesOf;
    hide ExactLevel;
    hide Geometry.PathOf;
    hide RemapStep;
    hide ProtectStep;
    hide UnmapStep;
    hide LeafEmission;
    hide SplitStep;
    hide MergeStep;
    ghost var c, view, s := pt.c, pt.view, pt.mem.Snapshot();
    match op {
      case DoRemap(range, paddr, leaf) =>
        var m := pt.Remap(range, paddr, leaf);
        r := FoundReply(m);
        ReplaceKeepsTight(c, view, range, Leaf(paddr, c.codec.Norm(leaf)));
      case DoProtect(range, leaf) =>
        var m := pt.Protect(range, leaf);
        r := FoundReply(m);
        if m.Ok? {
          ReplaceKeepsTight(c, view, range, Leaf(m.value.paddr, c.codec.Norm(leaf)));
        }
      case DoUnmap(range) =>
        var m := pt.Unmap(range);
        r := FoundReply(m);
        UnmapKeepsTight(c, view, range);
      case DoSplit(range) =>
        r := ApplySplit(pt, range);
      case DoMerge(range) =>
        r := ApplyMerge(pt, range);
    }
    assert pt.dirty == iset{};
  }

  method ApplySplit<W(!new), F(!new, ==)>(pt: PageTableWalker<W, F>, range: AddrRange)
      returns (r: Result<Reply<F>>)
    requires pt.Valid() && pt.dirty == iset{}
    modifies pt`view, pt`dirty, pt.mem
    ensures pt.Valid() && pt.dirty == iset{}
    ensures NoChange(pt.c, pt.root, old(pt.mem.Snapshot()), pt.mem.Snapshot())
    ensures (pt.mem.Snapshot(), r) == OpStep(pt.c, old(pt.mem.Snapshot()), pt.root, DoSplit(range))
    ensures Tight(old(pt.view)) ==> Tight(pt.view)
  {
    hide QueryResult;
    hide HoldsLeaf;
    hide PieceAround;
    hide Store.Alloc;
    hide ConfigOk;
    hide Sound;
    hide Tight;
    hide NoChange;
    hide SplitOutcome;
    hide AddressesOf;
    hide SplitStep;
    hide LeafEmission;
    ghost var c, view, s := pt.c, pt.view, pt.mem.Snapshot();
    var size := pt.SplitAt(range);
    r := SizedReply(size);
    if Tight(view) && ExactLevel(c.geo, view, range).Ok? && ExactLevel(c.geo, view, range).value >= 2 {
      SplitKeepsTight(c, s, view, range, ExactLevel(c.geo, view, range).value, pt.view, size);
    }
    assert pt.dirty == iset{};
  }

  method ApplyMerge<W(!new), F(!new, ==)>(pt: PageTableWalker<W, F>, range: AddrRange)
      returns (r: Result<Reply<F>>)
    requires pt.Valid() && pt.dirty == iset{} && range.Valid()
    modifies pt`view, pt`dirty, pt.mem
    ensures pt.Valid() && pt.dirty == iset{}
    ensures NoChange(pt.c, pt.root, old(pt.mem.Snapshot()), pt.mem.Snapshot())
    ensures (pt.mem.Snapshot(), r) == OpStep(pt.c, old(pt.mem.Snapshot()), pt.root, DoMerge(range))
    ensures Tight(old(pt.view)) ==> Tight(pt.view)
  {
    hide QueryResult;
    hide HoldsLeaf;
    hide AnswersInPieces;
    hide IsBlock;
    hide Represents;
    hide TreeOk;
    hide ConfigOk;
    hide Sound;
    hide Tight;
    hide NoChange;
    hide MergeView;
    hide MergeAnswer;
    hide MergeSite;
    hide MergeHappens;
    hide AddressesOf;
    hide MergeStep;
    hide LeafEmission;
    hide Lawful;
    hide AddrRange.Valid;
    ghost var c, view := pt.c, pt.view;
    SoundTree(c, pt.mem.Snapshot(), view, pt.root, pt.foreign, pt.dirty);
    var size := pt.MergeAt(range);
    r := SizedReply(size);
    if Tight(view) {
      MergeKeepsTight(c, view, pt.root, range);
    }
    assert pt.dirty == iset{};
  }

  lemma {:induction false} ReplaceKeepsTight<W(!new), F(!new)>(
      c: Config<W, F>, view: View<F>, range: AddrRange, leaf: Slot<F>)
    requires leaf.Leaf?
    ensures Tight(view) && ExactLevel(c.geo, view, range).Ok? ==>
              Tight(view[c.geo.PathOf(range.start, ExactLevel(c.geo, view, range).value - 1) := leaf])
  {
    hide Tight;
    if Tight(view) && ExactLevel(c.geo, view, range).Ok? {
      TightAfterReplace(view, c.geo.PathOf(range.start, ExactLevel(c.geo, view, range).value - 1), leaf);
    }
  }

  lemma {:induction false} UnmapKeepsTight<W(!new), F(!new)>(c: Config<W, F>, view: View<F>, range: AddrRange)
    ensures Tight(view) && ExactLevel(c.geo, view, range).Ok? ==>
              var l := ExactLevel(c.geo, view, range).value;
              Tight(Pruned(c.geo, view - {c.geo.PathOf(range.start, l - 1)}, range.start, l))
  {
    hide Tight;
    hide Pruned;
    if Tight(view) && ExactLevel(c.geo, view, range).Ok? {
      TightAfterUnmap(c.geo, view, range.start, ExactLevel(c.geo, view, range).value);
    }
  }

  lemma {:induction false} MergeKeepsTight<W(!new), F(!new)>(
      c: Config<W, F>, view: View<F>, root: nat, range: AddrRange)
    requires TreeOk(c, view, root) && Tight(view)
    ensures MergeHappens(c.geo, view, range) ==>
              var p := c.geo.PathOf(range.start, MergeSite(c.geo, view, range).value - 1);
              Tight(MergeView(view, p, view[Step(p, 0)].paddr, view[Step(p, 0)].flags, c.geo.EntriesPerTable()))
  {
    hide TreeOk;
    hide Tight;
    hide MergeView;
    hide Mergeable;
    hide MergeSite;
    if MergeHappens(c.geo, view, range) {
      var level := MergeSite(c.geo, view, range).value;
      TightAfterMerge(c, view, root, c.geo.PathOf(range.start, level - 1), level);
    }
  }

  /** Any sequence of operations, successful or not: its states and answers are exactly those
      the operations lead to, in each of them every possible TLB is coherent, and the tree
      stays tight unless some map strands a table. */
  method Run<W(!new), F(!new, ==)>(pt: PageTableWalker<W, F>, ops: seq<Op<F>>)
      returns (results: seq<Result<Reply<F>>>, ghost trace: seq<Store<W>>)
    requires pt.Valid() && pt.dirty == iset{} && forall i | 0 <= i < |ops| :: OpOk(pt.c, ops[i])
    modifies pt`view, pt`dirty, pt.mem
    ensures pt.Valid() && pt.dirty == iset{}
    ensures |results| == |ops| && |trace| == |ops| + 1
    ensures trace[0] == old(pt.mem.Snapshot()) && trace[|ops|] == pt.mem.Snapshot()
    ensures forall i | 0 <= i < |ops| :: (trace[i + 1], results[i]) == OpStep(pt.c, trace[i], pt.root, ops[i])
    ensures forall i | 0 <= i <= |ops| :: Coherent(pt.c, pt.root, trace[i])
    ensures Tight(old(pt.view)) && (forall i | 0 <= i < |ops| :: !Strands(pt.c, trace[i], pt.root, ops[i])) ==>
              Tight(pt.view)
  {
    hide Lawful;
    hide AllocatorOk;
    hide Sound;
    hide Tight;
    hide Coherent;
    hide OpStep;
    hide Strands;
    results, trace := [], [pt.mem.Snapshot()];
    CleanIsCoherent(pt.c, pt.mem.Snapshot(), pt.view, pt.root, pt.foreign);
    for n := 0 to |ops|
      invariant pt.Valid() && pt.dirty == iset{}
      invariant |results| == n && |trace| == n + 1
      invariant trace[0] == old(pt.mem.Snapshot()) && trace[n] == pt.mem.Snapshot()
      invariant forall i | 0 <= i < n :: (trace[i + 1], results[i]) == OpStep(pt.c, trace[i], pt.root, ops[i])
      invariant forall i | 0 <= i <= n :: Coherent(pt.c, pt.root, trace[i])
      invariant Tight(old(pt.view)) && (forall i | 0 <= i < n :: !Strands(pt.c, trace[i], pt.root, ops[i])) ==>
                  Tight(pt.view)
    {
      ghost var past, before := trace, results;
      var r := Apply(pt, ops[n]);
      results, trace := results + [r], trace + [pt.mem.Snapshot()];
      assert forall i | 0 <= i <= n :: trace[i] == past[i];
      assert forall i | 0 <= i < n :: results[i] == before[i];
    }
  }

  /** Create a table, use it in any way, drop it: memory is as it was before. */
  method Lifetime<W(!new), F(!new, ==)>(c: Config<W, F>, mem: Machine<W>, ops: seq<Op<F>>) returns (r: Result<()>)
    requires ConfigOk(c) && HistoryOk(mem.Snapshot()) && forall i | 0 <= i < |ops| :: OpOk(c, ops[i])
    requires var (_, grant) := mem.Snapshot().Alloc(c); grant.Ok? ==> Unheld(c, grant.value, mem.log)
    modifies mem
    ensures r == Erase(old(mem.Snapshot()).Alloc(c).1)
    ensures mem.words == old(mem.words) && HistoryOk(mem.Snapshot())
  {
    hide Lawful;
    hide AllocatorOk;
    hide Sound;
    hide Tight;
    hide Unheld;
    var created := PageTableWalker.TryNew(c, mem);
    if created.Err? {
      return Err(created.error);
    }
    var pt := created.value;
    var _, _ := Run(pt, ops);
    pt.Drop();
    return Ok(());
  }

  /** One table after another on the same machine, the TLB being flushed in between. */
  method TwoLifetimes<W(!new), F(!new, ==)>(c: Config<W, F>, mem: Machine<W>, first: seq<Op<F>>, second: seq<Op<F>>)
    requires ConfigOk(c) && HistoryOk(mem.Snapshot())
    requires forall i | 0 <= i < |first| :: OpOk(c, first[i])
    requires forall i | 0 <= i < |second| :: OpOk(c, second[i])
    requires var (_, grant) := mem.Snapshot().Alloc(c); grant.Ok? ==> Unheld(c, grant.value, mem.log)
    modifies mem
    ensures mem.words == old(mem.words) && HistoryOk(mem.Snapshot())
  {
    hide ConfigOk;
    hide Unheld;
    var _ := Lifetime(c, mem, first);
    ghost var log := mem.log;
    mem.FlushTlbAllLocal();
    NextIsUnheld(c, mem.Snapshot(), log);
    var _ := Lifetime(c, mem, second);
  }

  lemma {:induction false} NextIsUnheld<W(!new), F(!new)>(c: Config<W, F>, s: Store<W>, log: seq<Event<W>>)
    requires ConfigOk(c) && log != [] && log[0].Wrote? && Current(log) == s.words && s.log == log + [FlushedAll]
    ensures HistoryOk(s)
    ensures var (_, grant) := s.Alloc(c); grant.Ok? ==> Unheld(c, grant.value, s.log)
  {
    hide ConfigOk;
    hide Unheld;
    LastOf(log, FlushedAll);
    AllocStep(c, s);
    var (_, grant) := s.Alloc(c);
    if grant.Ok? {
      UnheldAfterFlush(c, grant.value, log);
    }
  }

  /** One call of a cursor. */
  datatype CursorCall<+F> =
    | CallMap(range: AddrRange, paddr: nat, flags: F)
    | CallUnmap(range: AddrRange)
    | CallProtect(range: AddrRange, flags: F)
    | CallRemap(range: AddrRange, paddr: nat, flags: F)

  ghost predicate CallOk<W, F>(c: Config<W, F>, call: CursorCall<F>) {
    match call
    case CallMap(range, _, flags) => range.Valid() && c.codec.encodable(flags)
    case CallUnmap(_) => true
    case CallProtect(_, flags) => c.codec.encodable(flags)
    case CallRemap(_, _, flags) => c.codec.encodable(flags)
  }

  /** What a call returns: for a map nothing but its success. */
  function Answer<F>(r: Result<Mapping<F>>): Result<Option<Mapping<F>>> {
    match r
    case Ok(mapping) => Ok(Some(mapping))
    case Err(e) => Err(e)
  }

  function MapAnswer<F>(r: Result<()>): Result<Option<Mapping<F>>> {
    match r
    case Ok(_) => Ok(None)
    case Err(e) => Err(e)
  }

  /** A call that walks from the root. */
  ghost function UncachedStep<W, F>(c: Config<W, F>, s: Store<W>, root: nat, call: CursorCall<F>)
      : (Store<W>, Result<Option<Mapping<F>>>)
  {
    match call
    case CallMap(range, paddr, flags) =>
      var (s1, r) := MapLeafStep(c, s, root, range, paddr, flags);
      (s1, MapAnswer(r))
    case CallUnmap(range) =>
      var (s1, r) := UnmapStep(c, s, root, range);
      (s1, Answer(r))
    case CallProtect(range, flags) =>
      var (s1, r) := ProtectStep(c, s, root, range, flags);
      (s1, Answer(r))
    case CallRemap(range, paddr, flags) =>
      var (s1, r) := RemapStep(c, s, root, range, paddr, flags);
      (s1, Answer(r))
  }

  /** A sequence of calls, each walking from the root. */
  ghost function UncachedRun<W, F>(c: Config<W, F>, s: Store<W>, root: nat, calls: seq<CursorCall<F>>)
      : (Store<W>, seq<Result<Option<Mapping<F>>>>)
  {
    if calls == [] then (s, [])
    else
      var (s1, results) := UncachedRun(c, s, root, calls[..|calls| - 1]);
      var (s2, r) := UncachedStep(c, s1, root, calls[|calls| - 1]);
      (s2, results + [r])
  }

  /** The calls that, failing, make a cursor forget its cached descent: every unmap, and maps
      of a leaf that passes its checks. */
  ghost predicate Forgets<W, F>(c: Config<W, F>, call: CursorCall<F>) {
    call.CallUnmap? || (call.CallMap? && LeafCheck(c.geo, call.range, call.paddr).Ok?)
  }

  /** One call through a cursor. */
  method CachedStep<W(!new), F(!new, ==)>(cursor: PageTableCursor<W, F>, call: CursorCall<F>)
      returns (r: Result<Option<Mapping<F>>>)
    requires cursor.Valid() && CallOk(cursor.pt.c, call)
    modifies cursor`lastVaddr, cursor`pending, cursor`needsFullFlush, cursor`queued, cursor.descent
    modifies cursor.pt`view, cursor.pt`dirty, cursor.pt.mem
    ensures cursor.Valid()
    ensures (cursor.pt.mem.Snapshot(), r) ==
            UncachedStep(cursor.pt.c, old(cursor.pt.mem.Snapshot()), cursor.pt.root, call)
    ensures r.Err? ==> (cursor.lastVaddr == None <==> old(cursor.lastVaddr) == None || Forgets(cursor.pt.c, call))
  {
    hide Lawful;
    hide AllocatorOk;
    hide Sound;
    hide MapLeafStep;
    hide UnmapStep;
    hide ProtectStep;
    hide RemapStep;
    hide LeafRemoved;
    hide LeafReplaced;
    hide AddressesOf;
    hide LeafCheck;
    match call {
      case CallMap(range, paddr, flags) =>
        ghost var pt, s, view, dirty := cursor.pt, cursor.pt.mem.Snapshot(), cursor.pt.view, cursor.pt.dirty;
        var m := cursor.MapLeaf(range, paddr, flags);
        StepOfEffect(pt.c, pt.root, pt.foreign, dirty, range, paddr, flags, s, view, pt.mem.Snapshot(), pt.view, m);
        r := MapAnswer(m);
      case CallUnmap(range) =>
        var m := cursor.Unmap(range);
        r := Answer(m);
      case CallProtect(range, flags) =>
        var m := cursor.Protect(range, flags);
        r := Answer(m);
      case CallRemap(range, paddr, flags) =>
        var m := cursor.Remap(range, paddr, flags);
        r := Answer(m);
    }
  }

  const NOWHERE: AddrRange := AddrRange(0, 0)

  /** Failures that keep the cached descent, whatever it is: changing the flags of, retargeting
      and mapping the empty range. */
  method AskForNowhere<W(!new), F(!new, ==)>(cursor: PageTableCursor<W, F>, flags: F)
      returns (protected: Result<Mapping<F>>, remapped: Result<Mapping<F>>, mapped: Result<()>)
    requires cursor.Valid() && cursor.pt.c.codec.encodable(flags)
    modifies cursor`lastVaddr, cursor`pending, cursor`needsFullFlush, cursor`queued, cursor.descent
    modifies cursor.pt`view, cursor.pt`dirty, cursor.pt.mem
    ensures protected.Err? && remapped.Err? && mapped == Err(UnsupportedSize)
    ensures cursor.Valid() && cursor.lastVaddr == old(cursor.lastVaddr)
    ensures cursor.descent[..] == old(cursor.descent[..])
  {
    hide ConfigOk;
    hide Sound;
    hide ExactLevel;
    hide LeafReplaced;
    hide LeafCheck;
    hide LeafEffect;
    hide ProtectStep;
    hide RemapStep;
    hide AddressesOf;
    hide PageTableCursor.Valid;
    ghost var pt, s, view, dirty := cursor.pt, cursor.pt.mem.Snapshot(), cursor.pt.view, cursor.pt.dirty;
    cursor.ConfigOfValid();
    NowhereIsNoLeaf(pt.c, s, view, pt.root, pt.foreign, dirty);
    protected := cursor.Protect(NOWHERE, flags);
    remapped := cursor.Remap(NOWHERE, 0, flags);
    mapped := cursor.MapLeaf(NOWHERE, 0, flags);
    StepOfEffect(pt.c, pt.root, pt.foreign, dirty, NOWHERE, 0, flags, s, view, pt.mem.Snapshot(), pt.view, mapped);
  }

  lemma {:induction false} NowhereIsNoLeaf<W(!new), F(!new)>(
      c: Config<W, F>, s: Store<W>, view: View<F>, root: nat, foreign: map<nat, seq<W>>, dirty: iset<nat>)
    requires ConfigOk(c) && Sound(c, s, view, root, foreign, dirty)
    ensures ExactLevel(c.geo, view, NOWHERE).Err?
    ensures forall paddr :: LeafCheck(c.geo, NOWHERE, paddr) == Err(UnsupportedSize)
  {
    hide ConfigOk;
    hide Sound;
    hide ExactLevel;
    if ExactLevel(c.geo, view, NOWHERE).Ok? {
      ExactBlock(c, s, view, root, NOWHERE, foreign, dirty);
    }
  }

  /** Whatever a cursor has cached, and whatever maps, unmaps, changes of flags and remaps
      come in whatever order, calls through it give the same results and leave the same
      frames, words, allocation count and history as calls that walk from the root. */
  method CachedRun<W(!new), F(!new, ==)>(cursor: PageTableCursor<W, F>, calls: seq<CursorCall<F>>)
      returns (results: seq<Result<Option<Mapping<F>>>>)
    requires cursor.Valid() && forall i | 0 <= i < |calls| :: CallOk(cursor.pt.c, calls[i])
    modifies cursor`lastVaddr, cursor`pending, cursor`needsFullFlush, cursor`queued, cursor.descent
    modifies cursor.pt`view, cursor.pt`dirty, cursor.pt.mem
    ensures cursor.Valid()
    ensures (cursor.pt.mem.Snapshot(), results) ==
            UncachedRun(cursor.pt.c, old(cursor.pt.mem.Snapshot()), cursor.pt.root, calls)
  {
    hide ConfigOk;
    hide Sound;
    hide UncachedStep;
    var pt := cursor.pt;
    results := [];
    for i := 0 to |calls|
      invariant cursor.Valid()
      invariant (pt.mem.Snapshot(), results) == UncachedRun(pt.c, old(pt.mem.Snapshot()), pt.root, calls[..i])
    {
      assert calls[..i + 1][..i] == calls[..i];
      var r := CachedStep(cursor, calls[i]);
      results := results + [r];
    }
    assert calls[..|calls|] == calls;
  }
}
