/** The page-table walker over frame memory. */
module Walker {
  import opened Basics
  import opened Power
  import opened PageSizes
  import opened Geometries
  import opened Blocks
  import opened Entries
  import opened Memory
  import opened Trie
  import opened Translation
  import opened Tlb
  import opened Histories
  import opened Steps
  import opened MapWalks
  import opened Queries
  import opened Exactness
  import opened BlockExactness
  import opened LeafEdits
  import opened BlockEdits
  import opened Pruning
  import opened Splitting
  import opened Teardown
  import opened Flushes

  /** Entry `k` of the parent stack is the table and index taken `k` steps below the root. */
  ghost predicate OnStack<F>(g: Geometry, view: View<F>, v: nat, entry: (nat, nat), k: nat) {
    && k <= g.levels
    && IsTable(view, g.PathOf(v, g.levels - k)) && view[g.PathOf(v, g.levels - k)].frame == entry.0
    && g.IndexAt(g.levels - k, v) == entry.1
  }

  /** The parent stack of a walk, from the root down. */
  ghost predicate StackOk<F>(g: Geometry, view: View<F>, v: nat, stack: seq<(nat, nat)>) {
    forall k: nat | k < |stack| :: OnStack(g, view, v, stack[k], k)
  }

  /** Removing a table leaves the stack entries above it alone. */
  lemma {:induction false} StackBelow<F>(g: Geometry, view: View<F>, v: nat, level: nat, stack: seq<(nat, nat)>)
    requires level < g.levels && |stack| == g.levels - level && StackOk(g, view, v, stack)
    ensures StackOk(g, view - {g.PathOf(v, level)}, v, stack[..|stack| - 1])
  {
    forall k: nat | k < |stack| - 1 ensures OnStack(g, view - {g.PathOf(v, level)}, v, stack[k], k) {
      assert OnStack(g, view, v, stack[k], k);
      assert LevelOf(g.PathOf(v, g.levels - k)) == k && LevelOf(g.PathOf(v, level)) == g.levels - level;
    }
  }

  /** The top of the stack is the table above the child, and the index that leads to it. */
  lemma {:induction false} StackTop<F>(g: Geometry, view: View<F>, v: nat, stack: seq<(nat, nat)>)
    requires 0 < |stack| <= g.levels && StackOk(g, view, v, stack)
    ensures var level, top := g.levels - |stack| + 1, stack[|stack| - 1];
            IsTable(view, g.PathOf(v, level)) && view[g.PathOf(v, level)].frame == top.0 && g.IndexAt(level, v) == top.1
  {
    assert OnStack(g, view, v, stack[|stack| - 1], |stack| - 1);
  }

  /** `r` answers the search for the leaf covering exactly `range`. */
  ghost predicate AnswersExact<W, F>(c: Config<W, F>, view: View<F>, range: AddrRange, r: Result<LeafSlot<W>>) {
    match ExactLevel(c.geo, view, range)
    case Err(e) => r == Err(e)
    case Ok(l) =>
      && r.Ok? && IsBlock(c.geo, range, l) && IsTable(view, c.geo.PathOf(range.start, l))
      && r.value.frame == view[c.geo.PathOf(range.start, l)].frame
      && r.value.index == c.geo.IndexAt(l, range.start)
      && c.codec.Decode(r.value.word, l) == view[c.geo.PathOf(range.start, l - 1)]
      && c.geo.LevelSupportsLeaf(l, r.value.size) && r.value.level == l
  }

  /** The last checks agree with the exact-leaf search. */
  lemma {:induction false} CheckExactMeaning<W(!new), F(!new)>(
      c: Config<W, F>, view: View<F>, root: nat, range: AddrRange, frame: nat, index: nat, word: W, level: nat)
    requires c.geo.Lawful() && TreeOk(c, view, root) && c.geo.VaddrIsValid(range.start)
    requires 1 <= level == LeafLevel(c.geo, view, range.start, c.geo.levels)
    requires IsTable(view, c.geo.PathOf(range.start, level)) && view[c.geo.PathOf(range.start, level)].frame == frame
    requires index == c.geo.IndexAt(level, range.start)
    requires c.codec.Decode(word, level) == view[c.geo.PathOf(range.start, level - 1)]
    ensures AnswersExact(c, view, range, CheckExact(c, range, frame, index, word, level))
    ensures CheckExact(c, range, frame, index, word, level).Ok? ==>
              ExactLevel(c.geo, view, range) == Ok(level)
              && CheckExact(c, range, frame, index, word, level).value.frame == frame
              && CheckExact(c, range, frame, index, word, level).value.index == index
  {
    hide TreeOk;
    hide Canonical;
    LeafBlock(c, view, root, range.start, level);
    c.geo.SizeIsSpan(level, c.geo.LeafSizeAtLevel(level).value);
  }

  /** Without a leaf on the walk there is no exact leaf. */
  lemma {:induction false} NoExactLeaf<F>(g: Geometry, view: View<F>, range: AddrRange)
    requires g.VaddrIsValid(range.start) && LeafLevel(g, view, range.start, g.levels) == 0
    ensures ExactLevel(g, view, range) == Err(NotMapped)
  {
  }

  lemma {:induction false} AnswerErr<W, F>(c: Config<W, F>, view: View<F>, range: AddrRange, e: PagingError)
    requires ExactLevel(c.geo, view, range) == Err(e)
    ensures AnswersExact(c, view, range, Err(e))
  {
  }

  lemma {:induction false} AnswerLevel<W, F>(c: Config<W, F>, view: View<F>, range: AddrRange, slot: LeafSlot<W>)
    requires AnswersExact(c, view, range, Ok(slot))
    ensures var p := c.geo.PathOf(range.start, slot.level - 1);
            1 <= slot.level <= c.geo.levels && IsLeaf(view, p) && IsBlock(c.geo, range, slot.level)
            && view[p] == Leaf(c.codec.paddr(slot.word), c.codec.flags(slot.word))
            && IsTable(view, c.geo.PathOf(range.start, slot.level))
            && slot.frame == view[c.geo.PathOf(range.start, slot.level)].frame
            && slot.index == c.geo.IndexAt(slot.level, range.start)
            && ExactLevel(c.geo, view, range) == Ok(slot.level)
  {
  }

  /** What unmapping returns, from the search for the leaf. */
  lemma {:induction false} UnmapAnswer<W, F>(c: Config<W, F>, view: View<F>, range: AddrRange, r: Result<LeafSlot<W>>)
    requires AnswersExact(c, view, range, r)
    ensures UnmapResult(c, view, range) ==
            match r
            case Err(e) => Err(e)
            case Ok(slot) => Ok(Mapping(range, c.codec.paddr(slot.word), c.codec.flags(slot.word)))
  {
  }

  lemma {:induction false} ChildEntries<W(!new), F(!new)>(
      c: Config<W, F>, m: map<nat, seq<W>>, view: View<F>, root: nat, p: Path, level: nat)
    requires Represents(c, m, view, root) && IsTable(view, p) && TableLevel(c.geo, p) == level
    ensures view[p].frame in m && |m[view[p].frame]| == c.geo.EntriesPerTable() && level >= 1
  {
    assert TableMatches(c, m, view, p);
  }

  /** Reading an entry as a leaf succeeds exactly when the tree has a leaf there. */
  lemma {:induction false} ReadLeafMeaning<W(!new), F(!new)>(
      c: Config<W, F>, m: map<nat, seq<W>>, view: View<F>, root: nat, p: Path, level: nat, i: nat)
    requires Represents(c, m, view, root) && IsTable(view, p) && TableLevel(c.geo, p) == level
    requires view[p].frame in m && i < |m[view[p].frame]|
    ensures match ReadLeaf(c, m[view[p].frame][i], level)
            case Ok(Hit(paddr, flags)) => At(view, Step(p, i)) == Leaf(paddr, flags)
            case Err(e) => e == NotCoalescable && !At(view, Step(p, i)).Leaf?
  {
    hide LeafOk;
    assert TableMatches(c, m, view, p);
    if Step(p, i) in view {
      SlotKinds(c, view, root, Step(p, i));
    }
  }

  /** The first entry of a child table starts a run, or refutes a merge. */
  lemma {:induction false} FirstOfRun<W(!new), F(!new)>(
      c: Config<W, F>, m: map<nat, seq<W>>, view: View<F>, root: nat, p: Path, level: nat)
    requires Represents(c, m, view, root) && IsTable(view, p) && TableLevel(c.geo, p) == level >= 1
    requires view[p].frame in m && 0 < |m[view[p].frame]|
    ensures match ReadLeaf(c, m[view[p].frame][0], level)
            case Err(e) => e == NotCoalescable && !Mergeable(c.geo, view, p, level + 1)
            case Ok(Hit(paddr, flags)) =>
              && IsLeaf(view, Step(p, 0)) && view[Step(p, 0)] == Leaf(paddr, flags)
              && RunUpTo(c.geo, view, p, level, paddr, flags, 1)
              && (paddr % c.geo.Span(level + 1) != 0 ==> !Mergeable(c.geo, view, p, level + 1))
  {
    hide Represents;
    hide ReadLeaf;
    hide Mergeable;
    hide RunUpTo;
    RunStarts(c.geo, view, p, level);
    ReadLeafMeaning(c, m, view, root, p, level, 0);
  }

  /** What was read as entry `i` either continues the run or refutes a merge. */
  ghost predicate ReadDecides<F>(
      g: Geometry, view: View<F>, p: Path, level: nat, paddr: nat, flags: F, i: nat, read: Result<Hit<F>>)
  {
    if read == Ok(Hit(paddr + i * g.Span(level), flags)) then RunUpTo(g, view, p, level, paddr, flags, i + 1)
    else (read.Err? ==> read.error == NotCoalescable) && !Mergeable(g, view, p, level + 1)
  }

  lemma {:induction false} NextOfRun<W(!new), F(!new)>(
      c: Config<W, F>, m: map<nat, seq<W>>, view: View<F>, root: nat, p: Path, level: nat,
      paddr: nat, flags: F, i: nat)
    requires Represents(c, m, view, root) && IsTable(view, p) && TableLevel(c.geo, p) == level
    requires view[p].frame in m && 1 <= i < |m[view[p].frame]| && i < c.geo.EntriesPerTable()
    requires RunUpTo(c.geo, view, p, level, paddr, flags, i)
    ensures ReadDecides(c.geo, view, p, level, paddr, flags, i, ReadLeaf(c, m[view[p].frame][i], level))
  {
    hide Represents;
    hide ReadLeaf;
    hide Mergeable;
    hide RunUpTo;
    ReadLeafMeaning(c, m, view, root, p, level, i);
    RunGoesOn(c.geo, view, p, level, paddr, flags, i);
  }

  /** Search from the leaves up for a level whose leaves have `size`. */
  method SizeToLevel(g: Geometry, size: PageSize) returns (r: Option<nat>)
    ensures r == g.LevelOfSize(size)
  {
    var level := 1;
    while level <= g.levels
      invariant level >= 1 && g.FirstLevelFor(size, level) == g.LevelOfSize(size)
      decreases g.levels + 1 - level
    {
      if g.LevelSupportsLeaf(level, size) {
        return Some(level);
      }
      level := level + 1;
    }
    return None;
  }

  /** One step of a descent that has to find tables down to `target`. */
  lemma {:induction false} DescendStep<W(!new), F(!new)>(
      c: Config<W, F>, m: map<nat, seq<W>>, view: View<F>, root: nat, v: nat, level: nat, target: nat)
    requires c.geo.Lawful() && Represents(c, m, view, root)
    requires 1 <= target <= level <= c.geo.levels && IsTable(view, c.geo.PathOf(v, level))
    ensures var f, i, p := view[c.geo.PathOf(v, level)].frame, c.geo.IndexAt(level, v), c.geo.PathOf(v, level - 1);
            && f in m && i < |m[f]|
            && var w := m[f][i];
            && (c.codec.isPresent(w) <==> p in view)
            && (c.codec.isPresent(w) ==> EntryIsLeaf(c, w, level).Ok?)
            && (c.codec.isPresent(w) ==> (EntryIsLeaf(c, w, level).value <==> IsLeaf(view, p)))
            && (c.codec.isPresent(w) && !EntryIsLeaf(c, w, level).value ==>
                  IsTable(view, p) && view[p].frame == c.codec.paddr(w))
            && (level > target && !IsTable(view, p) ==> !IsTable(view, c.geo.PathOf(v, target)))
  {
    hide TreeOk;
    hide Matches;
    var p := c.geo.PathOf(v, level - 1);
    EntryOnWalk(c, m, view, root, v, level);
    SlotOnWalk(c, view, root, v, level);
    if p in view {
      SlotKinds(c, view, root, p);
    }
    if level > target && c.geo.PathOf(v, target) in view {
      WalkedAbove(c, view, root, v, target, level - 1);
    }
  }

  /** What the slot of a merge decides. */
  lemma {:induction false} MergeDecides<F>(g: Geometry, view: View<F>, range: AddrRange, level: nat, size: PageSize)
    requires level >= 2 && g.LevelSupportsLeaf(level, size)
    requires MergeSite(g, view, range) == if g.PathOf(range.start, level - 1) in view then Ok(level) else Err(NotMapped)
    ensures var p := g.PathOf(range.start, level - 1);
            && (p !in view ==> MergeAnswer(g, view, range, Err(NotMapped)) && !MergeHappens(g, view, range))
            && (IsLeaf(view, p) ==> MergeAnswer(g, view, range, Ok(size)) && !MergeHappens(g, view, range))
            && (IsTable(view, p) && !Mergeable(g, view, p, level) ==>
                  MergeAnswer(g, view, range, Err(NotCoalescable)) && !MergeHappens(g, view, range))
            && (Mergeable(g, view, p, level) ==>
                  IsTable(view, p) && MergeAnswer(g, view, range, Ok(size)) && MergeHappens(g, view, range))
  {
    hide MergeSite;
    MergeNeedsTable(g, view, g.PathOf(range.start, level - 1), level);
  }

  lemma {:induction false} MergeSiteAt<F>(g: Geometry, view: View<F>, range: AddrRange, size: PageSize, l: nat)
    requires CheckLeafRange(g, range) == Ok(size) && g.LevelOfSize(size) == Some(l) && l >= 2
    requires IsTable(view, g.PathOf(range.start, l))
    ensures MergeSite(g, view, range) ==
              if g.PathOf(range.start, l - 1) in view then Ok(l) else Err(NotMapped)
  {
  }

  lemma {:induction false} ExactNeedsValid<W, F>(c: Config<W, F>, view: View<F>, range: AddrRange)
    ensures !c.geo.VaddrIsValid(range.start) ==> AnswersExact(c, view, range, Err(AddressOutOfRange))
  {
  }

  lemma {:induction false} SoundTree<W(!new), F(!new)>(
      c: Config<W, F>, s: Store<W>, view: View<F>, root: nat, foreign: map<nat, seq<W>>, dirty: iset<nat>)
    requires Sound(c, s, view, root, foreign, dirty)
    ensures Represents(c, s.words, view, root) && TreeOk(c, view, root)
  {
  }

  /** What a query answers once the walk is over. */
  lemma {:induction false} QueryEnds<W(!new), F(!new)>(c: Config<W, F>, view: View<F>, root: nat, v: nat)
    requires c.geo.Lawful() && TreeOk(c, view, root)
    ensures !c.geo.VaddrIsValid(v) ==> QueryResult(c.geo, view, v) == Err(AddressOutOfRange)
    ensures var level := LeafLevel(c.geo, view, v, c.geo.levels);
            c.geo.VaddrIsValid(v) ==>
              if level == 0 then QueryResult(c.geo, view, v) == Err(NotMapped)
              else
                var size := c.geo.LeafSizeAtLevel(level);
                && size.Some? && LeafRange(v, size.value).Ok?
                && var leaf := view[c.geo.PathOf(v, level - 1)];
                   QueryResult(c.geo, view, v) == Ok(Mapping(LeafRange(v, size.value).value, leaf.paddr, leaf.flags))
  {
    hide TreeOk;
    hide Canonical;
    var level := LeafLevel(c.geo, view, v, c.geo.levels);
    if c.geo.VaddrIsValid(v) && level > 0 {
      LeafBlock(c, view, root, v, level);
      c.geo.SizeIsSpan(level, c.geo.LeafSizeAtLevel(level).value);
    }
  }

  /** One step of a search for the leaf on the walk of `v`. */
  lemma {:induction false} WalkStep<W(!new), F(!new)>(
      c: Config<W, F>, m: map<nat, seq<W>>, view: View<F>, root: nat, v: nat, level: nat)
    requires c.geo.Lawful() && Represents(c, m, view, root)
    requires level <= c.geo.levels && IsTable(view, c.geo.PathOf(v, level))
    requires LeafLevel(c.geo, view, v, level) == LeafLevel(c.geo, view, v, c.geo.levels)
    ensures var f, i := view[c.geo.PathOf(v, level)].frame, c.geo.IndexAt(level, v);
            && f in m && i < |m[f]|
            && var w := m[f][i];
            && (!c.codec.isPresent(w) ==> LeafLevel(c.geo, view, v, c.geo.levels) == 0)
            && (c.codec.isPresent(w) ==> EntryIsLeaf(c, w, level).Ok?)
            && (c.codec.isPresent(w) && EntryIsLeaf(c, w, level).value ==>
                  LeafLevel(c.geo, view, v, c.geo.levels) == level
                  && view[c.geo.PathOf(v, level - 1)] == Leaf(c.codec.paddr(w), c.codec.flags(w))
                  && c.codec.Decode(w, level) == view[c.geo.PathOf(v, level - 1)])
            && (c.codec.isPresent(w) && !EntryIsLeaf(c, w, level).value ==>
                  level >= 2 && IsTable(view, c.geo.PathOf(v, level - 1))
                  && view[c.geo.PathOf(v, level - 1)].frame == c.codec.paddr(w)
                  && LeafLevel(c.geo, view, v, level - 1) == LeafLevel(c.geo, view, v, c.geo.levels))
  {
    hide TreeOk;
    hide Matches;
    EntryOnWalk(c, m, view, root, v, level);
    SlotOnWalk(c, view, root, v, level);
  }

  lemma {:induction false} NoStack<F>(g: Geometry, view: View<F>, v: nat)
    ensures StackOk(g, view, v, [])
  {
  }

  /** Pushing the table that the walk is at. */
  lemma {:induction false} ToppedStack<F>(g: Geometry, view: View<F>, v: nat, stack: seq<(nat, nat)>, entry: (nat, nat))
    requires |stack| <= g.levels && StackOk(g, view, v, stack) && IsTable(view, g.PathOf(v, g.levels - |stack|))
    requires entry == (view[g.PathOf(v, g.levels - |stack|)].frame, g.IndexAt(g.levels - |stack|, v))
    ensures StackOk(g, view, v, stack + [entry])
  {
    var after := stack + [entry];
    forall k: nat | k < |after| ensures OnStack(g, view, v, after[k], k) {
      if k < |stack| {
        assert OnStack(g, view, v, stack[k], k);
      }
    }
  }

  /** Removing a leaf leaves the parent stack alone. */
  lemma {:induction false} StackWithoutLeaf<F>(g: Geometry, view: View<F>, v: nat, p: Path, stack: seq<(nat, nat)>)
    requires !IsTable(view, p) && StackOk(g, view, v, stack)
    ensures StackOk(g, view - {p}, v, stack)
  {
    forall k: nat | k < |stack| ensures OnStack(g, view - {p}, v, stack[k], k) {
      assert OnStack(g, view, v, stack[k], k);
    }
  }

  /** A table without children is one whose frame holds no present entry. */
  lemma {:induction false} EmptyTable<W(!new), F(!new)>(
      c: Config<W, F>, m: map<nat, seq<W>>, view: View<F>, root: nat, p: Path)
    requires ConfigOk(c) && Represents(c, m, view, root) && IsTable(view, p)
    ensures view[p].frame in m && |m[view[p].frame]| == c.geo.EntriesPerTable()
    ensures TableEmpty(c, m, view[p].frame) <==> !HasChild(view, p)
  {
    hide ConfigOk;
    hide Represents;
    hide HasChild;
    EmptyIffNoChild(c, m, view, root, p);
  }

  /** The table above the child survives the child's removal. */
  lemma {:induction false} AboveChild<F>(g: Geometry, view: View<F>, v: nat, level: nat)
    requires 1 <= level < g.levels && IsTable(view, g.PathOf(v, level + 1))
    ensures IsTable(view - {g.PathOf(v, level)}, g.PathOf(v, level + 1))
    ensures (view - {g.PathOf(v, level)})[g.PathOf(v, level + 1)] == view[g.PathOf(v, level + 1)]
  {
    assert LevelOf(g.PathOf(v, level)) == g.levels - level;
  }

  /** One round of reclaiming, for a child table that `stack` leads to: it ends at a table in
      use, and otherwise unlinks and frees the child and goes on with its parent. */
  lemma {:induction false} ReclaimRound<W(!new), F(!new)>(
      c: Config<W, F>, s: Store<W>, view: View<F>, root: nat, foreign: map<nat, seq<W>>, dirty: iset<nat>,
      v: nat, stack: seq<(nat, nat)>, child: nat)
    requires ConfigOk(c) && Sound(c, s, view, root, foreign, dirty)
    requires 0 < |stack| < c.geo.levels && StackOk(c.geo, view, v, stack)
    requires var p := c.geo.PathOf(v, c.geo.levels - |stack|); IsTable(view, p) && view[p].frame == child
    ensures child in s.words && |s.words[child]| == c.geo.EntriesPerTable()
    ensures var level := c.geo.levels - |stack|;
            !TableEmpty(c, s.words, child) ==>
              Pruned(c.geo, view, v, level) == view && PruneFrom(c, s, stack, child) == s
    ensures var level, (frame, index) := c.geo.levels - |stack|, stack[|stack| - 1];
            TableEmpty(c, s.words, child) ==>
              && frame in s.words && index < |s.words[frame]|
              && var s1 := s.Put(frame, index, c.codec.zero);
              && child in s1.words
              && var s2, rest, up := s1.Free(child), view - {c.geo.PathOf(v, level)}, c.geo.PathOf(v, level + 1);
              && Sound(c, s2, rest, root, foreign, dirty) && NoChange(c, root, s, s2)
              && StackOk(c.geo, rest, v, stack[..|stack| - 1])
              && IsTable(rest, up) && rest[up].frame == frame
              && Pruned(c.geo, view, v, level) == Pruned(c.geo, rest, v, level + 1)
              && PruneFrom(c, s, stack, child) == PruneFrom(c, s2, stack[..|stack| - 1], frame)
  {
    hide Lawful;
    hide AllocatorOk;
    hide Sound;
    hide Represents;
    hide TreeOk;
    hide NoChange;
    hide StackOk;
    hide HasChild;
    hide TableEmpty;
    hide Geometry.PathOf;
    hide Store.Put;
    hide Store.Free;
    var level := c.geo.levels - |stack|;
    SoundTree(c, s, view, root, foreign, dirty);
    EmptyTable(c, s.words, view, root, c.geo.PathOf(v, level));
    StackTop(c.geo, view, v, stack);
    if TableEmpty(c, s.words, child) {
      PruneStep(c, s, view, root, foreign, dirty, v, level);
      StackBelow(c.geo, view, v, level, stack);
      AboveChild(c.geo, view, v, level);
    }
  }

  lemma {:induction false} PrunedAtRoot<W, F>(c: Config<W, F>, view: View<F>, v: nat, s: Store<W>, child: nat)
    ensures Pruned(c.geo, view, v, c.geo.levels) == view && PruneFrom(c, s, [], child) == s
  {
  }

  lemma {:induction false} LawfulLevels<W(!new), F(!new)>(c: Config<W, F>)
    requires ConfigOk(c)
    ensures 1 <= c.geo.levels <= MAX_LEVELS
  {
  }

  /** Where the walk that maps one leaf will lead, from a sound state. */
  lemma {:induction false} WalkPlan<W(!new), F(!new)>(
      c: Config<W, F>, s: Store<W>, view: View<F>, root: nat, foreign: map<nat, seq<W>>, dirty: iset<nat>,
      range: AddrRange, paddr: nat, flags: F, size: PageSize, target: nat) returns (after: View<F>)
    requires ConfigOk(c) && Sound(c, s, view, root, foreign, dirty)
    requires LeafRequest(c, range, paddr, flags, size, target)
    ensures 1 <= target <= c.geo.levels <= MAX_LEVELS
    ensures var top := c.geo.PathOf(range.start, c.geo.levels); IsTable(view, top) && view[top].frame == root
    ensures var (s1, r) := MapWalk(c, s, root, c.geo.levels, target, range.start, c.codec.newLeaf(paddr, flags, size));
            && MapOutcome(c, root, foreign, dirty, range, paddr, flags, target, s, view, s1, after, r)
            && Sound(c, s1, after, root, foreign, if r.Ok? then dirty + AddressesOf(range) else dirty)
  {
    hide ConfigOk;
    hide Sound;
    hide TreeOk;
    hide Represents;
    hide LeafRequest;
    hide MapWalk;
    hide MapOutcome;
    LawfulLevels(c);
    RequestLevel(c, range, paddr, flags, size, target);
    SoundTree(c, s, view, root, foreign, dirty);
    RootOnWalk(c, view, root, range.start);
    after := MapWalkEffect(c, s, view, root, foreign, dirty, range, paddr, flags, size, c.geo.levels, target);
    var (s1, r) := MapWalk(c, s, root, c.geo.levels, target, range.start, c.codec.newLeaf(paddr, flags, size));
    OutcomeIsSound(c, root, foreign, dirty, range, paddr, flags, target, s, view, s1, after, r);
  }

  /** The end of that walk, once its table has been reached. */
  lemma {:induction false} InstallsHere<W(!new), F(!new)>(
      c: Config<W, F>, s: Store<W>, view: View<F>, root: nat, foreign: map<nat, seq<W>>, dirty: iset<nat>,
      v: nat, target: nat, leaf: W)
    requires ConfigOk(c) && Sound(c, s, view, root, foreign, dirty) && target <= c.geo.levels
    requires IsTable(view, c.geo.PathOf(v, target))
    ensures var f, i := view[c.geo.PathOf(v, target)].frame, c.geo.IndexAt(target, v);
            && f in s.words && i < |s.words[f]|
            && MapWalk(c, s, f, target, target, v, leaf) ==
                 if c.codec.isPresent(s.words[f][i]) then (s, Err(AlreadyMapped)) else (s.Put(f, i, leaf), Ok(()))
  {
    hide Lawful;
    hide AllocatorOk;
    hide Sound;
    hide Represents;
    hide MapWalk;
    SoundTree(c, s, view, root, foreign, dirty);
    WalkInstalls(c, s, view, root, v, target, leaf);
  }

  /** The target of a leaf of the tree is one its level can hold. */
  lemma {:induction false} TargetOfLeaf<W(!new), F(!new)>(
      c: Config<W, F>, s: Store<W>, view: View<F>, root: nat, foreign: map<nat, seq<W>>, dirty: iset<nat>,
      p: Path, l: nat)
    requires ConfigOk(c) && Sound(c, s, view, root, foreign, dirty)
    requires IsLeaf(view, p) && TableLevel(c.geo, p) == l - 1
    ensures TargetOk(c.geo, l, view[p].paddr)
    ensures c.codec.encodable(view[p].flags) && c.codec.Norm(view[p].flags) == view[p].flags
  {
    assert SlotOk(c, p, view[p]);
  }

  /** What invalidating one leaf emits: one full invalidation or a sweep of its pages. */
  ghost function LeafEmission<W, F>(c: Config<W, F>, range: AddrRange): seq<Event<W>> {
    var pages := range.Size() / c.geo.BasePageSize().Bytes();
    if c.preferFull(pages) then [FlushedAll] else Sweep(range.start, c.geo.BasePageSize().Bytes(), pages)
  }

  lemma {:induction false} LeafEmissionShape<W, F>(c: Config<W, F>, range: AddrRange)
    ensures forall k: nat | k < |LeafEmission(c, range)| :: !LeafEmission(c, range)[k].Wrote?
  {
    var pages := range.Size() / c.geo.BasePageSize().Bytes();
    SweepIsFlushes<W>(range.start, c.geo.BasePageSize().Bytes(), pages);
  }

  /** The state after an operation on one leaf and the invalidation that follows a success. */
  ghost predicate SteppedThenFlushed<W, F>(
      c: Config<W, F>, stepped: Store<W>, ok: bool, range: AddrRange, s: Store<W>)
  {
    s == stepped.Emit(if ok then LeafEmission(c, range) else [])
  }

  /** A block is a whole number of base pages, on a page boundary. */
  lemma {:induction false} BlockPages(g: Geometry, range: AddrRange, level: nat)
    requires g.Lawful() && IsBlock(g, range, level)
    ensures g.BasePageSize().Bytes() == g.Span(1) && range.start % g.Span(1) == 0
    ensures range.start + (range.Size() / g.Span(1)) * g.Span(1) == range.end < ADDRESS_LIMIT
  {
    g.SizeIsSpan(1, g.BasePageSize());
    ShiftMonotone(g, 1, level);
    var n := Pow2(g.Shift(level) - g.Shift(1));
    Pow2Divides(g.Shift(1), g.Shift(level));
    MultipleMod(n, g.Span(1));
    assert g.Span(level) == n * g.Span(1) == g.Span(1) * n;
    ModOfMultiple(range.start, g.Span(1), n);
  }

  lemma {:induction false} ExactBlock<W(!new), F(!new)>(
      c: Config<W, F>, s: Store<W>, view: View<F>, root: nat, range: AddrRange,
      foreign: map<nat, seq<W>>, dirty: iset<nat>)
    requires ConfigOk(c) && Sound(c, s, view, root, foreign, dirty)
    requires ExactLevel(c.geo, view, range).Ok?
    ensures IsBlock(c.geo, range, ExactLevel(c.geo, view, range).value)
  {
    ExactLevelIff(c, view, root, range, ExactLevel(c.geo, view, range).value);
  }

  lemma {:induction false} SoundAfterReplace<W(!new), F(!new)>(
      c: Config<W, F>, root: nat, foreign: map<nat, seq<W>>, dirty: iset<nat>,
      range: AddrRange, level: nat, paddr: nat, flags: F,
      s: Store<W>, view: View<F>, s1: Store<W>, after: View<F>)
    requires level >= 1
    requires LeafReplaced(c, root, foreign, dirty, range, level, paddr, flags, s, view, s1, after)
    ensures Sound(c, s1, after, root, foreign, dirty + AddressesOf(range))
  {
  }

  class PageTableWalker<W(!new), F(!new, ==)> {
    const c: Config<W, F>
    const mem: Machine<W>
    const root: nat
    /** The tree that memory holds. */
    ghost var view: View<F>
    /** Addresses whose cached translations may be out of date. */
    ghost var dirty: iset<nat>
    /** Live frames that are not the walker's. */
    ghost const foreign: map<nat, seq<W>>

    ghost predicate Valid()
      reads this, mem`words, mem`tick, mem`log
    {
      ConfigOk(c) && Sound(c, mem.Snapshot(), view, root, foreign, dirty)
    }

    /** A walker over a root frame that has just been allocated. */
    constructor (c: Config<W, F>, mem: Machine<W>, root: nat, ghost before: map<nat, seq<W>>)
      requires ConfigOk(c)
      requires Sound(c, mem.Snapshot(), map[Root := Table(root)], root, before, iset{})
      ensures Valid() && this.c == c && this.mem == mem && this.root == root && foreign == before
      ensures view == map[Root := Table(root)] && dirty == iset{}
    {
      this.c, this.mem, this.root := c, mem, root;
      view, dirty, foreign := map[Root := Table(root)], iset{}, before;
    }

    /** A new table, whose root is a frame that the allocator has just granted. */
    static method TryNew(c: Config<W, F>, mem: Machine<W>) returns (r: Result<PageTableWalker<W, F>>)
      requires ConfigOk(c) && HistoryOk(mem.Snapshot())
      requires var (_, grant) := mem.Snapshot().Alloc(c); grant.Ok? ==> Unheld(c, grant.value, mem.log)
      modifies mem
      ensures var (s, grant) := old(mem.Snapshot()).Alloc(c);
              mem.Snapshot() == s && match grant
                                     case Ok(frame) => r.Ok? && r.value.root == frame
                                     case Err(e) => r == Err(e)
      ensures r.Err? ==> mem.words == old(mem.words) && mem.log == old(mem.log)
      ensures r.Ok? ==> fresh(r.value) && r.value.Valid() && r.value.c == c && r.value.mem == mem
                        && r.value.view == map[Root := Table(r.value.root)]
                        && r.value.foreign == old(mem.words) && r.value.dirty == iset{}
    {
      ghost var s := mem.Snapshot();
      FreshRoot(c, s);
      var frame :- mem.AllocTable(c);
      var walker := new PageTableWalker<W, F>(c, mem, frame, s.words);
      return Ok(walker);
    }

    /** Look up the leaf covering `vaddr`. */
    method Query(vaddr: nat) returns (r: Result<Mapping<F>>)
      requires Valid()
      modifies mem`readCount
      ensures r == QueryResult(c.geo, view, vaddr)
      ensures r == QueryStep(c, mem.Snapshot(), root, vaddr)
    {
      hide Lawful;
      hide AllocatorOk;
      hide Sound;
      hide Represents;
      hide TreeOk;
      hide Canonical;
      hide QueryResult;
      hide LeafLevel;
      hide LeafRange;
      hide EntryIsLeaf;
      hide Geometry.PathOf;
      hide Geometry.LeafSizeAtLevel;
      hide AddrRange.Valid;
      hide Geometry.IndexAt;
      hide Geometry.LeafRange;
      hide Geometry.VaddrIsValid;
      hide DirtyOnly;
      hide Geometry.VaBits;
      SoundTree(c, mem.Snapshot(), view, root, foreign, dirty);
      QueryEnds(c, view, root, vaddr);
      var _ :- CheckVaddr(c.geo, vaddr);
      RootOnWalk(c, view, root, vaddr);
      var current := root;
      var level := c.geo.levels;
      ghost var found := FindMapping(c, mem.words, root, level, vaddr);
      while true
        invariant 1 <= level <= c.geo.levels
        invariant IsTable(view, c.geo.PathOf(vaddr, level)) && view[c.geo.PathOf(vaddr, level)].frame == current
        invariant LeafLevel(c.geo, view, vaddr, level) == LeafLevel(c.geo, view, vaddr, c.geo.levels)
        invariant FindMapping(c, mem.words, current, level, vaddr) == found
        decreases level
      {
        WalkStep(c, mem.words, view, root, vaddr, level);
        var pte := mem.ReadEntry(current, c.geo.IndexAt(level, vaddr));
        if !c.codec.isPresent(pte) {
          return Err(NotMapped);
        }
        var leaf :- EntryIsLeaf(c, pte, level);
        if leaf {
          var size :- c.geo.LeafSizeAtLevel(level).OkOr(UnsupportedSize);
          var range :- LeafRange(vaddr, size);
          return Ok(Mapping(range, c.codec.paddr(pte), c.codec.flags(pte)));
        }
        current := c.codec.paddr(pte);
        level := level - 1;
      }
    }

    /** Find the leaf that covers exactly `range`. */
    method ExactLeafSlot(range: AddrRange) returns (r: Result<LeafSlot<W>>)
      requires Valid()
      modifies mem`readCount
      ensures AnswersExact(c, view, range, r)
      ensures match ExactLeaf(c, mem.Snapshot(), root, range)
              case Err(e) => r == Err(e)
              case Ok((slot, _)) => r == Ok(slot)
      ensures r.Ok? ==> r.value.frame in mem.words && r.value.index < |mem.words[r.value.frame]|
    {
      hide Lawful;
      hide AllocatorOk;
      hide Sound;
      hide Represents;
      hide TreeOk;
      hide Canonical;
      hide IsBlock;
      hide ExactLevel;
      hide CheckExact;
      hide EntryIsLeaf;
      hide AnswersExact;
      hide LeafLevel;
      hide Geometry.PathOf;
      hide FindLeaf;
      SoundTree(c, mem.Snapshot(), view, root, foreign, dirty);
      var vaddr := range.start;
      ExactNeedsValid(c, view, range);
      var _ :- CheckVaddr(c.geo, vaddr);
      RootOnWalk(c, view, root, vaddr);
      var current := root;
      var level := c.geo.levels;
      ghost var passed := [];
      ghost var found := FindLeaf(c, mem.words, root, level, range, []);
      while true
        invariant 1 <= level <= c.geo.levels
        invariant IsTable(view, c.geo.PathOf(vaddr, level)) && view[c.geo.PathOf(vaddr, level)].frame == current
        invariant LeafLevel(c.geo, view, vaddr, level) == LeafLevel(c.geo, view, vaddr, c.geo.levels)
        invariant FindLeaf(c, mem.words, current, level, range, passed) == found
        decreases level
      {
        WalkStep(c, mem.words, view, root, vaddr, level);
        FindLeafStep(c, mem.words, current, level, range, passed);
        var idx := c.geo.IndexAt(level, vaddr);
        var pte := mem.ReadEntry(current, idx);
        if !c.codec.isPresent(pte) {
          NoExactLeaf(c.geo, view, range);
          AnswerErr(c, view, range, NotMapped);
          return Err(NotMapped);
        }
        var leaf :- EntryIsLeaf(c, pte, level);
        if leaf {
          CheckExactMeaning(c, view, root, range, current, idx, pte, level);
          return CheckExact(c, range, current, idx, pte, level);
        }
        passed := passed + [(current, idx)];
        current := c.codec.paddr(pte);
        level := level - 1;
      }
    }

    /** Retarget one leaf and leave the TLB stale. */
    method RemapNoFlush(range: AddrRange, paddr: nat, flags: F) returns (r: Result<Mapping<F>>)
      requires Valid() && c.codec.encodable(flags)
      modifies this`view, this`dirty, mem
      ensures Valid()
      ensures r.Err? ==> mem.Snapshot() == old(mem.Snapshot()) && view == old(view) && dirty == old(dirty)
      ensures r == RemapResult(c, old(view), range, paddr, flags)
      ensures r.Ok? <==>
                HoldsLeaf(c.geo, old(view), range) && paddr < Pow2(c.geo.paBits) && paddr % range.Size() == 0
      ensures r.Ok? ==> r.value == Mapping(range, paddr, flags)
      ensures r.Err? ==>
                r.error == if paddr >= Pow2(c.geo.paBits) || !c.geo.VaddrIsValid(range.start) then AddressOutOfRange
                           else if !HoldsLeaf(c.geo, old(view), range) then NotMapped
                           else NotAligned
      ensures r.Ok? ==>
                forall v: nat ::
                  QueryResult(c.geo, view, v) ==
                  if range.Contains(v) then Ok(Mapping(range, paddr, c.codec.Norm(flags)))
                  else QueryResult(c.geo, old(view), v)
      ensures (mem.Snapshot(), r) == RemapStep(c, old(mem.Snapshot()), root, range, paddr, flags)
      ensures r.Ok? ==>
                dirty == old(dirty) + AddressesOf(range)
                && LeafReplaced(c, root, foreign, old(dirty), range, ExactLevel(c.geo, old(view), range).value,
                                paddr, c.codec.Norm(flags), old(mem.Snapshot()), old(view), mem.Snapshot(), view)
    {
      hide Lawful;
      hide AllocatorOk;
      hide Sound;
      hide IsBlock;
      hide LeafReplaced;
      hide ExactLeaf;
      hide TreeOk;
      hide HoldsLeaf;
      hide QueryResult;
      SoundTree(c, mem.Snapshot(), view, root, foreign, dirty);
      RemapMeaning(c, view, root, range, paddr, flags, RemapResult(c, view, range, paddr, flags));
      var _ :- CheckPaddr(c.geo, paddr);
      var slot :- ExactLeafSlot(range);
      ghost var l := ExactLevel(c.geo, view, range).value;
      c.geo.SizeIsSpan(l, slot.size);
      if !slot.size.IsAligned(paddr) {
        return Err(NotAligned);
      }
      AlignedTargetFits(c, l, paddr);
      ReplaceEffect(c, mem.Snapshot(), view, root, foreign, dirty, range, l, paddr, flags, slot.size);
      mem.WriteEntry(slot.frame, slot.index, c.codec.newLeaf(paddr, flags, slot.size));
      view := view[c.geo.PathOf(range.start, l - 1) := Leaf(paddr, c.codec.Norm(flags))];
      dirty := dirty + AddressesOf(range);
      SoundAfterReplace(c, root, foreign, old(dirty), range, l, paddr, c.codec.Norm(flags),
                        old(mem.Snapshot()), old(view), mem.Snapshot(), view);
      ReplacedAnswers(c, root, foreign, old(dirty), range, l, paddr, c.codec.Norm(flags),
                      old(mem.Snapshot()), old(view), mem.Snapshot(), view);
      return Ok(Mapping(range, paddr, flags));
    }

    /** Change the flags of one leaf and leave the TLB stale. */
    method ProtectNoFlush(range: AddrRange, flags: F) returns (r: Result<Mapping<F>>)
      requires Valid() && c.codec.encodable(flags)
      modifies this`view, this`dirty, mem
      ensures Valid()
      ensures r.Err? ==> mem.Snapshot() == old(mem.Snapshot()) && view == old(view) && dirty == old(dirty)
      ensures r == ProtectResult(c, old(view), range, flags)
      ensures r.Ok? <==> HoldsLeaf(c.geo, old(view), range)
      ensures r.Ok? ==>
                var q := QueryResult(c.geo, old(view), range.start);
                q.Ok? && q.value.range == range && r.value == Mapping(range, q.value.paddr, flags)
      ensures r.Err? ==> r.error == if c.geo.VaddrIsValid(range.start) then NotMapped else AddressOutOfRange
      ensures r.Ok? ==>
                forall v: nat ::
                  QueryResult(c.geo, view, v) ==
                  if range.Contains(v) then Ok(Mapping(range, r.value.paddr, c.codec.Norm(flags)))
                  else QueryResult(c.geo, old(view), v)
      ensures (mem.Snapshot(), r) == ProtectStep(c, old(mem.Snapshot()), root, range, flags)
      ensures r.Ok? ==>
                dirty == old(dirty) + AddressesOf(range)
                && LeafReplaced(c, root, foreign, old(dirty), range, ExactLevel(c.geo, old(view), range).value,
                                r.value.paddr, c.codec.Norm(flags), old(mem.Snapshot()), old(view),
                                mem.Snapshot(), view)
    {
      hide Lawful;
      hide AllocatorOk;
      hide Sound;
      hide IsBlock;
      hide LeafReplaced;
      hide ExactLeaf;
      hide ExactLevel;
      hide LevelOf;
      hide TreeOk;
      hide HoldsLeaf;
      hide QueryResult;
      SoundTree(c, mem.Snapshot(), view, root, foreign, dirty);
      ProtectMeaning(c, view, root, range, flags, ProtectResult(c, view, range, flags));
      var slot :- ExactLeafSlot(range);
      ghost var l := ExactLevel(c.geo, view, range).value;
      var paddr := c.codec.paddr(slot.word);
      TargetOfLeaf(c, mem.Snapshot(), view, root, foreign, dirty, c.geo.PathOf(range.start, l - 1), l);
      ReplaceEffect(c, mem.Snapshot(), view, root, foreign, dirty, range, l, paddr, flags, slot.size);
      mem.WriteEntry(slot.frame, slot.index, c.codec.newLeaf(paddr, flags, slot.size));
      view := view[c.geo.PathOf(range.start, l - 1) := Leaf(paddr, c.codec.Norm(flags))];
      dirty := dirty + AddressesOf(range);
      SoundAfterReplace(c, root, foreign, old(dirty), range, l, paddr, c.codec.Norm(flags),
                        old(mem.Snapshot()), old(view), mem.Snapshot(), view);
      ReplacedAnswers(c, root, foreign, old(dirty), range, l, paddr, c.codec.Norm(flags),
                      old(mem.Snapshot()), old(view), mem.Snapshot(), view);
      return Ok(Mapping(range, paddr, flags));
    }

    /** Invalidate one leaf's range, by pages or wholesale as the policy prefers. */
    method FlushLeafRange(range: AddrRange, ghost level: nat)
      requires Valid() && IsBlock(c.geo, range, level)
      modifies this`dirty, mem`log
      ensures Valid() && dirty == old(dirty) - AddressesOf(range)
      ensures NoChange(c, root, old(mem.Snapshot()), mem.Snapshot())
      ensures mem.log == old(mem.log) + LeafEmission(c, range)
    {
      hide Lawful;
      hide AllocatorOk;
      hide Represents;
      hide Owns;
      hide DirtyOnly;
      hide IsBlock;
      hide Xlate;
      hide NoChange;
      ghost var s := mem.Snapshot();
      BlockPages(c.geo, range, level);
      LeafEmissionShape(c, range);
      var countPages := range.Size() / c.geo.BasePageSize().Bytes();
      ghost var rest := dirty - AddressesOf(range);
      if c.preferFull(countPages) {
        DirtyAfterFlush(c, root, mem.log, FlushedAll, dirty, rest);
        mem.FlushTlbAllLocal();
      } else {
        DirtyAfterSweep(c, root, mem.log, range.start, countPages, dirty, rest);
        mem.FlushTlbRangeLocal(range.start, c.geo.BasePageSize(), countPages);
      }
      FlushesAreQuiet(c, root, s, mem.Snapshot(), LeafEmission(c, range));
      dirty := rest;
    }

    /** Point one leaf that is already there somewhere else, with new flags. */
    method Remap(range: AddrRange, paddr: nat, flags: F) returns (r: Result<Mapping<F>>)
      requires Valid() && c.codec.encodable(flags)
      modifies this`view, this`dirty, mem
      ensures Valid() && dirty == old(dirty) - (if r.Ok? then AddressesOf(range) else iset{})
      ensures r == RemapResult(c, old(view), range, paddr, flags)
      ensures r.Ok? <==>
                HoldsLeaf(c.geo, old(view), range) && paddr < Pow2(c.geo.paBits) && paddr % range.Size() == 0
      ensures r.Ok? ==> r.value == Mapping(range, paddr, flags)
      ensures r.Err? ==>
                r.error == if paddr >= Pow2(c.geo.paBits) || !c.geo.VaddrIsValid(range.start) then AddressOutOfRange
                           else if !HoldsLeaf(c.geo, old(view), range) then NotMapped
                           else NotAligned
      ensures r.Ok? ==>
                forall v: nat ::
                  QueryResult(c.geo, view, v) ==
                  if range.Contains(v) then Ok(Mapping(range, paddr, c.codec.Norm(flags)))
                  else QueryResult(c.geo, old(view), v)
      ensures var (stepped, result) := RemapStep(c, old(mem.Snapshot()), root, range, paddr, flags);
              r == result && SteppedThenFlushed(c, stepped, r.Ok?, range, mem.Snapshot())
      ensures r.Err? ==> mem.Snapshot() == old(mem.Snapshot()) && view == old(view)
      ensures r.Ok? ==>
                var l := ExactLevel(c.geo, old(view), range).value;
                && view == old(view)[c.geo.PathOf(range.start, l - 1) := Leaf(paddr, c.codec.Norm(flags))]
                && OneChange(c, root, old(mem.Snapshot()), mem.Snapshot())
                && AgreeOutside(c, root, old(mem.words), mem.words, range)
                && MapsTo(c, root, mem.words, range, paddr, c.codec.Norm(flags))
    {
      hide Lawful;
      hide Sound;
      hide IsBlock;
      hide Xlate;
      hide RemapStep;
      hide LeafEmission;
      hide OneChange;
      hide NoChange;
      hide HoldsLeaf;
      hide QueryResult;
      r := RemapNoFlush(range, paddr, flags);
      if r.Ok? {
        ghost var changed := mem.Snapshot();
        ExactBlock(c, old(mem.Snapshot()), old(view), root, range, foreign, old(dirty));
        FlushLeafRange(range, ExactLevel(c.geo, old(view), range).value);
        OneThenNoChange(c, root, old(mem.Snapshot()), changed, mem.Snapshot());
      }
    }

    /** Give one leaf that is already there other flags. */
    method Protect(range: AddrRange, flags: F) returns (r: Result<Mapping<F>>)
      requires Valid() && c.codec.encodable(flags)
      modifies this`view, this`dirty, mem
      ensures Valid() && dirty == old(dirty) - (if r.Ok? then AddressesOf(range) else iset{})
      ensures r == ProtectResult(c, old(view), range, flags)
      ensures r.Ok? <==> HoldsLeaf(c.geo, old(view), range)
      ensures r.Ok? ==>
                var q := QueryResult(c.geo, old(view), range.start);
                q.Ok? && q.value.range == range && r.value == Mapping(range, q.value.paddr, flags)
      ensures r.Err? ==> r.error == if c.geo.VaddrIsValid(range.start) then NotMapped else AddressOutOfRange
      ensures r.Ok? ==>
                forall v: nat ::
                  QueryResult(c.geo, view, v) ==
                  if range.Contains(v) then Ok(Mapping(range, r.value.paddr, c.codec.Norm(flags)))
                  else QueryResult(c.geo, old(view), v)
      ensures var (stepped, result) := ProtectStep(c, old(mem.Snapshot()), root, range, flags);
              r == result && SteppedThenFlushed(c, stepped, r.Ok?, range, mem.Snapshot())
      ensures r.Err? ==> mem.Snapshot() == old(mem.Snapshot()) && view == old(view)
      ensures r.Ok? ==>
                var l := ExactLevel(c.geo, old(view), range).value;
                && view == old(view)[c.geo.PathOf(range.start, l - 1) := Leaf(r.value.paddr, c.codec.Norm(flags))]
                && OneChange(c, root, old(mem.Snapshot()), mem.Snapshot())
                && AgreeOutside(c, root, old(mem.words), mem.words, range)
                && MapsTo(c, root, mem.words, range, r.value.paddr, c.codec.Norm(flags))
    {
      hide Lawful;
      hide Sound;
      hide IsBlock;
      hide Xlate;
      hide ProtectStep;
      hide LeafEmission;
      hide OneChange;
      hide NoChange;
      hide HoldsLeaf;
      hide QueryResult;
      r := ProtectNoFlush(range, flags);
      if r.Ok? {
        ghost var changed := mem.Snapshot();
        ExactBlock(c, old(mem.Snapshot()), old(view), root, range, foreign, old(dirty));
        FlushLeafRange(range, ExactLevel(c.geo, old(view), range).value);
        OneThenNoChange(c, root, old(mem.Snapshot()), changed, mem.Snapshot());
      }
    }

    /** Go one level down on the walk of `v`, linking a fresh table under an absent entry. */
    method DescendOrLink(current: nat, level: nat, v: nat) returns (r: Result<nat>)
      requires Valid() && 2 <= level <= c.geo.levels
      requires IsTable(view, c.geo.PathOf(v, level)) && view[c.geo.PathOf(v, level)].frame == current
      modifies this`view, mem
      ensures Valid()
      ensures (mem.Snapshot(), r) == StepDown(c, old(mem.Snapshot()), current, level, v)
      ensures mem.readCount == old(mem.readCount) + 1
      ensures Grew(c.geo, old(view), view, v, level - 1)
      ensures r.Ok? ==> IsTable(view, c.geo.PathOf(v, level - 1)) && view[c.geo.PathOf(v, level - 1)].frame == r.value
      ensures r.Err? ==> r.error != InvalidEntryKind && mem.words == old(mem.words) && view == old(view)
    {
      hide Lawful;
      hide AllocatorOk;
      hide TreeOk;
      hide Matches;
      hide DirtyOnly;
      hide Owns;
      hide NoChange;
      hide Grew;
      hide Store.Put;
      ghost var after := StepDownEffect(c, mem.Snapshot(), view, root, foreign, dirty, v, level);
      EntryOnWalk(c, mem.words, view, root, v, level);
      SlotOnWalk(c, view, root, v, level);
      var idx := c.geo.IndexAt(level, v);
      var pte := mem.ReadEntry(current, idx);
      if c.codec.isPresent(pte) {
        var leaf :- EntryIsLeaf(c, pte, level);
        if leaf {
          return Err(AlreadyMapped);
        }
        r := Ok(c.codec.paddr(pte));
      } else {
        ghost var s := mem.Snapshot();
        AllocStep(c, s);
        var child :- mem.AllocTable(c);
        mem.WriteEntry(current, idx, c.codec.newTable(child, level));
        r := Ok(child);
      }
      view := after;
    }

    /** Map one leaf by a walk from the root, leaving the TLB stale. */
    method MapLeafDirectSizedNoFlush(
        range: AddrRange, paddr: nat, flags: F, size: PageSize, targetLevel: nat) returns (r: Result<()>)
      requires Valid() && LeafRequest(c, range, paddr, flags, size, targetLevel)
      modifies this`view, this`dirty, mem
      ensures Valid()
      ensures (mem.Snapshot(), r) == MapWalk(c, old(mem.Snapshot()), root, c.geo.levels, targetLevel, range.start,
                                             c.codec.newLeaf(paddr, flags, size))
      ensures MapOutcome(c, root, foreign, old(dirty), range, paddr, flags, targetLevel,
                         old(mem.Snapshot()), old(view), mem.Snapshot(), view, r)
      ensures dirty == if r.Ok? then old(dirty) + AddressesOf(range) else old(dirty)
      ensures mem.readCount <= old(mem.readCount) + c.geo.levels
    {
      hide ConfigOk;
      hide Sound;
      hide MapOutcome;
      hide MapWalk;
      hide StepDown;
      hide Grew;
      hide LeafRequest;
      hide Store.Put;
      hide Geometry.PathOf;
      hide AddressesOf;
      var vaddr := range.start;
      ghost var leaf := c.codec.newLeaf(paddr, flags, size);
      ghost var after :=
        WalkPlan(c, mem.Snapshot(), view, root, foreign, dirty, range, paddr, flags, size, targetLevel);
      ghost var done := MapWalk(c, mem.Snapshot(), root, c.geo.levels, targetLevel, vaddr, leaf);
      var current := root;
      var level := c.geo.levels;
      while level > targetLevel
        invariant Valid() && dirty == old(dirty)
        invariant targetLevel <= level <= c.geo.levels
        invariant mem.readCount == old(mem.readCount) + (c.geo.levels - level)
        invariant IsTable(view, c.geo.PathOf(vaddr, level)) && view[c.geo.PathOf(vaddr, level)].frame == current
        invariant MapWalk(c, mem.Snapshot(), current, level, targetLevel, vaddr, leaf) == done
      {
        WalkStepsDown(c, mem.Snapshot(), current, level, targetLevel, vaddr, leaf);
        var next := DescendOrLink(current, level, vaddr);
        if next.Err? {
          view := after;
          return Err(next.error);
        }
        current := next.value;
        level := level - 1;
      }
      InstallsHere(c, mem.Snapshot(), view, root, foreign, dirty, vaddr, targetLevel, leaf);
      var idx := c.geo.IndexAt(level, vaddr);
      var existing := mem.ReadEntry(current, idx);
      if c.codec.isPresent(existing) {
        view := after;
        return Err(AlreadyMapped);
      }
      mem.WriteEntry(current, idx, c.codec.newLeaf(paddr, flags, size));
      view, dirty := after, dirty + AddressesOf(range);
      return Ok(());
    }

    /** Whether a live table holds no present entry. */
    method IsTableEmpty(table: nat) returns (empty: bool)
      requires table in mem.words && |mem.words[table]| == c.geo.EntriesPerTable()
      modifies mem`readCount
      ensures empty <==> TableEmpty(c, mem.words, table)
    {
      for i := 0 to c.geo.EntriesPerTable()
        invariant forall k: nat :: k < i ==> !c.codec.isPresent(mem.words[table][k])
      {
        var pte := mem.ReadEntry(table, i);
        if c.codec.isPresent(pte) {
          return false;
        }
      }
      return true;
    }

    /** Walk back up the parent stack: unlink and free tables until one is still in use. */
    method ReclaimEmptyTables(vaddr: nat, parents: array<(nat, nat)>, depth: nat, childTable: nat)
      requires Valid() && depth < c.geo.levels && depth <= parents.Length
      requires IsTable(view, c.geo.PathOf(vaddr, c.geo.levels - depth))
      requires view[c.geo.PathOf(vaddr, c.geo.levels - depth)].frame == childTable
      requires StackOk(c.geo, view, vaddr, parents[..depth])
      modifies this`view, mem
      ensures Valid()
      ensures view == Pruned(c.geo, old(view), vaddr, c.geo.levels - depth)
      ensures NoChange(c, root, old(mem.Snapshot()), mem.Snapshot())
      ensures mem.Snapshot() == PruneFrom(c, old(mem.Snapshot()), parents[..depth], childTable)
    {
      hide ConfigOk;
      hide Sound;
      hide NoChange;
      hide StackOk;
      hide Pruned;
      hide PruneFrom;
      hide TableEmpty;
      hide Geometry.PathOf;
      hide Store.Put;
      hide Store.Free;
      hide Lawful;
      hide Geometry.Span;
      hide LevelOf;
      hide Quiet;
      hide Geometry.IndexAt;
      hide Geometry.VaddrIsValid;
      var top, child := depth, childTable;
      ghost var stack, done := parents[..depth], PruneFrom(c, mem.Snapshot(), parents[..depth], childTable);
      ghost var pruned := Pruned(c.geo, view, vaddr, c.geo.levels - depth);
      NoChangeRefl(c, root, mem.Snapshot(), mem.Snapshot());
      while top > 0
        invariant Valid() && 0 <= top <= depth && stack == parents[..top]
        invariant IsTable(view, c.geo.PathOf(vaddr, c.geo.levels - top))
        invariant view[c.geo.PathOf(vaddr, c.geo.levels - top)].frame == child
        invariant StackOk(c.geo, view, vaddr, stack)
        invariant Pruned(c.geo, view, vaddr, c.geo.levels - top) == pruned
        invariant NoChange(c, root, old(mem.Snapshot()), mem.Snapshot())
        invariant PruneFrom(c, mem.Snapshot(), stack, child) == done
      {
        ghost var s := mem.Snapshot();
        ReclaimRound(c, s, view, root, foreign, dirty, vaddr, stack, child);
        var (parent, parentIdx) := parents[top - 1];
        var empty := IsTableEmpty(child);
        if !empty {
          return;
        }
        mem.WriteEntry(parent, parentIdx, c.codec.zero);
        mem.FreeTable(child);
        NoChangeTrans(c, root, old(mem.Snapshot()), s, mem.Snapshot());
        view := view - {c.geo.PathOf(vaddr, c.geo.levels - top)};
        top := top - 1;
        stack := stack[..top];
        child := parent;
      }
      PrunedAtRoot(c, view, vaddr, mem.Snapshot(), child);
    }

    /** Find the leaf that covers exactly `range`, remembering the tables walked above it. */
    method DescendWithParents(range: AddrRange, parents: array<(nat, nat)>)
        returns (r: Result<LeafSlot<W>>, depth: nat)
      requires Valid() && parents.Length == MAX_LEVELS
      modifies mem`readCount, parents
      ensures AnswersExact(c, view, range, r)
      ensures match ExactLeaf(c, mem.Snapshot(), root, range)
              case Err(e) => r == Err(e)
              case Ok((slot, passed)) => r == Ok(slot) && depth <= MAX_LEVELS && passed == parents[..depth]
      ensures r.Ok? ==> depth == c.geo.levels - ExactLevel(c.geo, view, range).value <= MAX_LEVELS
      ensures depth <= MAX_LEVELS && StackOk(c.geo, view, range.start, parents[..depth])
    {
      hide Lawful;
      hide AllocatorOk;
      hide Sound;
      hide Represents;
      hide TreeOk;
      hide Canonical;
      hide StackOk;
      hide IsBlock;
      hide ExactLevel;
      hide CheckExact;
      hide EntryIsLeaf;
      hide AnswersExact;
      hide LeafLevel;
      hide Geometry.PathOf;
      hide FindLeaf;
      hide Geometry.IndexAt;
      SoundTree(c, mem.Snapshot(), view, root, foreign, dirty);
      var vaddr := range.start;
      depth := 0;
      NoStack(c.geo, view, vaddr);
      ExactNeedsValid(c, view, range);
      if !c.geo.VaddrIsValid(vaddr) {
        return Err(AddressOutOfRange), depth;
      }
      RootOnWalk(c, view, root, vaddr);
      LawfulLevels(c);
      var current := root;
      var level := c.geo.levels;
      ghost var stack: seq<(nat, nat)> := [];
      ghost var found := FindLeaf(c, mem.words, root, level, range, []);
      while true
        invariant 1 <= level <= c.geo.levels && depth == c.geo.levels - level
        invariant IsTable(view, c.geo.PathOf(vaddr, level)) && view[c.geo.PathOf(vaddr, level)].frame == current
        invariant LeafLevel(c.geo, view, vaddr, level) == LeafLevel(c.geo, view, vaddr, c.geo.levels)
        invariant parents[..depth] == stack && StackOk(c.geo, view, vaddr, stack)
        invariant FindLeaf(c, mem.words, current, level, range, stack) == found
        decreases level
      {
        WalkStep(c, mem.words, view, root, vaddr, level);
        FindLeafStep(c, mem.words, current, level, range, stack);
        var idx := c.geo.IndexAt(level, vaddr);
        var pte := mem.ReadEntry(current, idx);
        if !c.codec.isPresent(pte) {
          NoExactLeaf(c.geo, view, range);
          AnswerErr(c, view, range, NotMapped);
          return Err(NotMapped), depth;
        }
        match EntryIsLeaf(c, pte, level) {
          case Err(e) =>
            return Err(e), depth;
          case Ok(leaf) =>
            if leaf {
              CheckExactMeaning(c, view, root, range, current, idx, pte, level);
              var slot := CheckExact(c, range, current, idx, pte, level);
              return slot, depth;
            }
        }
        if depth >= MAX_LEVELS {
          return Err(AddressOutOfRange), depth;
        }
        ToppedStack(c.geo, view, vaddr, stack, (current, idx));
        parents[depth] := (current, idx);
        stack := stack + [(current, idx)];
        depth := depth + 1;
        current := c.codec.paddr(pte);
        level := level - 1;
      }
    }

    /** Remove an exact leaf and reclaim the tables it leaves empty; the TLB stays stale. */
    method UnmapNoFlush(range: AddrRange) returns (r: Result<Mapping<F>>)
      requires Valid()
      modifies this`view, this`dirty, mem
      ensures Valid()
      ensures r.Err? ==> mem.Snapshot() == old(mem.Snapshot()) && view == old(view) && dirty == old(dirty)
      ensures r == UnmapResult(c, old(view), range)
      ensures r.Ok? <==> HoldsLeaf(c.geo, old(view), range)
      ensures r.Ok? ==> r == QueryResult(c.geo, old(view), range.start) && r.value.range == range
      ensures r.Err? ==> r.error == if c.geo.VaddrIsValid(range.start) then NotMapped else AddressOutOfRange
      ensures r.Ok? ==>
                forall v: nat ::
                  QueryResult(c.geo, view, v) ==
                  if range.Contains(v) then Err(NotMapped) else QueryResult(c.geo, old(view), v)
      ensures (mem.Snapshot(), r) == UnmapStep(c, old(mem.Snapshot()), root, range)
      ensures r.Ok? ==>
                dirty == old(dirty) + AddressesOf(range)
                && LeafRemoved(c, root, foreign, old(dirty), range, ExactLevel(c.geo, old(view), range).value,
                               old(mem.Snapshot()), old(view), mem.Snapshot(), view)
    {
      hide Lawful;
      hide AllocatorOk;
      hide Sound;
      hide IsBlock;
      hide OneChange;
      hide NoChange;
      hide AgreeOutside;
      hide MapsNothing;
      hide LeafRemoved;
      hide Pruned;
      hide ExactLeaf;
      hide PruneFrom;
      hide StackOk;
      hide AnswersExact;
      hide UnmapResult;
      hide ExactLevel;
      hide Geometry.PathOf;
      hide Geometry.IndexAt;
      hide Matches;
      hide TreeOk;
      hide Represents;
      hide Store.Put;
      var vaddr := range.start;
      hide HoldsLeaf;
      hide QueryResult;
      SoundTree(c, mem.Snapshot(), view, root, foreign, dirty);
      UnmapMeaning(c, view, root, range, UnmapResult(c, view, range));
      var parents := new (nat, nat)[MAX_LEVELS](_ => (0, 0));
      var found, depth := DescendWithParents(range, parents);
      UnmapAnswer(c, view, range, found);
      var slot :- found;
      AnswerLevel(c, view, range, slot);
      ghost var level := ExactLevel(c.geo, view, range).value;
      ghost var p := c.geo.PathOf(vaddr, level - 1);
      var mapping := Mapping(range, c.codec.paddr(slot.word), c.codec.flags(slot.word));
      ClearEffect(c, mem.Snapshot(), view, root, foreign, dirty, range, level);
      mem.WriteEntry(slot.frame, slot.index, c.codec.zero);
      ghost var cleared := mem.Snapshot();
      StackWithoutLeaf(c.geo, view, vaddr, p, parents[..depth]);
      view, dirty := view - {p}, dirty + AddressesOf(range);
      ReclaimEmptyTables(vaddr, parents, depth, slot.frame);
      RemovedAfterPruning(c, root, foreign, old(dirty), range, level, old(mem.Snapshot()), old(view),
                          cleared, mem.Snapshot(), view);
      RemovedAnswers(c, root, foreign, old(dirty), range, level, old(mem.Snapshot()), old(view),
                     mem.Snapshot(), view);
      return Ok(mapping);
    }

    /** Write the pieces of a leaf into a frame that is not yet part of the tree. */
    method FillWithLeaves(child: nat, paddr: nat, flags: F, size: PageSize, ghost level: nat)
      requires ConfigOk(c) && Detached(c, mem.Snapshot(), view, root, dirty, child)
      requires c.geo.LevelSupportsLeaf(level, size) && c.codec.encodable(flags) && c.codec.Norm(flags) == flags
      requires PiecesFit(c.geo, level, paddr)
      modifies mem`words, mem`log
      ensures Detached(c, mem.Snapshot(), view, root, dirty, child)
      ensures FilledWith(c, mem.words[child], level, paddr, flags, c.geo.EntriesPerTable())
      ensures mem.words == old(mem.words)[child := mem.words[child]]
      ensures mem.Snapshot() ==
              FilledFrom(c, old(mem.Snapshot()), child, paddr, flags, size, c.geo.EntriesPerTable())
      ensures NoChange(c, root, old(mem.Snapshot()), mem.Snapshot())
    {
      hide Lawful;
      hide AllocatorOk;
      hide Represents;
      hide DirtyOnly;
      hide NoChange;
      hide Store.Put;
      hide FilledWith;
      hide Detached;
      hide PiecesFit;
      hide ConfigOk;
      hide Codec.Norm;
      hide Geometry.LeafSizeAtLevel;
      c.geo.SizeIsSpan(level, size);
      FillStarts(c, mem.Snapshot(), view, root, dirty, child, level, paddr, flags);
      NoChangeRefl(c, root, mem.Snapshot(), mem.Snapshot());
      for i := 0 to c.geo.EntriesPerTable()
        invariant Detached(c, mem.Snapshot(), view, root, dirty, child) && child in mem.words
        invariant FilledWith(c, mem.words[child], level, paddr, flags, i)
        invariant mem.words == old(mem.words)[child := mem.words[child]]
        invariant mem.Snapshot() == FilledFrom(c, old(mem.Snapshot()), child, paddr, flags, size, i)
        invariant NoChange(c, root, old(mem.Snapshot()), mem.Snapshot())
      {
        ghost var s := mem.Snapshot();
        FillStep(c, s, view, root, dirty, child, level, paddr, flags, size, i);
        var subPaddr := paddr + i * size.Bytes();
        mem.WriteEntry(child, i, c.codec.newLeaf(subPaddr, flags, size));
        NoChangeTrans(c, root, old(mem.Snapshot()), s, mem.Snapshot());
      }
    }

    /** Remove the exact leaf at `range` and reclaim the tables it leaves empty. */
    method Unmap(range: AddrRange) returns (r: Result<Mapping<F>>)
      requires Valid()
      modifies this`view, this`dirty, mem
      ensures Valid() && dirty == old(dirty) - (if r.Ok? then AddressesOf(range) else iset{})
      ensures r == UnmapResult(c, old(view), range)
      ensures r.Ok? <==> HoldsLeaf(c.geo, old(view), range)
      ensures r.Ok? ==> r == QueryResult(c.geo, old(view), range.start) && r.value.range == range
      ensures r.Err? ==> r.error == if c.geo.VaddrIsValid(range.start) then NotMapped else AddressOutOfRange
      ensures r.Ok? ==>
                forall v: nat ::
                  QueryResult(c.geo, view, v) ==
                  if range.Contains(v) then Err(NotMapped) else QueryResult(c.geo, old(view), v)
      ensures var (stepped, result) := UnmapStep(c, old(mem.Snapshot()), root, range);
              r == result && SteppedThenFlushed(c, stepped, r.Ok?, range, mem.Snapshot())
      ensures r.Err? ==> mem.Snapshot() == old(mem.Snapshot()) && view == old(view)
      ensures r.Ok? ==>
                var l := ExactLevel(c.geo, old(view), range).value;
                && view == Pruned(c.geo, old(view) - {c.geo.PathOf(range.start, l - 1)}, range.start, l)
                && OneChange(c, root, old(mem.Snapshot()), mem.Snapshot())
                && AgreeOutside(c, root, old(mem.words), mem.words, range)
                && MapsNothing(c, root, mem.words, range)
    {
      hide Lawful;
      hide Sound;
      hide IsBlock;
      hide Xlate;
      hide UnmapStep;
      hide LeafEmission;
      hide OneChange;
      hide NoChange;
      hide Pruned;
      hide HoldsLeaf;
      hide QueryResult;
      r := UnmapNoFlush(range);
      if r.Ok? {
        ghost var changed := mem.Snapshot();
        ExactBlock(c, old(mem.Snapshot()), old(view), root, range, foreign, old(dirty));
        FlushLeafRange(range, ExactLevel(c.geo, old(view), range).value);
        OneThenNoChange(c, root, old(mem.Snapshot()), changed, mem.Snapshot());
      }
    }

    /** Replace a leaf found above level 1 by a fresh table of its pieces. */
    method SplitLeaf(range: AddrRange, slot: LeafSlot<W>) returns (r: Result<PageSize>)
      requires Valid() && AnswersExact(c, view, range, Ok(slot)) && slot.level >= 2
      modifies this`view, mem
      ensures Valid() && NoChange(c, root, old(mem.Snapshot()), mem.Snapshot())
      ensures r.Err? ==> mem.words == old(mem.words) && view == old(view)
      ensures SplitOutcome(c, old(mem.Snapshot()), old(view), range, slot.level, view, r)
      ensures (mem.Snapshot(), r) == SplitSlot(c, old(mem.Snapshot()), slot)
    {
      hide Lawful;
      hide AllocatorOk;
      hide Sound;
      hide Detached;
      hide IsBlock;
      hide NoChange;
      hide SplitView;
      hide Represents;
      hide TreeOk;
      hide Geometry.PathOf;
      hide FilledWith;
      hide PiecesFit;
      hide Store.Put;
      hide Store.Alloc;
      hide AnswersExact;
      hide Geometry.LeafSizeAtLevel;
      hide Geometry.IndexAt;
      hide Geometry.Shift;
      hide FilledFrom;
      ghost var level := slot.level;
      ghost var p := c.geo.PathOf(range.start, level - 1);
      ghost var s := mem.Snapshot();
      AnswerLevel(c, view, range, slot);
      SplitPieces(c, s, view, root, foreign, dirty, p, level);
      var leafPaddr, leafFlags := c.codec.paddr(slot.word), c.codec.flags(slot.word);
      var finerSize :- c.geo.LeafSizeAtLevel(slot.level - 1).OkOr(UnsupportedSize);
      DetachedAfterAlloc(c, s, view, root, foreign, dirty);
      var child :- mem.AllocTable(c);
      ghost var s1 := mem.Snapshot();
      FillWithLeaves(child, leafPaddr, leafFlags, finerSize, level - 1);
      ghost var s2 := mem.Snapshot();
      SplitFinish(c, s, s1, s2, view, root, foreign, dirty, range, level, child);
      mem.WriteEntry(slot.frame, slot.index, c.codec.newTable(child, slot.level));
      view := SplitView(view, p, child, leafPaddr, leafFlags, c.geo.Span(level - 1), c.geo.EntriesPerTable());
      return Ok(finerSize);
    }

    /** Put a table of smaller leaves where one large leaf is, mapping the same. */
    method SplitAt(range: AddrRange) returns (r: Result<PageSize>)
      requires Valid()
      modifies this`view, this`dirty, mem
      ensures Valid() && dirty == old(dirty) - (if r.Ok? then AddressesOf(range) else iset{})
      ensures NoChange(c, root, old(mem.Snapshot()), mem.Snapshot())
      ensures r.Err? ==> mem.words == old(mem.words) && view == old(view)
      ensures match ExactLevel(c.geo, old(view), range)
              case Err(e) => r == Err(e)
              case Ok(l) => if l == 1 then r == Err(NotMapped)
                            else SplitOutcome(c, old(mem.Snapshot()), old(view), range, l, view, r)
      ensures r.Ok? <==>
                && HoldsLeaf(c.geo, old(view), range) && range.Size() > c.geo.Span(1)
                && old(mem.Snapshot()).Alloc(c).1.Ok?
      ensures r.Err? ==>
                if !c.geo.VaddrIsValid(range.start) then r.error == AddressOutOfRange
                else if !HoldsLeaf(c.geo, old(view), range) || range.Size() == c.geo.Span(1) then r.error == NotMapped
                else old(mem.Snapshot()).Alloc(c).1 == Err(r.error)
      ensures r.Ok? ==>
                var q := QueryResult(c.geo, old(view), range.start);
                && r.value.Bytes() * c.geo.EntriesPerTable() == range.Size()
                && q.Ok? && q.value.range == range
                && forall v: nat ::
                     QueryResult(c.geo, view, v) ==
                     if range.Contains(v) then Ok(PieceAround(q.value, r.value.Bytes(), v))
                     else QueryResult(c.geo, old(view), v)
      ensures var (stepped, result) := SplitStep(c, old(mem.Snapshot()), root, range);
              r == result && SteppedThenFlushed(c, stepped, r.Ok?, range, mem.Snapshot())
    {
      hide Lawful;
      hide AllocatorOk;
      hide Sound;
      hide IsBlock;
      hide NoChange;
      hide SplitOutcome;
      hide SplitSlot;
      hide ExactLeaf;
      hide LeafEmission;
      hide HoldsLeaf;
      hide QueryResult;
      hide PieceAround;
      hide PageSize.Bytes;
      hide Geometry.EntriesPerTable;
      hide Geometry.Span;
      hide Store.Alloc;
      hide TreeOk;
      NoChangeRefl(c, root, mem.Snapshot(), mem.Snapshot());
      SoundTree(c, mem.Snapshot(), view, root, foreign, dirty);
      var found := ExactLeafSlot(range);
      if found.Err? {
        SplitMeaning(c, mem.Snapshot(), view, root, range, view, Err(found.error));
        return Err(found.error);
      }
      var slot := found.value;
      if slot.level == 1 {
        SplitMeaning(c, mem.Snapshot(), view, root, range, view, Err(NotMapped));
        return Err(NotMapped);
      }
      r := SplitLeaf(range, slot);
      SplitMeaning(c, old(mem.Snapshot()), old(view), root, range, view, r);
      if r.Ok? {
        ghost var s := mem.Snapshot();
        SoundTree(c, s, view, root, foreign, dirty);
        SplitAnswers(c, old(mem.Snapshot()), old(view), root, range, slot.level, view, r);
        FlushLeafRange(range, slot.level);
        NoChangeTrans(c, root, old(mem.Snapshot()), s, mem.Snapshot());
      }
    }

    /** Check that a child table holds one aligned, contiguous run of leaves with equal
        flags; the base and flags of the run. */
    method CheckRun(childTable: nat, targetSize: PageSize, finerSize: PageSize, finerLevel: nat, ghost p: Path)
        returns (r: Result<Hit<F>>)
      requires Valid() && IsTable(view, p) && view[p].frame == childTable
      requires 1 <= finerLevel && TableLevel(c.geo, p) == finerLevel
      requires c.geo.LeafSizeAtLevel(finerLevel) == Some(finerSize)
      requires c.geo.LeafSizeAtLevel(finerLevel + 1) == Some(targetSize)
      modifies mem`readCount
      ensures r.Ok? <==> Mergeable(c.geo, view, p, finerLevel + 1)
      ensures r.Ok? ==> view[Step(p, 0)] == Leaf(r.value.paddr, r.value.flags)
      ensures r.Err? ==> r.error == NotCoalescable
      ensures childTable in mem.words && r == RunIn(c, mem.words[childTable], targetSize, finerSize, finerLevel)
    {
      hide Lawful;
      hide AllocatorOk;
      hide Sound;
      hide Represents;
      hide ReadLeaf;
      hide Mergeable;
      hide RunUpTo;
      hide TreeOk;
      hide Geometry.LeafSizeAtLevel;
      hide PageSize.Bytes;
      hide RunFrom;
      hide RunIn;
      SoundTree(c, mem.Snapshot(), view, root, foreign, dirty);
      c.geo.SizeIsSpan(finerLevel, finerSize);
      c.geo.SizeIsSpan(finerLevel + 1, targetSize);
      ChildEntries(c, mem.words, view, root, p, finerLevel);
      FirstOfRun(c, mem.words, view, root, p, finerLevel);
      ghost var words := mem.words[childTable];
      RunInStarts(c, words, targetSize, finerSize, finerLevel);
      var first := mem.ReadEntry(childTable, 0);
      var base :- ReadLeaf(c, first, finerLevel);
      if !targetSize.IsAligned(base.paddr) {
        return Err(NotCoalescable);
      }
      ghost var whole := RunFrom(c, words, base, finerSize, finerLevel, 1);
      for i := 1 to c.geo.EntriesPerTable()
        invariant RunUpTo(c.geo, view, p, finerLevel, base.paddr, base.flags, i)
        invariant RunFrom(c, words, base, finerSize, finerLevel, i) == whole
      {
        NextOfRun(c, mem.words, view, root, p, finerLevel, base.paddr, base.flags, i);
        RunFromStep(c, words, base, finerSize, finerLevel, i);
        var pte := mem.ReadEntry(childTable, i);
        var leaf :- ReadLeaf(c, pte, finerLevel);
        if leaf.flags != base.flags {
          return Err(NotCoalescable);
        }
        var expected := base.paddr + i * finerSize.Bytes();
        if leaf.paddr != expected {
          return Err(NotCoalescable);
        }
      }
      RunEnds(c.geo, view, p, finerLevel, base.paddr, base.flags);
      RunFromStep(c, words, base, finerSize, finerLevel, 0);
      return Ok(base);
    }

    /** Descend to the table at `targetLevel` on the walk of `vaddr`. */
    method DescendToTable(vaddr: nat, targetLevel: nat) returns (r: Result<nat>)
      requires Valid() && 1 <= targetLevel <= c.geo.levels
      modifies mem`readCount
      ensures r.Ok? <==> IsTable(view, c.geo.PathOf(vaddr, targetLevel))
      ensures r.Ok? ==> view[c.geo.PathOf(vaddr, targetLevel)].frame == r.value
      ensures r.Err? ==> r.error == NotMapped
      ensures r == FindTable(c, mem.words, root, c.geo.levels, targetLevel, vaddr)
    {
      hide Lawful;
      hide AllocatorOk;
      hide Sound;
      hide Represents;
      hide TreeOk;
      hide EntryIsLeaf;
      hide Geometry.PathOf;
      SoundTree(c, mem.Snapshot(), view, root, foreign, dirty);
      RootOnWalk(c, view, root, vaddr);
      var current := root;
      var level := c.geo.levels;
      ghost var found := FindTable(c, mem.words, root, level, targetLevel, vaddr);
      while level > targetLevel
        invariant targetLevel <= level <= c.geo.levels
        invariant IsTable(view, c.geo.PathOf(vaddr, level)) && view[c.geo.PathOf(vaddr, level)].frame == current
        invariant FindTable(c, mem.words, current, level, targetLevel, vaddr) == found
      {
        DescendStep(c, mem.words, view, root, vaddr, level, targetLevel);
        var pte := mem.ReadEntry(current, c.geo.IndexAt(level, vaddr));
        if !c.codec.isPresent(pte) {
          return Err(NotMapped);
        }
        var leaf :- EntryIsLeaf(c, pte, level);
        if leaf {
          return Err(NotMapped);
        }
        current := c.codec.paddr(pte);
        level := level - 1;
      }
      return Ok(current);
    }

    /** Replace a child table whose entries are one run by the leaf that they amount to. */
    method InstallMerged(range: AddrRange, current: nat, idx: nat, childTable: nat, base: Hit<F>,
                         targetSize: PageSize, targetLevel: nat)
      requires Valid() && IsBlock(c.geo, range, targetLevel) && c.geo.LevelSupportsLeaf(targetLevel, targetSize)
      requires IsTable(view, c.geo.PathOf(range.start, targetLevel)) && targetLevel >= 1
      requires view[c.geo.PathOf(range.start, targetLevel)].frame == current
      requires idx == c.geo.IndexAt(targetLevel, range.start)
      requires var p := c.geo.PathOf(range.start, targetLevel - 1);
               && Mergeable(c.geo, view, p, targetLevel) && view[p].frame == childTable
               && view[Step(p, 0)] == Leaf(base.paddr, base.flags)
      modifies this`view, this`dirty, mem
      ensures Valid() && NoChange(c, root, old(mem.Snapshot()), mem.Snapshot())
      ensures view == MergeView(old(view), c.geo.PathOf(range.start, targetLevel - 1), base.paddr, base.flags,
                                c.geo.EntriesPerTable())
      ensures dirty == old(dirty) - AddressesOf(range)
      ensures var w := c.codec.newLeaf(base.paddr, base.flags, targetSize);
              SteppedThenFlushed(c, old(mem.Snapshot()).Put(current, idx, w).Free(childTable), true, range,
                                 mem.Snapshot())
    {
      hide ConfigOk;
      hide Sound;
      hide IsBlock;
      hide NoChange;
      hide MergeView;
      hide Mergeable;
      hide Geometry.PathOf;
      hide Geometry.IndexAt;
      hide Store.Put;
      hide Store.Free;
      hide AddressesOf;
      hide LeafEmission;
      ghost var s, p := mem.Snapshot(), c.geo.PathOf(range.start, targetLevel - 1);
      MergeInstalls(c, s, view, root, foreign, dirty, range, targetLevel, targetSize);
      mem.WriteEntry(current, idx, c.codec.newLeaf(base.paddr, base.flags, targetSize));
      mem.FreeTable(childTable);
      view := MergeView(view, p, base.paddr, base.flags, c.geo.EntriesPerTable());
      ghost var merged := mem.Snapshot();
      FlushLeafRange(range, targetLevel);
      NoChangeTrans(c, root, s, merged, mem.Snapshot());
    }

    /** Merge the slot of `range` in the table `current`, if its child table is one run. */
    method MergeSlot(range: AddrRange, current: nat, targetSize: PageSize, targetLevel: nat)
        returns (r: Result<PageSize>)
      requires Valid() && IsBlock(c.geo, range, targetLevel) && c.geo.LevelSupportsLeaf(targetLevel, targetSize)
      requires targetLevel >= 2 && c.geo.LeafSizeAtLevel(targetLevel - 1).Some?
      requires IsTable(view, c.geo.PathOf(range.start, targetLevel))
      requires view[c.geo.PathOf(range.start, targetLevel)].frame == current
      requires MergeSite(c.geo, view, range) ==
                 if c.geo.PathOf(range.start, targetLevel - 1) in view then Ok(targetLevel) else Err(NotMapped)
      modifies this`view, this`dirty, mem
      ensures Valid() && NoChange(c, root, old(mem.Snapshot()), mem.Snapshot())
      ensures MergeAnswer(c.geo, old(view), range, r)
      ensures MergeHappens(c.geo, old(view), range) ==>
                var p := c.geo.PathOf(range.start, targetLevel - 1);
                var first := old(view)[Step(p, 0)];
                && view == MergeView(old(view), p, first.paddr, first.flags, c.geo.EntriesPerTable())
                && dirty == old(dirty) - AddressesOf(range)
      ensures !MergeHappens(c.geo, old(view), range) ==>
                mem.Snapshot() == old(mem.Snapshot()) && view == old(view) && dirty == old(dirty)
      ensures var s := old(mem.Snapshot());
              var (stepped, result) := MergeEntry(c, s, current, range.start, targetSize, targetLevel);
              r == result && SteppedThenFlushed(c, stepped, stepped != s, range, mem.Snapshot())
    {
      hide Lawful;
      hide AllocatorOk;
      hide Sound;
      hide Represents;
      hide IsBlock;
      hide NoChange;
      hide MergeView;
      hide Mergeable;
      hide MergeSite;
      hide MergeAnswer;
      hide MergeHappens;
      hide Geometry.LeafSizeAtLevel;
      hide EntryIsLeaf;
      hide TreeOk;
      hide Geometry.PathOf;
      hide Store.Put;
      hide Store.Free;
      hide AddressesOf;
      hide IsTable;
      hide RunIn;
      hide MergeEntry;
      hide MergeChild;
      hide LeafEmission;
      ghost var s := mem.Snapshot();
      NoChangeRefl(c, root, s, s);
      SoundTree(c, s, view, root, foreign, dirty);
      ghost var p := c.geo.PathOf(range.start, targetLevel - 1);
      DescendStep(c, mem.words, view, root, range.start, targetLevel, targetLevel);
      MergeDecides(c.geo, view, range, targetLevel, targetSize);
      MergeEntryAt(c, s, current, range.start, targetSize, targetLevel);
      var idx := c.geo.IndexAt(targetLevel, range.start);
      var parent := mem.ReadEntry(current, idx);
      if !c.codec.isPresent(parent) {
        return Err(NotMapped);
      }
      var leaf :- EntryIsLeaf(c, parent, targetLevel);
      if leaf {
        return Ok(targetSize);
      }
      var childTable := c.codec.paddr(parent);
      var finerSize :- c.geo.LeafSizeAtLevel(targetLevel - 1).OkOr(UnsupportedSize);
      ChildEntries(c, mem.words, view, root, p, targetLevel - 1);
      MergeChildAt(c, s, current, idx, childTable, targetSize, finerSize, targetLevel);
      var base :- CheckRun(childTable, targetSize, finerSize, targetLevel - 1, p);
      MergeNeedsTable(c.geo, view, p, targetLevel);
      InstallMerged(range, current, idx, childTable, base, targetSize, targetLevel);
      return Ok(targetSize);
    }

    /** The checks of a merge, and the descent to the table that holds the slot of `range`: the
        size and level of the leaf to be, and that table. */
    method FindMergeSite(range: AddrRange) returns (r: Result<(PageSize, nat, nat)>)
      requires Valid() && range.Valid()
      modifies mem`readCount
      ensures match r
              case Err(e) =>
                && MergeAnswer(c.geo, view, range, Err(e)) && !MergeHappens(c.geo, view, range)
                && MergeStep(c, mem.Snapshot(), root, range) == (mem.Snapshot(), Err(e))
              case Ok((size, level, current)) =>
                && IsBlock(c.geo, range, level) && c.geo.LevelSupportsLeaf(level, size)
                && level >= 2 && c.geo.LeafSizeAtLevel(level - 1).Some?
                && IsTable(view, c.geo.PathOf(range.start, level))
                && view[c.geo.PathOf(range.start, level)].frame == current
                && MergeSite(c.geo, view, range) ==
                     (if c.geo.PathOf(range.start, level - 1) in view then Ok(level) else Err(NotMapped))
                && MergeStep(c, mem.Snapshot(), root, range) ==
                     MergeEntry(c, mem.Snapshot(), current, range.start, size, level)
    {
      hide MergeEntry;
      hide FindTable;
      hide Lawful;
      hide AllocatorOk;
      hide Sound;
      hide Mergeable;
      hide IsBlock;
      hide CheckLeafRange;
      var targetSize :- CheckLeafRange(c.geo, range);
      var supported := SizeToLevel(c.geo, targetSize);
      var targetLevel :- supported.OkOr(UnsupportedSize);
      MergeTarget(c.geo, range, targetSize, targetLevel);
      if targetLevel <= 1 {
        return Err(NotCoalescable);
      }
      var current :- DescendToTable(range.start, targetLevel);
      MergeSiteAt(c.geo, view, range, targetSize, targetLevel);
      return Ok((targetSize, targetLevel, current));
    }

    /** Coalesce the finer leaves of `range` into one leaf. */
    method MergeAt(range: AddrRange) returns (r: Result<PageSize>)
      requires Valid() && range.Valid()
      modifies this`view, this`dirty, mem
      ensures Valid() && NoChange(c, root, old(mem.Snapshot()), mem.Snapshot())
      ensures MergeAnswer(c.geo, old(view), range, r)
      ensures r.Ok? <==>
                exists l: nat ::
                  && 2 <= l <= c.geo.leafLevels && IsBlock(c.geo, range, l) && range.Size() > 0
                  && (|| HoldsLeaf(c.geo, old(view), range)
                      || AnswersInPieces(c.geo, old(view), range, c.geo.Span(l - 1)))
      ensures r.Ok? ==> r.value.Bytes() == range.Size()
      ensures r.Ok? ==>
                var q := QueryResult(c.geo, old(view), range.start);
                && q.Ok?
                && forall v: nat ::
                     QueryResult(c.geo, view, v) ==
                     if range.Contains(v) then Ok(Mapping(range, q.value.paddr, q.value.flags))
                     else QueryResult(c.geo, old(view), v)
      ensures MergeHappens(c.geo, old(view), range) ==>
                var p := c.geo.PathOf(range.start, MergeSite(c.geo, old(view), range).value - 1);
                var first := old(view)[Step(p, 0)];
                && view == MergeView(old(view), p, first.paddr, first.flags, c.geo.EntriesPerTable())
                && dirty == old(dirty) - AddressesOf(range)
      ensures !MergeHappens(c.geo, old(view), range) ==>
                mem.Snapshot() == old(mem.Snapshot()) && view == old(view) && dirty == old(dirty)
      ensures var (stepped, result) := MergeStep(c, old(mem.Snapshot()), root, range);
              r == result && SteppedThenFlushed(c, stepped, stepped != old(mem.Snapshot()), range, mem.Snapshot())
    {
      hide MergeEntry;
      hide MergeStep;
      hide LeafEmission;
      hide Lawful;
      hide AllocatorOk;
      hide Sound;
      hide NoChange;
      hide MergeView;
      hide Mergeable;
      hide IsBlock;
      hide MergeSite;
      hide MergeAnswer;
      hide HoldsLeaf;
      hide QueryResult;
      hide AnswersInPieces;
      hide Represents;
      hide Machine.Snapshot;
      hide TreeOk;
      hide Geometry.PathOf;
      hide PageSize.Bytes;
      hide Geometry.Span;
      ghost var s, before := mem.Snapshot(), view;
      NoChangeRefl(c, root, s, s);
      SoundTree(c, s, before, root, foreign, dirty);
      var site := FindMergeSite(range);
      if site.Err? {
        MergeMeaning(c, before, root, range, Err(site.error));
        return Err(site.error);
      }
      var (targetSize, targetLevel, current) := site.value;
      r := MergeSlot(range, current, targetSize, targetLevel);
      MergeMeaning(c, before, root, range, r);
      if r.Ok? {
        SoundTree(c, mem.Snapshot(), view, root, foreign, dirty);
        MergeAnswers(c, before, root, range, view, r);
      }
    }

    /** Free the table at `p` and every table below it; each frame is freed once, and the
        frames that leaves point at are not touched. */
    method DropSubtree(paddr: nat, level: nat, ghost p: Path, ghost m: map<nat, seq<W>>)
      requires c.geo.Lawful() && Represents(c, m, view, root)
      requires IsTable(view, p) && view[p].frame == paddr && TableLevel(c.geo, p) == level
      requires Intact(view, p, m, mem.words)
      modifies mem
      ensures mem.words == old(mem.words) - SubFrames(view, p)
      ensures old(mem.log) < mem.log && Current(mem.log) == mem.words
      decreases level
    {
      hide Represents;
      hide BelowFrames;
      hide SubFrames;
      hide Intact;
      TeardownStart(c, view, root, p, m, mem.words);
      ChildEntries(c, m, view, root, p, level);
      if level > 1 {
        for i := 0 to c.geo.EntriesPerTable()
          invariant mem.words == old(mem.words) - BelowFrames(view, p, i) && old(mem.log) <= mem.log
        {
          TeardownEntry(c, view, root, p, m, old(mem.words), i);
          var pte := mem.ReadEntry(paddr, i);
          if c.codec.isPresent(pte) && c.codec.entryKind(pte, level) == KindTable {
            DropSubtree(c.codec.paddr(pte), level - 1, Step(p, i), m);
          }
        }
      } else {
        NothingBelow(c, m, view, root, p, c.geo.EntriesPerTable());
      }
      TeardownEnd(c, view, root, p, m, old(mem.words));
      mem.FreeTable(paddr);
    }

    /** Return every table frame to the allocator. */
    method Drop()
      requires Valid()
      modifies mem
      ensures mem.words == foreign && HistoryOk(mem.Snapshot())
    {
      hide TreeOk;
      hide Matches;
      hide DirtyOnly;
      RootOnWalk(c, view, root, 0);
      SubFramesOfRoot(view);
      AllIntact(view, mem.words, foreign);
      DropSubtree(root, c.geo.levels, Root, mem.words);
    }
  }
}
