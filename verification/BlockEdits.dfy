/** Splitting a leaf and merging a table of leaves, as functions of the machine state. */
module BlockEdits {
  import opened Basics
  import opened PageSizes
  import opened Geometries
  import opened Memory
  import opened Trie
  import opened LeafEdits
  import opened Splitting

  /** Validate a range that is to be one leaf; its size. */
  function CheckLeafRange(g: Geometry, range: AddrRange): Result<PageSize> {
    if range.start >= range.end then Err(UnsupportedSize)
    else
      var size :- FromBytes(range.Size()).OkOr(UnsupportedSize);
      var _ :- CheckVaddr(g, range.start);
      var _ :- CheckVaddr(g, range.end - 1);
      if !size.IsAligned(range.start) then Err(NotAligned) else Ok(size)
  }

  /** The address and flags of an entry that has to be a present leaf. */
  function ReadLeaf<W, F>(c: Config<W, F>, w: W, level: nat): Result<Hit<F>> {
    if !c.codec.isPresent(w) then Err(NotCoalescable)
    else
      var leaf :- EntryIsLeaf(c, w, level);
      if !leaf then Err(NotCoalescable) else Ok(Hit(c.codec.paddr(w), c.codec.flags(w)))
  }

  /** The state after the first `count` entries of `child` have become the pieces of a leaf. */
  ghost function FilledFrom<W, F>(
      c: Config<W, F>, s: Store<W>, child: nat, paddr: nat, flags: F, size: PageSize, count: nat): Store<W>
  {
    if count == 0 then s
    else
      FilledFrom(c, s, child, paddr, flags, size, count - 1)
        .Put(child, count - 1, c.codec.newLeaf(PieceOf(paddr, count - 1, size.Bytes()), flags, size))
  }

  /** Replacing a leaf that has been found by a fresh table of its pieces. */
  ghost function SplitSlot<W, F>(c: Config<W, F>, s: Store<W>, slot: LeafSlot<W>): (Store<W>, Result<PageSize>)
    requires slot.level >= 1
  {
    match c.geo.LeafSizeAtLevel(slot.level - 1)
    case None => (s, Err(UnsupportedSize))
    case Some(finer) =>
      var (s1, grant) := s.Alloc(c);
      match grant
      case Err(e) => (s1, Err(e))
      case Ok(child) =>
        var filled := FilledFrom(c, s1, child, c.codec.paddr(slot.word), c.codec.flags(slot.word), finer,
                                 c.geo.EntriesPerTable());
        (filled.Put(slot.frame, slot.index, c.codec.newTable(child, slot.level)), Ok(finer))
  }

  /** Splitting an exact leaf; one at level 1 has no finer pieces. */
  ghost function SplitStep<W, F>(c: Config<W, F>, s: Store<W>, root: nat, range: AddrRange)
      : (Store<W>, Result<PageSize>)
  {
    match ExactLeaf(c, s, root, range)
    case Err(e) => (s, Err(e))
    case Ok((slot, _)) => if slot.level <= 1 then (s, Err(NotMapped)) else SplitSlot(c, s, slot)
  }

  /** The walk of `v` from `frame` at `level` down to the table at `target`. */
  ghost function FindTable<W, F>(
      c: Config<W, F>, m: map<nat, seq<W>>, frame: nat, level: nat, target: nat, v: nat): Result<nat>
    decreases level
  {
    var i := c.geo.IndexAt(level, v);
    if level <= target then Ok(frame)
    else if frame !in m || i >= |m[frame]| then Err(InvalidEntryKind)
    else
      var w := m[frame][i];
      if !c.codec.isPresent(w) then Err(NotMapped)
      else
        var leaf :- EntryIsLeaf(c, w, level);
        if leaf then Err(NotMapped) else FindTable(c, m, c.codec.paddr(w), level - 1, target, v)
  }

  /** Whether the entries from `i` on continue the run that `base` starts. */
  ghost function RunFrom<W, F>(
      c: Config<W, F>, words: seq<W>, base: Hit<F>, finer: PageSize, level: nat, i: nat): Result<Hit<F>>
    decreases |words| - i
  {
    if i >= |words| then Ok(base)
    else
      var leaf :- ReadLeaf(c, words[i], level);
      if leaf != Hit(PieceOf(base.paddr, i, finer.Bytes()), base.flags) then Err(NotCoalescable)
      else RunFrom(c, words, base, finer, level, i + 1)
  }

  lemma {:induction false} RunFromStep<W, F>(
      c: Config<W, F>, words: seq<W>, base: Hit<F>, finer: PageSize, level: nat, i: nat)
    requires i < |words|
    ensures var rest := RunFrom(c, words, base, finer, level, i);
            match ReadLeaf(c, words[i], level)
            case Err(e) => rest == Err(e)
            case Ok(leaf) =>
              rest == if leaf != Hit(PieceOf(base.paddr, i, finer.Bytes()), base.flags) then Err(NotCoalescable)
                      else RunFrom(c, words, base, finer, level, i + 1)
    ensures RunFrom(c, words, base, finer, level, |words|) == Ok(base)
  {
    hide ReadLeaf;
    hide PieceOf;
    hide PageSize.Bytes;
  }

  /** The base of the one aligned run that a frame's entries make up. */
  ghost function RunIn<W, F>(
      c: Config<W, F>, words: seq<W>, size: PageSize, finer: PageSize, level: nat): Result<Hit<F>>
  {
    if |words| == 0 then Err(NotCoalescable)
    else
      var base :- ReadLeaf(c, words[0], level);
      if !size.IsAligned(base.paddr) then Err(NotCoalescable) else RunFrom(c, words, base, finer, level, 1)
  }

  lemma {:induction false} RunInStarts<W, F>(
      c: Config<W, F>, words: seq<W>, size: PageSize, finer: PageSize, level: nat)
    requires words != []
    ensures RunIn(c, words, size, finer, level) ==
            match ReadLeaf(c, words[0], level)
            case Err(e) => Err(e)
            case Ok(base) =>
              if !size.IsAligned(base.paddr) then Err(NotCoalescable) else RunFrom(c, words, base, finer, level, 1)
  {
    hide ReadLeaf;
    hide RunFrom;
    hide PageSize.Bytes;
  }

  /** Merging the slot of `v` in the table `frame` at `level`. */
  ghost function MergeEntry<W, F>(
      c: Config<W, F>, s: Store<W>, frame: nat, v: nat, size: PageSize, level: nat): (Store<W>, Result<PageSize>)
    requires level >= 1
  {
    var i := c.geo.IndexAt(level, v);
    if frame !in s.words || i >= |s.words[frame]| then (s, Err(InvalidEntryKind))
    else
      var w := s.words[frame][i];
      if !c.codec.isPresent(w) then (s, Err(NotMapped))
      else
        match EntryIsLeaf(c, w, level)
        case Err(e) => (s, Err(e))
        case Ok(leaf) => if leaf then (s, Ok(size)) else MergeChild(c, s, frame, i, c.codec.paddr(w), size, level)
  }

  /** Replacing the child table of a slot by one leaf, if its entries are one run. */
  ghost function MergeChild<W, F>(
      c: Config<W, F>, s: Store<W>, frame: nat, index: nat, child: nat, size: PageSize, level: nat)
      : (Store<W>, Result<PageSize>)
    requires level >= 1
  {
    match c.geo.LeafSizeAtLevel(level - 1)
    case None => (s, Err(UnsupportedSize))
    case Some(finer) =>
      if child !in s.words then (s, Err(InvalidEntryKind))
      else
        match RunIn(c, s.words[child], size, finer, level - 1)
        case Err(e) => (s, Err(e))
        case Ok(base) => (s.Put(frame, index, c.codec.newLeaf(base.paddr, base.flags, size)).Free(child), Ok(size))
  }

  /** What decides at the slot of a merge. */
  lemma {:induction false} MergeEntryAt<W, F>(
      c: Config<W, F>, s: Store<W>, frame: nat, v: nat, size: PageSize, level: nat)
    requires level >= 1 && frame in s.words && c.geo.IndexAt(level, v) < |s.words[frame]|
    ensures var w := s.words[frame][c.geo.IndexAt(level, v)];
            var merged := MergeEntry(c, s, frame, v, size, level);
            && (!c.codec.isPresent(w) ==> merged == (s, Err(NotMapped)))
            && (c.codec.isPresent(w) && EntryIsLeaf(c, w, level) == Ok(true) ==> merged == (s, Ok(size)))
            && (c.codec.isPresent(w) && EntryIsLeaf(c, w, level) == Ok(false) ==>
                  merged == MergeChild(c, s, frame, c.geo.IndexAt(level, v), c.codec.paddr(w), size, level))
  {
    hide EntryIsLeaf;
    hide MergeChild;
  }

  /** What decides at its child table. */
  lemma {:induction false} MergeChildAt<W, F>(
      c: Config<W, F>, s: Store<W>, frame: nat, index: nat, child: nat, size: PageSize, finer: PageSize, level: nat)
    requires level >= 1 && child in s.words && c.geo.LeafSizeAtLevel(level - 1) == Some(finer)
    ensures var merged := MergeChild(c, s, frame, index, child, size, level);
            match RunIn(c, s.words[child], size, finer, level - 1)
            case Err(e) => merged == (s, Err(e))
            case Ok(base) =>
              var s1 := s.Put(frame, index, c.codec.newLeaf(base.paddr, base.flags, size)).Free(child);
              merged == (s1, Ok(size)) && s1 != s
  {
    hide RunIn;
    hide Geometry.LeafSizeAtLevel;
    match RunIn(c, s.words[child], size, finer, level - 1)
    case Err(_) =>
    case Ok(base) =>
      var s1 := s.Put(frame, index, c.codec.newLeaf(base.paddr, base.flags, size)).Free(child);
      assert |s1.log| > |s.log|;
  }

  /** Merging the leaves of `range` into one. */
  ghost function MergeStep<W, F>(c: Config<W, F>, s: Store<W>, root: nat, range: AddrRange)
      : (Store<W>, Result<PageSize>)
  {
    match CheckLeafRange(c.geo, range)
    case Err(e) => (s, Err(e))
    case Ok(size) =>
      match c.geo.LevelOfSize(size)
      case None => (s, Err(UnsupportedSize))
      case Some(level) =>
        if level <= 1 then (s, Err(NotCoalescable))
        else
          match FindTable(c, s.words, root, c.geo.levels, level, range.start)
          case Err(e) => (s, Err(e))
          case Ok(frame) => MergeEntry(c, s, frame, range.start, size, level)
  }
}
