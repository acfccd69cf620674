/** Changing one existing leaf, as functions of the machine state: finding it by a walk that
    remembers the tables it passes, rewriting or clearing its entry, and reclaiming tables. */
module LeafEdits {
  import opened Basics
  import opened Power
  import opened PageSizes
  import opened Geometries
  import opened Memory
  import opened Queries

  /** A leaf entry found in memory. */
  datatype LeafSlot<+W> = LeafSlot(frame: nat, index: nat, word: W, size: PageSize, level: nat)

  /** Whether a present entry ends the walk. */
  function EntryIsLeaf<W, F>(c: Config<W, F>, w: W, level: nat): Result<bool> {
    match c.codec.entryKind(w, level)
    case KindLeaf => Ok(true)
    case KindTable => Ok(false)
    case KindInvalid => Err(InvalidEntryKind)
  }

  function CheckVaddr(g: Geometry, v: nat): Result<()> {
    if g.VaddrIsValid(v) then Ok(()) else Err(AddressOutOfRange)
  }

  function CheckPaddr(g: Geometry, p: nat): Result<()> {
    if g.PaddrIsValid(p) then Ok(()) else Err(AddressOutOfRange)
  }

  /** The aligned range of `size` bytes around `v`. */
  function LeafRange(v: nat, size: PageSize): Result<AddrRange> {
    RangeFromStartSize(AlignDown(v, size.Bytes()), size.Bytes()).OkOr(AddressOutOfRange)
  }

  /** The walk for the leaf that covers `v`, from `frame` at `level`. */
  ghost function FindMapping<W, F>(c: Config<W, F>, m: map<nat, seq<W>>, frame: nat, level: nat, v: nat)
      : Result<Mapping<F>>
    decreases level
  {
    var i := c.geo.IndexAt(level, v);
    if level == 0 || frame !in m || i >= |m[frame]| then Err(InvalidEntryKind)
    else
      var w := m[frame][i];
      if !c.codec.isPresent(w) then Err(NotMapped)
      else
        var leaf :- EntryIsLeaf(c, w, level);
        if leaf then
          var size :- c.geo.LeafSizeAtLevel(level).OkOr(UnsupportedSize);
          var range :- LeafRange(v, size);
          Ok(Mapping(range, c.codec.paddr(w), c.codec.flags(w)))
        else FindMapping(c, m, c.codec.paddr(w), level - 1, v)
  }

  /** What a query answers, as memory stands. */
  ghost function QueryStep<W, F>(c: Config<W, F>, s: Store<W>, root: nat, v: nat): Result<Mapping<F>> {
    var _ :- CheckVaddr(c.geo, v);
    FindMapping(c, s.words, root, c.geo.levels, v)
  }

  /** The last checks of an exact-leaf search, once a leaf has been reached at `level`. */
  function CheckExact<W, F>(
      c: Config<W, F>, range: AddrRange, frame: nat, index: nat, word: W, level: nat): Result<LeafSlot<W>> {
    var size :- c.geo.LeafSizeAtLevel(level).OkOr(UnsupportedSize);
    var covered :- LeafRange(range.start, size);
    if covered != range then Err(NotMapped) else Ok(LeafSlot(frame, index, word, size, level))
  }

  /** The walk for the leaf that covers exactly `range`, from `frame` at `level`; `passed` are
      the table entries followed so far, from the root down. */
  ghost function FindLeaf<W, F>(
      c: Config<W, F>, m: map<nat, seq<W>>, frame: nat, level: nat, range: AddrRange, passed: seq<(nat, nat)>)
      : Result<(LeafSlot<W>, seq<(nat, nat)>)>
    decreases level
  {
    var i := c.geo.IndexAt(level, range.start);
    if level == 0 || frame !in m || i >= |m[frame]| then Err(InvalidEntryKind)
    else
      var w := m[frame][i];
      if !c.codec.isPresent(w) then Err(NotMapped)
      else
        var leaf :- EntryIsLeaf(c, w, level);
        if leaf then
          var slot :- CheckExact(c, range, frame, i, w, level);
          Ok((slot, passed))
        else FindLeaf(c, m, c.codec.paddr(w), level - 1, range, passed + [(frame, i)])
  }

  /** The leaf that covers exactly `range`, found from the root. */
  ghost function ExactLeaf<W, F>(c: Config<W, F>, s: Store<W>, root: nat, range: AddrRange)
      : Result<(LeafSlot<W>, seq<(nat, nat)>)>
  {
    var _ :- CheckVaddr(c.geo, range.start);
    FindLeaf(c, s.words, root, c.geo.levels, range, [])
  }

  /** Changing the flags of an exact leaf. */
  ghost function ProtectStep<W, F>(c: Config<W, F>, s: Store<W>, root: nat, range: AddrRange, flags: F)
      : (Store<W>, Result<Mapping<F>>)
  {
    match ExactLeaf(c, s, root, range)
    case Err(e) => (s, Err(e))
    case Ok((slot, _)) =>
      var paddr := c.codec.paddr(slot.word);
      (s.Put(slot.frame, slot.index, c.codec.newLeaf(paddr, flags, slot.size)), Ok(Mapping(range, paddr, flags)))
  }

  /** Retargeting an exact leaf. */
  ghost function RemapStep<W, F>(c: Config<W, F>, s: Store<W>, root: nat, range: AddrRange, paddr: nat, flags: F)
      : (Store<W>, Result<Mapping<F>>)
  {
    if !c.geo.PaddrIsValid(paddr) then (s, Err(AddressOutOfRange))
    else
      match ExactLeaf(c, s, root, range)
      case Err(e) => (s, Err(e))
      case Ok((slot, _)) =>
        if !slot.size.IsAligned(paddr) then (s, Err(NotAligned))
        else (s.Put(slot.frame, slot.index, c.codec.newLeaf(paddr, flags, slot.size)), Ok(Mapping(range, paddr, flags)))
  }

  ghost predicate TableEmpty<W, F>(c: Config<W, F>, m: map<nat, seq<W>>, frame: nat) {
    frame in m && forall i: nat :: i < |m[frame]| ==> !c.codec.isPresent(m[frame][i])
  }

  /** Walking back up: while the child table is empty, clear the entry that points at it and
      free it. */
  ghost function PruneFrom<W, F>(c: Config<W, F>, s: Store<W>, parents: seq<(nat, nat)>, child: nat): Store<W>
    decreases |parents|
  {
    if parents == [] || !TableEmpty(c, s.words, child) then s
    else
      var (frame, index) := parents[|parents| - 1];
      PruneFrom(c, s.Put(frame, index, c.codec.zero).Free(child), parents[..|parents| - 1], frame)
  }

  /** Removing an exact leaf and the tables it leaves empty. */
  ghost function UnmapStep<W, F>(c: Config<W, F>, s: Store<W>, root: nat, range: AddrRange)
      : (Store<W>, Result<Mapping<F>>)
  {
    match ExactLeaf(c, s, root, range)
    case Err(e) => (s, Err(e))
    case Ok((slot, passed)) =>
      (PruneFrom(c, s.Put(slot.frame, slot.index, c.codec.zero), passed, slot.frame),
       Ok(Mapping(range, c.codec.paddr(slot.word), c.codec.flags(slot.word))))
  }

  /** One step of the walk, for an entry that is in its table. */
  lemma {:induction false} FindLeafStep<W, F>(
      c: Config<W, F>, m: map<nat, seq<W>>, frame: nat, level: nat, range: AddrRange, passed: seq<(nat, nat)>)
    requires level >= 1 && frame in m && c.geo.IndexAt(level, range.start) < |m[frame]|
    ensures var i := c.geo.IndexAt(level, range.start);
            var w := m[frame][i];
            var found := FindLeaf(c, m, frame, level, range, passed);
            && (!c.codec.isPresent(w) ==> found == Err(NotMapped))
            && (c.codec.isPresent(w) && EntryIsLeaf(c, w, level) == Ok(true) ==>
                  found == match CheckExact(c, range, frame, i, w, level)
                           case Err(e) => Err(e)
                           case Ok(slot) => Ok((slot, passed)))
            && (c.codec.isPresent(w) && EntryIsLeaf(c, w, level) == Ok(false) ==>
                  found == FindLeaf(c, m, c.codec.paddr(w), level - 1, range, passed + [(frame, i)]))
  {
    hide EntryIsLeaf;
    hide CheckExact;
  }
}
