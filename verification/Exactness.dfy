/** When an operation on one leaf succeeds, what it answers, and what queries say afterwards,
    read off the tree and the addresses of the call. */
module Exactness {
  import opened Basics
  import opened Power
  import opened Geometries
  import opened Entries
  import opened Memory
  import opened Trie
  import opened Translation
  import opened Tlb
  import opened Histories
  import opened MapWalks
  import opened Queries
  import opened Pruning

  /** What remapping an exact leaf returns. */
  ghost function RemapResult<W, F>(
      c: Config<W, F>, view: View<F>, range: AddrRange, paddr: nat, flags: F): Result<Mapping<F>> {
    if !c.geo.PaddrIsValid(paddr) then Err(AddressOutOfRange)
    else
      match ExactLevel(c.geo, view, range)
      case Err(e) => Err(e)
      case Ok(l) => if paddr % c.geo.Span(l) != 0 then Err(NotAligned) else Ok(Mapping(range, paddr, flags))
  }

  /** What unmapping an exact leaf returns. */
  ghost function UnmapResult<W, F>(c: Config<W, F>, view: View<F>, range: AddrRange): Result<Mapping<F>> {
    match ExactLevel(c.geo, view, range)
    case Err(e) => Err(e)
    case Ok(l) =>
      var leaf := view[c.geo.PathOf(range.start, l - 1)];
      Ok(Mapping(range, leaf.paddr, leaf.flags))
  }

  /** What changing the flags of an exact leaf returns. */
  ghost function ProtectResult<W, F>(
      c: Config<W, F>, view: View<F>, range: AddrRange, flags: F): Result<Mapping<F>> {
    match ExactLevel(c.geo, view, range)
    case Err(e) => Err(e)
    case Ok(l) => Ok(Mapping(range, view[c.geo.PathOf(range.start, l - 1)].paddr, flags))
  }

  /** `range` is the block of a leaf of the tree, of whatever size. */
  ghost predicate HoldsLeaf<F>(g: Geometry, view: View<F>, range: AddrRange): (held: bool)
    ensures held ==> range.Size() > 0 && g.VaddrIsValid(range.start)
  {
    exists l: nat :: IsBlock(g, range, l) && IsLeaf(view, g.PathOf(range.start, l - 1))
  }

  /** The exact-leaf search succeeds exactly on the block of a leaf, which is also when a query
      of its start returns just this range. */
  lemma {:induction false} HoldsLeafIff<W(!new), F(!new)>(c: Config<W, F>, view: View<F>, root: nat, range: AddrRange)
    requires c.geo.Lawful() && TreeOk(c, view, root)
    ensures HoldsLeaf(c.geo, view, range) <==>
            var q := QueryResult(c.geo, view, range.start); q.Ok? && q.value.range == range
    ensures HoldsLeaf(c.geo, view, range) <==> ExactLevel(c.geo, view, range).Ok?
    ensures !HoldsLeaf(c.geo, view, range) ==>
              ExactLevel(c.geo, view, range) ==
              Err(if c.geo.VaddrIsValid(range.start) then NotMapped else AddressOutOfRange)
    ensures HoldsLeaf(c.geo, view, range) ==>
              var l := ExactLevel(c.geo, view, range).value;
              && IsBlock(c.geo, range, l) && range.Size() == c.geo.Span(l)
              && QueryResult(c.geo, view, range.start) ==
                 var leaf := view[c.geo.PathOf(range.start, l - 1)]; Ok(Mapping(range, leaf.paddr, leaf.flags))
  {
    hide TreeOk;
    hide Canonical;
    hide Geometry.Lawful;
    hide Geometry.PathOf;
    hide IsLeaf;
    hide LeafLevel;
    if l: nat :| IsBlock(c.geo, range, l) && IsLeaf(view, c.geo.PathOf(range.start, l - 1)) {
      ExactLevelIff(c, view, root, range, l);
    }
    if ExactLevel(c.geo, view, range).Ok? {
      ExactLevelIff(c, view, root, range, ExactLevel(c.geo, view, range).value);
    }
  }

  /** Remapping succeeds exactly on the block of a leaf and for a valid target that is aligned
      to it; the answer is the mapping asked for, and an error names the condition that fails. */
  lemma {:induction false} RemapMeaning<W(!new), F(!new)>(
      c: Config<W, F>, view: View<F>, root: nat, range: AddrRange, paddr: nat, flags: F, r: Result<Mapping<F>>)
    requires c.geo.Lawful() && TreeOk(c, view, root) && r == RemapResult(c, view, range, paddr, flags)
    ensures r.Ok? <==> HoldsLeaf(c.geo, view, range) && paddr < Pow2(c.geo.paBits) && paddr % range.Size() == 0
    ensures r.Ok? ==> r.value == Mapping(range, paddr, flags)
    ensures r.Err? ==>
              r.error == if paddr >= Pow2(c.geo.paBits) || !c.geo.VaddrIsValid(range.start) then AddressOutOfRange
                         else if !HoldsLeaf(c.geo, view, range) then NotMapped
                         else NotAligned
  {
    hide TreeOk;
    hide HoldsLeaf;
    hide ExactLevel;
    hide QueryResult;
    hide IsBlock;
    hide Geometry.Span;
    hide Geometry.PathOf;
    hide Geometry.VaddrIsValid;
    hide Geometry.Lawful;
    hide AddrRange.Size;
    hide Pow2;
    HoldsLeafIff(c, view, root, range);
  }

  /** Changing flags succeeds exactly on the block of a leaf; the answer has the new flags and
      the target that a query finds. */
  lemma {:induction false} ProtectMeaning<W(!new), F(!new)>(
      c: Config<W, F>, view: View<F>, root: nat, range: AddrRange, flags: F, r: Result<Mapping<F>>)
    requires c.geo.Lawful() && TreeOk(c, view, root) && r == ProtectResult(c, view, range, flags)
    ensures r.Ok? <==> HoldsLeaf(c.geo, view, range)
    ensures r.Ok? ==>
              var q := QueryResult(c.geo, view, range.start);
              q.Ok? && q.value.range == range && r.value == Mapping(range, q.value.paddr, flags)
    ensures r.Err? ==> r.error == if c.geo.VaddrIsValid(range.start) then NotMapped else AddressOutOfRange
  {
    hide TreeOk;
    hide HoldsLeaf;
    hide ExactLevel;
    hide QueryResult;
    hide IsBlock;
    hide Geometry.Span;
    hide Geometry.PathOf;
    hide Geometry.VaddrIsValid;
    hide Geometry.Lawful;
    hide AddrRange.Size;
    hide Pow2;
    HoldsLeafIff(c, view, root, range);
  }

  /** Unmapping succeeds exactly on the block of a leaf; the answer is what a query finds. */
  lemma {:induction false} UnmapMeaning<W(!new), F(!new)>(
      c: Config<W, F>, view: View<F>, root: nat, range: AddrRange, r: Result<Mapping<F>>)
    requires c.geo.Lawful() && TreeOk(c, view, root) && r == UnmapResult(c, view, range)
    ensures r.Ok? <==> HoldsLeaf(c.geo, view, range)
    ensures r.Ok? ==> r == QueryResult(c.geo, view, range.start) && r.value.range == range
    ensures r.Err? ==> r.error == if c.geo.VaddrIsValid(range.start) then NotMapped else AddressOutOfRange
  {
    hide TreeOk;
    hide HoldsLeaf;
    hide ExactLevel;
    hide QueryResult;
    hide IsBlock;
    hide Geometry.Span;
    hide Geometry.PathOf;
    hide Geometry.VaddrIsValid;
    hide Geometry.Lawful;
    hide AddrRange.Size;
    hide Pow2;
    HoldsLeafIff(c, view, root, range);
  }

  /** A leaf answers the queries of its block. */
  lemma {:induction false} LeafAnswers<W(!new), F(!new)>(
      c: Config<W, F>, view: View<F>, root: nat, range: AddrRange, level: nat, v: nat)
    requires c.geo.Lawful() && TreeOk(c, view, root) && IsBlock(c.geo, range, level) && range.Contains(v)
    requires IsLeaf(view, c.geo.PathOf(range.start, level - 1))
    ensures var leaf := view[c.geo.PathOf(range.start, level - 1)];
            QueryResult(c.geo, view, v) == Ok(Mapping(range, leaf.paddr, leaf.flags))
  {
    hide TreeOk;
    hide Canonical;
    hide IsBlock;
    hide Geometry.Lawful;
    hide Geometry.PathOf;
    hide Geometry.IndexAt;
    hide LeafLevel;
    hide Geometry.VaddrIsValid;
    BlockLevel(c.geo, range, level);
    BlockSlot(c.geo, range, level, v);
    LeafLevelIs(c, view, root, v, level, c.geo.levels);
    LeafRangeOfBlock(c.geo, range, level, v);
    LeafBlock(c, view, root, v, level);
  }

  /** A query returns a mapping exactly when `v` lies in the block of a leaf of the tree and the
      mapping is that block with the leaf's target and flags. */
  lemma {:induction false} AnswerIff<W(!new), F(!new)>(
      c: Config<W, F>, view: View<F>, root: nat, v: nat, m: Mapping<F>)
    requires c.geo.Lawful() && TreeOk(c, view, root)
    ensures QueryResult(c.geo, view, v) == Ok(m) <==>
            exists l: nat ::
              && IsBlock(c.geo, m.range, l) && m.range.Contains(v)
              && At(view, c.geo.PathOf(m.range.start, l - 1)) == Leaf(m.paddr, m.flags)
  {
    hide TreeOk;
    hide Geometry.VaddrIsValid;
    hide Geometry.Span;
    hide Geometry.Lawful;
    hide Geometry.PathOf;
    hide LeafLevel;
    hide BlockOf;
    if QueryResult(c.geo, view, v) == Ok(m) {
      LeafBlock(c, view, root, v, LeafLevel(c.geo, view, v, c.geo.levels));
    }
    if l: nat :| && IsBlock(c.geo, m.range, l) && m.range.Contains(v)
                 && At(view, c.geo.PathOf(m.range.start, l - 1)) == Leaf(m.paddr, m.flags) {
      LeafAnswers(c, view, root, m.range, l, v);
    }
  }

  /** Queries depend on the leaves of the walk alone. */
  lemma {:induction false} SameLeavesAnswer<W(!new), F(!new)>(
      c: Config<W, F>, a: View<F>, b: View<F>, root: nat, v: nat)
    requires c.geo.Lawful() && TreeOk(c, a, root) && TreeOk(c, b, root)
    requires forall l | 0 <= l < c.geo.levels :: LeafAt(a, c.geo.PathOf(v, l)) == LeafAt(b, c.geo.PathOf(v, l))
    ensures QueryResult(c.geo, a, v) == QueryResult(c.geo, b, v)
  {
    hide TreeOk;
    hide Geometry.Lawful;
    hide Geometry.PathOf;
    hide LeafLevel;
    var la, lb := LeafLevel(c.geo, a, v, c.geo.levels), LeafLevel(c.geo, b, v, c.geo.levels);
    if la > 0 {
      assert LeafAt(a, c.geo.PathOf(v, la - 1)) == LeafAt(b, c.geo.PathOf(v, la - 1));
      LeafLevelIs(c, b, root, v, la, c.geo.levels);
    } else if lb > 0 {
      assert LeafAt(a, c.geo.PathOf(v, lb - 1)) == LeafAt(b, c.geo.PathOf(v, lb - 1));
      LeafLevelIs(c, a, root, v, lb, c.geo.levels);
    }
  }

  /** Trees that differ in one leaf answer alike outside its block. */
  lemma {:induction false} OtherQueriesAgree<W(!new), F(!new)>(
      c: Config<W, F>, a: View<F>, b: View<F>, root: nat, range: AddrRange, level: nat, v: nat)
    requires c.geo.Lawful() && TreeOk(c, a, root) && TreeOk(c, b, root)
    requires IsBlock(c.geo, range, level) && !range.Contains(v)
    requires forall p :: p != c.geo.PathOf(range.start, level - 1) ==> LeafAt(a, p) == LeafAt(b, p)
    ensures QueryResult(c.geo, a, v) == QueryResult(c.geo, b, v)
  {
    hide TreeOk;
    hide IsBlock;
    hide Geometry.Lawful;
    hide Geometry.PathOf;
    hide LeafAt;
    hide LeafLevel;
    hide Canonical;
    if c.geo.VaddrIsValid(v) {
      forall l | 0 <= l < c.geo.levels
        ensures LeafAt(a, c.geo.PathOf(v, l)) == LeafAt(b, c.geo.PathOf(v, l))
      {
        OtherBlockOtherSlot(c.geo, range, level, v, l);
      }
      SameLeavesAnswer(c, a, b, root, v);
    }
  }

  /** After the leaf of `range` has been replaced, exactly the queries of `range` have another
      answer: the new leaf. */
  lemma {:induction false} QueriesAfterReplace<W(!new), F(!new)>(
      c: Config<W, F>, view: View<F>, after: View<F>, root: nat, range: AddrRange, level: nat, paddr: nat, flags: F)
    requires c.geo.Lawful() && TreeOk(c, view, root) && TreeOk(c, after, root) && IsBlock(c.geo, range, level)
    requires after == view[c.geo.PathOf(range.start, level - 1) := Leaf(paddr, flags)]
    ensures forall v: nat :: QueryResult(c.geo, after, v) ==
              if range.Contains(v) then Ok(Mapping(range, paddr, flags)) else QueryResult(c.geo, view, v)
  {
    hide TreeOk;
    hide IsBlock;
    hide Geometry.Lawful;
    hide Geometry.PathOf;
    hide QueryResult;
    forall v: nat
      ensures QueryResult(c.geo, after, v) ==
              if range.Contains(v) then Ok(Mapping(range, paddr, flags)) else QueryResult(c.geo, view, v)
    {
      if range.Contains(v) {
        LeafAnswers(c, after, root, range, level, v);
      } else {
        OtherQueriesAgree(c, view, after, root, range, level, v);
      }
    }
  }

  /** After the leaf of `range` has been removed and its tables reclaimed, exactly the queries of
      `range` have another answer: nothing is mapped there. */
  lemma {:induction false} QueriesAfterRemove<W(!new), F(!new)>(
      c: Config<W, F>, view: View<F>, after: View<F>, root: nat, range: AddrRange, level: nat)
    requires c.geo.Lawful() && TreeOk(c, view, root) && TreeOk(c, after, root) && IsBlock(c.geo, range, level)
    requires IsLeaf(view, c.geo.PathOf(range.start, level - 1))
    requires after == Pruned(c.geo, view - {c.geo.PathOf(range.start, level - 1)}, range.start, level)
    ensures forall v: nat :: QueryResult(c.geo, after, v) ==
              if range.Contains(v) then Err(NotMapped) else QueryResult(c.geo, view, v)
  {
    hide TreeOk;
    hide IsBlock;
    hide Geometry.Lawful;
    hide Geometry.PathOf;
    hide QueryResult;
    hide Pruned;
    BlockLevel(c.geo, range, level);
    var p := c.geo.PathOf(range.start, level - 1);
    PrunedShape(c.geo, view - {p}, range.start, level);
    forall v: nat
      ensures QueryResult(c.geo, after, v) ==
              if range.Contains(v) then Err(NotMapped) else QueryResult(c.geo, view, v)
    {
      if range.Contains(v) {
        NoAnswer(c, view, after, root, range, level, v);
      } else {
        OtherQueriesAgree(c, view, after, root, range, level, v);
      }
    }
  }

  /** Where the only leaf of a walk is gone, a query finds nothing. */
  lemma {:induction false} NoAnswer<W(!new), F(!new)>(
      c: Config<W, F>, view: View<F>, after: View<F>, root: nat, range: AddrRange, level: nat, v: nat)
    requires c.geo.Lawful() && TreeOk(c, view, root) && IsBlock(c.geo, range, level) && range.Contains(v)
    requires IsLeaf(view, c.geo.PathOf(range.start, level - 1)) && !IsLeaf(after, c.geo.PathOf(range.start, level - 1))
    requires forall q :: IsLeaf(after, q) ==> IsLeaf(view, q)
    ensures QueryResult(c.geo, after, v) == Err(NotMapped)
  {
    hide TreeOk;
    hide IsBlock;
    hide Geometry.Lawful;
    hide Geometry.PathOf;
    hide LeafLevel;
    hide IsLeaf;
    BlockSlot(c.geo, range, level, v);
    BlockLevel(c.geo, range, level);
    LeafLevelIs(c, view, root, v, level, c.geo.levels);
    var l := LeafLevel(c.geo, after, v, c.geo.levels);
    if l > 0 {
      LeafLevelIs(c, view, root, v, l, c.geo.levels);
    }
  }

  lemma {:induction false} BlockLevel(g: Geometry, range: AddrRange, level: nat)
    requires IsBlock(g, range, level)
    ensures 1 <= level <= g.levels
  {
  }

  /** After one leaf has been mapped, exactly the queries of its range have another answer. */
  lemma {:induction false} QueriesAfterMap<W(!new), F(!new)>(
      c: Config<W, F>, view: View<F>, after: View<F>, root: nat, range: AddrRange, level: nat, paddr: nat, flags: F)
    requires c.geo.Lawful() && TreeOk(c, view, root) && TreeOk(c, after, root) && IsBlock(c.geo, range, level)
    requires var p := c.geo.PathOf(range.start, level - 1);
             At(after, p) == Leaf(paddr, flags) && Grew(c.geo, view, after - {p}, range.start, level)
    ensures forall v: nat :: QueryResult(c.geo, after, v) ==
              if range.Contains(v) then Ok(Mapping(range, paddr, flags)) else QueryResult(c.geo, view, v)
  {
    hide TreeOk;
    hide IsBlock;
    hide Geometry.Lawful;
    hide Geometry.PathOf;
    hide QueryResult;
    BlockLevel(c.geo, range, level);
    forall v: nat
      ensures QueryResult(c.geo, after, v) ==
              if range.Contains(v) then Ok(Mapping(range, paddr, flags)) else QueryResult(c.geo, view, v)
    {
      if range.Contains(v) {
        LeafAnswers(c, after, root, range, level, v);
      } else {
        OtherQueriesAgree(c, view, after, root, range, level, v);
      }
    }
  }

  /** The same between two machine states. */
  lemma {:induction false} ReplacedAnswers<W(!new), F(!new)>(
      c: Config<W, F>, root: nat, foreign: map<nat, seq<W>>, dirty: iset<nat>,
      range: AddrRange, level: nat, paddr: nat, flags: F,
      s: Store<W>, view: View<F>, s1: Store<W>, after: View<F>)
    requires ConfigOk(c) && Sound(c, s, view, root, foreign, dirty) && IsBlock(c.geo, range, level)
    requires LeafReplaced(c, root, foreign, dirty, range, level, paddr, flags, s, view, s1, after)
    ensures forall v: nat :: QueryResult(c.geo, after, v) ==
              if range.Contains(v) then Ok(Mapping(range, paddr, flags)) else QueryResult(c.geo, view, v)
  {
    hide Lawful;
    hide AllocatorOk;
    hide TreeOk;
    hide IsBlock;
    hide Geometry.PathOf;
    hide QueryResult;
    hide Xlate;
    hide Owns;
    hide DirtyOnly;
    hide Matches;
    hide OneChange;
    BlockLevel(c.geo, range, level);
    QueriesAfterReplace(c, view, after, root, range, level, paddr, flags);
  }

  lemma {:induction false} RemovedAnswers<W(!new), F(!new)>(
      c: Config<W, F>, root: nat, foreign: map<nat, seq<W>>, dirty: iset<nat>, range: AddrRange, level: nat,
      s: Store<W>, view: View<F>, s1: Store<W>, after: View<F>)
    requires ConfigOk(c) && Sound(c, s, view, root, foreign, dirty) && IsBlock(c.geo, range, level)
    requires IsLeaf(view, c.geo.PathOf(range.start, level - 1))
    requires LeafRemoved(c, root, foreign, dirty, range, level, s, view, s1, after)
    ensures forall v: nat :: QueryResult(c.geo, after, v) ==
              if range.Contains(v) then Err(NotMapped) else QueryResult(c.geo, view, v)
  {
    hide Lawful;
    hide AllocatorOk;
    hide TreeOk;
    hide IsBlock;
    hide Geometry.PathOf;
    hide QueryResult;
    hide Xlate;
    hide Owns;
    hide DirtyOnly;
    hide Matches;
    hide OneChange;
    hide Pruned;
    BlockLevel(c.geo, range, level);
    QueriesAfterRemove(c, view, after, root, range, level);
  }

}
