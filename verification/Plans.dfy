/** Requests that take many leaves, as functions of the machine state: which leaf comes next,
    what mapping it does, and what the whole request does. */
module Plans {
  import opened Basics
  import opened PageSizes
  import opened Geometries
  import opened Memory
  import opened MapWalks
  import opened Tilings
  import opened Requests
  import opened Extents

  /** One leaf to be mapped. */
  datatype LeafAt = LeafAt(start: nat, size: PageSize, paddr: nat)
  {
    function Range(): AddrRange {
      AddrRange(start, start + size.Bytes())
    }
  }

  /** A request that has passed its checks: a virtual range, the extents that back it, and
      the leaf size if it is fixed. */
  datatype Request = Request(range: AddrRange, extents: seq<AddrRange>, fixed: Option<PageSize>)
  {
    /** The first `n` bytes of the range. */
    function First(n: nat): AddrRange {
      AddrRange(range.start, range.start + n)
    }
  }

  function SizesOf(leaves: seq<LeafAt>): (sizes: seq<PageSize>)
    ensures |sizes| == |leaves| && forall i | 0 <= i < |leaves| :: sizes[i] == leaves[i].size
  {
    seq(|leaves|, i requires 0 <= i < |leaves| => leaves[i].size)
  }

  /** Bytes that the leaves cover. */
  function DoneBytes(leaves: seq<LeafAt>): nat {
    Total(SizesOf(leaves))
  }

  /** The size of the next leaf: the fixed one, or the largest that fits. */
  function PieceSize(g: Geometry, fixed: Option<PageSize>, v: nat, p: nat, remaining: nat): Result<PageSize> {
    match fixed
    case Some(size) => if remaining < size.Bytes() then Err(InvalidMappingShape) else Ok(size)
    case None => BestSize(g, v, p, remaining).OkOr(UnsupportedSize)
  }

  /** The next leaf size, chosen before each leaf. */
  method ChooseSize(g: Geometry, fixed: Option<PageSize>, vaddr: nat, paddr: nat, remaining: nat)
      returns (r: Result<PageSize>)
    ensures r == PieceSize(g, fixed, vaddr, paddr, remaining)
  {
    match fixed {
      case Some(size) =>
        if remaining < size.Bytes() {
          return Err(InvalidMappingShape);
        }
        return Ok(size);
      case None =>
        r := BestLeafSize(g, vaddr, paddr, remaining);
    }
  }

  /** The leaf that follows the first `done` bytes of a request. */
  function NextLeaf(g: Geometry, q: Request, done: nat): Result<LeafAt> {
    var remaining := if done <= q.range.Size() then q.range.Size() - done else 0;
    var paddr :- TargetOf(q.extents, done).OkOr(InvalidMappingShape);
    var size :- PieceSize(g, q.fixed, q.range.start + done, paddr, remaining);
    Ok(LeafAt(q.range.start + done, size, paddr))
  }

  /** The leaves are the first ones that the request plans. */
  ghost predicate Planned(g: Geometry, q: Request, leaves: seq<LeafAt>) {
    forall i: nat | i < |leaves| :: PlannedAt(g, q, leaves, i)
  }

  ghost predicate PlannedAt(g: Geometry, q: Request, leaves: seq<LeafAt>, i: nat)
    requires i < |leaves|
  {
    NextLeaf(g, q, Offset(SizesOf(leaves), i)) == Ok(leaves[i])
  }

  /** Mapping `range` as one leaf, by a walk from the root once the checks have passed. */
  ghost function MapLeafStep<W, F>(
      c: Config<W, F>, s: Store<W>, root: nat, range: AddrRange, paddr: nat, flags: F): (Store<W>, Result<()>)
  {
    match LeafCheck(c.geo, range, paddr)
    case Err(e) => (s, Err(e))
    case Ok((size, level)) =>
      MapWalk(c, s, root, c.geo.levels, level, range.start, c.codec.newLeaf(paddr, flags, size))
  }

  /** The state after mapping the leaves one by one. */
  ghost function AfterLeaves<W, F>(
      c: Config<W, F>, s: Store<W>, root: nat, flags: F, leaves: seq<LeafAt>): Store<W>
  {
    if leaves == [] then s
    else
      var last := leaves[|leaves| - 1];
      MapLeafStep(c, AfterLeaves(c, s, root, flags, leaves[..|leaves| - 1]), root, last.Range(), last.paddr, flags).0
  }

  /** The rest of a request after its first `done` bytes: the state reached, the result, and
      the leaves that have been mapped. It ends at the first leaf that fails. */
  ghost function RunRequest<W, F>(c: Config<W, F>, s: Store<W>, root: nat, q: Request, flags: F, done: nat)
      : (Store<W>, Result<()>, seq<LeafAt>)
    decreases q.range.Size() - done
  {
    if done >= q.range.Size() then (s, Ok(()), [])
    else
      match NextLeaf(c.geo, q, done)
      case Err(e) => (s, Err(e), [])
      case Ok(leaf) =>
        var (s1, r) := MapLeafStep(c, s, root, leaf.Range(), leaf.paddr, flags);
        if r.Err? then (s1, r, [])
        else
          var (s2, r2, rest) := RunRequest(c, s1, root, q, flags, done + leaf.size.Bytes());
          (s2, r2, [leaf] + rest)
  }

  /** The request that a call amounts to, unless its shape is refused. */
  function RequestCheck<F>(g: Geometry, range: AddrRange, backing: MapBacking, flags: MappingFlags<F>)
      : Result<Request>
  {
    match flags.contiguity
    case Scattered(granule) =>
      var _ :- ScatterCheck(g, range, backing, granule);
      Ok(Request(range, ExtentsOf(backing), Some(granule)))
    case Contiguous =>
      match backing
      case ManyExtents(_) => Err(InvalidMappingShape)
      case OneExtent(phys) =>
        var _ :- ContiguousCheck(g, range, phys, None);
        Ok(Request(range, [phys], None))
  }

  /** What mapping a range does to the machine, apart from invalidation. */
  ghost function MapStep<W, F>(
      c: Config<W, F>, s: Store<W>, root: nat, range: AddrRange, backing: MapBacking, flags: MappingFlags<F>)
      : (Store<W>, Result<()>, seq<LeafAt>)
  {
    match RequestCheck(c.geo, range, backing, flags)
    case Err(e) => (s, Err(e), [])
    case Ok(q) => RunRequest(c, s, root, q, flags.leaf, 0)
  }

  /** Why a request ends after `done` bytes, in state `mid`: no leaf can be chosen there, or
      the next leaf fails its checks or its walk. */
  ghost predicate StopsAt<W, F>(
      c: Config<W, F>, mid: Store<W>, root: nat, q: Request, flags: F, done: nat, s1: Store<W>, e: PagingError)
  {
    match NextLeaf(c.geo, q, done)
    case Err(x) => x == e && s1 == mid
    case Ok(leaf) => MapLeafStep(c, mid, root, leaf.Range(), leaf.paddr, flags) == (s1, Err(e))
  }

  /** The next leaf passes its checks and finds nothing in its way, but is refused a frame
      after it has been granted another. */
  ghost predicate Stranded<W, F>(c: Config<W, F>, mid: Store<W>, root: nat, q: Request, flags: F, done: nat) {
    match NextLeaf(c.geo, q, done)
    case Err(_) => false
    case Ok(leaf) =>
      var (_, r) := MapLeafStep(c, mid, root, leaf.Range(), leaf.paddr, flags);
      && LeafCheck(c.geo, leaf.Range(), leaf.paddr).Ok?
      && r.Err? && r.error != AlreadyMapped && !RefusesNext(c, mid)
  }

  /** Leaves in front of the rest of a run. */
  ghost function After<W>(leaves: seq<LeafAt>, rest: (Store<W>, Result<()>, seq<LeafAt>))
      : (Store<W>, Result<()>, seq<LeafAt>)
  {
    (rest.0, rest.1, leaves + rest.2)
  }

  lemma {:induction false} SizesAppend(leaves: seq<LeafAt>, leaf: LeafAt)
    ensures SizesOf(leaves + [leaf]) == SizesOf(leaves) + [leaf.size]
    ensures DoneBytes(leaves + [leaf]) == DoneBytes(leaves) + leaf.size.Bytes()
    ensures forall i: nat | i <= |leaves| :: Offset(SizesOf(leaves + [leaf]), i) == Offset(SizesOf(leaves), i)
  {
    TotalAppend(SizesOf(leaves), leaf.size);
  }

  /** One more planned leaf. */
  lemma {:induction false} PlannedAppend(g: Geometry, q: Request, leaves: seq<LeafAt>, leaf: LeafAt)
    requires Planned(g, q, leaves) && NextLeaf(g, q, DoneBytes(leaves)) == Ok(leaf)
    ensures Planned(g, q, leaves + [leaf])
  {
    hide NextLeaf;
    var all := leaves + [leaf];
    SizesAppend(leaves, leaf);
    forall i: nat | i < |all| ensures PlannedAt(g, q, all, i) {
      if i < |leaves| {
        assert PlannedAt(g, q, leaves, i);
      }
    }
  }

  lemma {:induction false} AfterAppend<W, F>(
      c: Config<W, F>, s: Store<W>, root: nat, flags: F, leaves: seq<LeafAt>, leaf: LeafAt)
    ensures AfterLeaves(c, s, root, flags, leaves + [leaf])
            == MapLeafStep(c, AfterLeaves(c, s, root, flags, leaves), root, leaf.Range(), leaf.paddr, flags).0
  {
    hide MapLeafStep;
    var all := leaves + [leaf];
    assert all[..|all| - 1] == leaves;
  }

  /** A run goes on after its next leaf, or ends there. */
  lemma {:induction false} RunGoesOn<W, F>(
      c: Config<W, F>, s0: Store<W>, s: Store<W>, root: nat, q: Request, flags: F, leaves: seq<LeafAt>, leaf: LeafAt)
    requires DoneBytes(leaves) < q.range.Size() && NextLeaf(c.geo, q, DoneBytes(leaves)) == Ok(leaf)
    requires RunRequest(c, s0, root, q, flags, 0) == After(leaves, RunRequest(c, s, root, q, flags, DoneBytes(leaves)))
    ensures var (s1, r) := MapLeafStep(c, s, root, leaf.Range(), leaf.paddr, flags);
            var all := leaves + [leaf];
            RunRequest(c, s0, root, q, flags, 0) ==
              if r.Err? then (s1, r, leaves) else After(all, RunRequest(c, s1, root, q, flags, DoneBytes(all)))
  {
    hide MapLeafStep;
    hide NextLeaf;
    SizesAppend(leaves, leaf);
    var (s1, r) := MapLeafStep(c, s, root, leaf.Range(), leaf.paddr, flags);
    if r.Ok? {
      var rest := RunRequest(c, s1, root, q, flags, DoneBytes(leaves + [leaf]));
      assert leaves + ([leaf] + rest.2) == leaves + [leaf] + rest.2;
    } else {
      assert leaves + [] == leaves;
    }
  }

  /** A run ends when everything is done or no leaf can be chosen. */
  lemma {:induction false} RunEndsHere<W, F>(
      c: Config<W, F>, s0: Store<W>, s: Store<W>, root: nat, q: Request, flags: F, leaves: seq<LeafAt>)
    requires RunRequest(c, s0, root, q, flags, 0) == After(leaves, RunRequest(c, s, root, q, flags, DoneBytes(leaves)))
    ensures DoneBytes(leaves) >= q.range.Size() ==> RunRequest(c, s0, root, q, flags, 0) == (s, Ok(()), leaves)
    ensures DoneBytes(leaves) < q.range.Size() && NextLeaf(c.geo, q, DoneBytes(leaves)).Err? ==>
              RunRequest(c, s0, root, q, flags, 0) == (s, Err(NextLeaf(c.geo, q, DoneBytes(leaves)).error), leaves)
  {
    hide NextLeaf;
    assert leaves + [] == leaves;
  }

  /** The leaves chosen: the greedy cut of the request, or all of the fixed size. */
  ghost predicate LeavesChosen(g: Geometry, q: Request, leaves: seq<LeafAt>) {
    match q.fixed
    case Some(size) => forall i | 0 <= i < |leaves| :: leaves[i].size == size
    case None =>
      var p := TargetOf(q.extents, 0);
      p.Some? && GreedyCut(g, q.range.start, p.value, q.range.Size()) == Some(SizesOf(leaves))
  }

  /** The leaves of a complete plan are the greedy cut, or all of the fixed size. */
  lemma {:induction false} PlannedAreChosen(g: Geometry, q: Request, leaves: seq<LeafAt>)
    requires Planned(g, q, leaves) && DoneBytes(leaves) == q.range.Size() > 0
    requires q.fixed.None? ==> |q.extents| == 1 && q.extents[0].Size() == q.range.Size()
    ensures LeavesChosen(g, q, leaves)
  {
    hide BestSize;
    if q.fixed.None? {
      var phys, sizes := q.extents[0], SizesOf(leaves);
      OneTarget(phys, 0);
      forall i: nat | i < |sizes| ensures TileIsBest(g, q.range.start, phys.start, q.range.Size(), sizes, i) {
        assert PlannedAt(g, q, leaves, i);
        OffsetMonotone(sizes, i, |sizes|);
        OneTarget(phys, Offset(sizes, i));
      }
      RunIsGreedyCut(g, q.range.start, phys.start, q.range.Size(), sizes);
    } else {
      forall i | 0 <= i < |leaves| ensures leaves[i].size == q.fixed.value {
        assert PlannedAt(g, q, leaves, i);
      }
    }
  }
}
