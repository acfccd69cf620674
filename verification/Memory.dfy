/** Frame memory, the frame allocator and the local TLB's invalidation interface. */
module Memory {
  import opened Basics
  import opened PageSizes
  import opened Geometries
  import opened Entries

  /** One observable step of the machine: the memory after a change, or an invalidation. */
  datatype Event<W> =
    | Wrote(words: map<nat, seq<W>>)
    | FlushedPage(vaddr: nat)
    | FlushedAll

  /** What one call of the frame allocator returns. */
  datatype Grant = Granted(start: nat, size: nat) | Denied(error: PagingError)

  /** A paging format together with the environment's policies. `grants` may depend on
      the live frames and on how often it has been asked, so it ranges over every
      allocator; `preferFull` is the invalidation policy. */
  datatype Config<!W, !F> = Config(
    geo: Geometry,
    codec: Codec<W, F>,
    grants: (set<nat>, nat) -> Grant,
    preferFull: nat -> bool)

  /** Allocated frames are not live already and are representable in an entry; a refusal
      says that memory is exhausted or the request unaligned. */
  ghost predicate AllocatorOk<W, F>(c: Config<W, F>) {
    forall live, tick {:trigger c.grants(live, tick)} ::
      match c.grants(live, tick)
      case Granted(start, _) => start !in live && c.geo.PaddrIsValid(start)
      case Denied(e) => e == OutOfMemory || e == NotAligned
  }

  ghost predicate ConfigOk<W(!new), F(!new)>(c: Config<W, F>) {
    c.geo.Lawful() && Lawful(c.codec, c.geo) && AllocatorOk(c)
  }

  /** The machine state as a value: live frames, allocation count and history. */
  datatype Store<W> = Store(words: map<nat, seq<W>>, tick: nat, log: seq<Event<W>>)
  {
    /** Overwrite one word of a live frame. */
    function Put(frame: nat, index: nat, w: W): Store<W> {
      if frame in words && index < |words[frame]| then
        var m := words[frame := words[frame][index := w]];
        Store(m, tick, log + [Wrote(m)])
      else this
    }

    /** Allocate one zeroed table frame; an unsuitable range is handed back. */
    function Alloc<F>(c: Config<W, F>): (Store<W>, Result<nat>) {
      match c.grants(words.Keys, tick)
      case Denied(e) => (Store(words, tick + 1, log), Err(e))
      case Granted(start, size) =>
        if size != c.geo.Span(1) || start % c.geo.Span(1) != 0 then
          (Store(words, tick + 1, log), Err(NotAligned))
        else
          var m := words[start := seq(c.geo.EntriesPerTable(), _ => c.codec.zero)];
          (Store(m, tick + 1, log + [Wrote(m)]), Ok(start))
    }

    function Free(frame: nat): Store<W> {
      var m := words - {frame};
      Store(m, tick, log + [Wrote(m)])
    }

    /** The state after invalidations. */
    function Emit(events: seq<Event<W>>): Store<W> {
      Store(words, tick, log + events)
    }
  }

  function SaturatingAdd(a: nat, b: nat): nat {
    if a + b < ADDRESS_LIMIT then a + b else ADDRESS_LIMIT - 1
  }

  /** The address reached after `count` saturating strides. */
  function Stride(start: nat, stride: nat, count: nat): nat {
    if count == 0 then start else SaturatingAdd(Stride(start, stride, count - 1), stride)
  }

  /** The invalidations issued by a page-by-page sweep. */
  function Sweep<W>(start: nat, stride: nat, count: nat): (s: seq<Event<W>>)
    ensures |s| == count
  {
    if count == 0 then []
    else Sweep(start, stride, count - 1) + [FlushedPage(Stride(start, stride, count - 1))]
  }

  /** Physical frames reached through `phys_to_virt`, the allocator that owns them, and
      the TLB of the current CPU. */
  class Machine<W> {
    var words: map<nat, seq<W>>
    var tick: nat
    ghost var log: seq<Event<W>>
    ghost var readCount: nat

    ghost function Snapshot(): Store<W>
      reads this`words, this`tick, this`log
    {
      Store(words, tick, log)
    }

    constructor (frames: map<nat, seq<W>>)
      ensures words == frames && tick == 0 && log == [Wrote(frames)] && readCount == 0
    {
      words, tick, log, readCount := frames, 0, [Wrote(frames)], 0;
    }

    /** Reading requires a live frame: a walk never follows a pointer to a freed one. */
    method ReadEntry(frame: nat, index: nat) returns (w: W)
      requires frame in words && index < |words[frame]|
      modifies this`readCount
      ensures w == words[frame][index] && readCount == old(readCount) + 1
    {
      w := words[frame][index];
      readCount := readCount + 1;
    }

    method WriteEntry(frame: nat, index: nat, w: W)
      requires frame in words && index < |words[frame]|
      modifies this`words, this`log
      ensures Snapshot() == old(Snapshot()).Put(frame, index, w)
    {
      words := words[frame := words[frame][index := w]];
      log := log + [Wrote(words)];
    }

    method AllocTable<F>(c: Config<W, F>) returns (r: Result<nat>)
      modifies this`words, this`tick, this`log
      ensures (Snapshot(), r) == old(Snapshot()).Alloc(c)
      ensures tick == old(tick) + 1
      ensures match c.grants(old(words).Keys, old(tick))
              case Denied(e) => r == Err(e) && words == old(words) && log == old(log)
              case Granted(start, size) =>
                if size == c.geo.Span(1) && start % c.geo.Span(1) == 0 then
                  && r == Ok(start) && log == old(log) + [Wrote(words)]
                  && words == old(words)[start := seq(c.geo.EntriesPerTable(), _ => c.codec.zero)]
                else r == Err(NotAligned) && words == old(words) && log == old(log)
    {
      var grant := c.grants(words.Keys, tick);
      tick := tick + 1;
      match grant {
        case Denied(e) =>
          r := Err(e);
        case Granted(start, size) =>
          if size != c.geo.Span(1) || start % c.geo.Span(1) != 0 {
            r := Err(NotAligned);
          } else {
            words := words[start := seq(c.geo.EntriesPerTable(), _ => c.codec.zero)];
            log := log + [Wrote(words)];
            r := Ok(start);
          }
      }
    }

    /** Only a live frame may be released, so no frame is ever released twice. */
    method FreeTable(frame: nat)
      requires frame in words
      modifies this`words, this`log
      ensures Snapshot() == old(Snapshot()).Free(frame)
    {
      words := words - {frame};
      log := log + [Wrote(words)];
    }

    method FlushTlbLocal(vaddr: nat)
      modifies this`log
      ensures log == old(log) + [FlushedPage(vaddr)]
    {
      log := log + [FlushedPage(vaddr)];
    }

    method FlushTlbAllLocal()
      modifies this`log
      ensures log == old(log) + [FlushedAll]
    {
      log := log + [FlushedAll];
    }

    /** The default range invalidation: a sweep, one base page at a time. */
    method FlushTlbRangeLocal(start: nat, pageSize: PageSize, countPages: nat)
      modifies this`log
      ensures log == old(log) + Sweep(start, pageSize.Bytes(), countPages)
    {
      var base := start;
      for k := 0 to countPages
        invariant base == Stride(start, pageSize.Bytes(), k)
        invariant log == old(log) + Sweep(start, pageSize.Bytes(), k)
      {
        FlushTlbLocal(base);
        base := SaturatingAdd(base, pageSize.Bytes());
      }
    }
  }
}
