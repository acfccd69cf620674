/** The contract between the walker and a page-table entry format. */
module Entries {
  import opened Power
  import opened PageSizes
  import opened Geometries

  /** The role of a present entry at a level. */
  datatype EntryKind = KindTable | KindLeaf | KindInvalid

  /** A decoded entry. */
  datatype Slot<+F> =
    | Empty
    | Table(frame: nat)
    | Leaf(paddr: nat, flags: F)
    | Invalid

  /** An entry format over words `W` with flags `F`. */
  datatype Codec<!W, !F> = Codec(
    newLeaf: (nat, F, PageSize) -> W,
    newTable: (nat, nat) -> W,
    paddr: W -> nat,
    flags: W -> F,
    isPresent: W -> bool,
    entryKind: (W, nat) -> EntryKind,
    zero: W,
    encodable: F -> bool)
  {
    /** What flags read back as once they have been written into a leaf. */
    function Norm(f: F): F {
      flags(newLeaf(0, f, Size4K))
    }

    function Decode(w: W, level: nat): Slot<F> {
      if !isPresent(w) then Empty
      else match entryKind(w, level)
        case KindTable => Table(paddr(w))
        case KindLeaf => Leaf(paddr(w), flags(w))
        case KindInvalid => Invalid
    }
  }

  /** A table frame sits at an aligned address that the entry's address field can hold. */
  predicate FrameOk(g: Geometry, frame: nat) {
    frame % g.Span(1) == 0 && g.PaddrIsValid(frame)
  }

  /** A leaf target is aligned to the leaf and lies wholly below the address limit. */
  predicate TargetOk(g: Geometry, level: nat, paddr: nat) {
    paddr % g.Span(level) == 0 && paddr + g.Span(level) <= Pow2(g.paBits)
  }

  /** A present leaf word written for `paddr` and `f` at `level` reads back as such. */
  ghost predicate LeafWordOk<W, F>(c: Codec<W, F>, level: nat, w: W, paddr: nat, f: F) {
    c.Decode(w, level) == Leaf(paddr, c.Norm(f))
  }

  /** The laws the walker relies on, for the levels and addresses of one geometry. */
  ghost predicate Lawful<W(!new), F(!new)>(c: Codec<W, F>, g: Geometry) {
    && !c.isPresent(c.zero)
    && (forall w {:trigger c.entryKind(w, 1)} :: c.entryKind(w, 1) != KindTable)
    && (forall p, l {:trigger c.newTable(p, l)} ::
          2 <= l <= g.levels && FrameOk(g, p) ==> c.Decode(c.newTable(p, l), l) == Table(p))
    && (forall p, f, l, s {:trigger LeafWordOk(c, l, c.newLeaf(p, f, s), p, f)} ::
          g.LevelSupportsLeaf(l, s) && TargetOk(g, l, p) && c.encodable(f) ==>
          LeafWordOk(c, l, c.newLeaf(p, f, s), p, f))
    && (forall f {:trigger c.Norm(f)} :: c.encodable(f) ==>
          c.encodable(c.Norm(f)) && c.Norm(c.Norm(f)) == c.Norm(f))
  }
}
