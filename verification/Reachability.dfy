/** The live frames of a walker, found in memory itself. */
module Reachability {
  import opened Basics
  import opened Geometries
  import opened Entries
  import opened Memory
  import opened Trie
  import opened Tlb
  import opened Histories

  /** The frame reached from the root by following table entries of memory along `p`. */
  ghost function FrameAt<W, F>(c: Config<W, F>, m: map<nat, seq<W>>, root: nat, p: Path): Option<nat> {
    match p
    case Root => Some(root)
    case Step(up, i) =>
      var level := TableLevel(c.geo, up);
      match FrameAt(c, m, root, up)
      case None => None
      case Some(frame) =>
        if level < 1 || frame !in m || i >= |m[frame]| then None
        else
          match c.codec.Decode(m[frame][i], level)
          case Table(child) => Some(child)
          case _ => None
  }

  /** Memory's pointers and the tree agree. */
  lemma {:induction false} FrameAtIsTable<W(!new), F(!new)>(
      c: Config<W, F>, m: map<nat, seq<W>>, view: View<F>, root: nat, p: Path)
    requires c.geo.Lawful() && Represents(c, m, view, root)
    ensures FrameAt(c, m, root, p) == if IsTable(view, p) then Some(view[p].frame) else None
    decreases p
  {
    hide LeafOk;
    match p
    case Root =>
    case Step(up, i) =>
      FrameAtIsTable(c, m, view, root, up);
      if IsTable(view, up) {
        assert TableMatches(c, m, view, up);
        assert p in view ==> ChildOk(c, view, up, i);
        if p in view {
          FanFits(c.geo, TableLevel(c.geo, up));
        }
      } else {
        assert p in view ==> ChildOk(c, view, up, i);
      }
  }

  ghost predicate Reachable<W, F>(c: Config<W, F>, m: map<nat, seq<W>>, root: nat, frame: nat) {
    exists p :: FrameAt(c, m, root, p) == Some(frame)
  }

  /** At all times the live frames that are not others' are exactly those reachable from the
      root, each along one path only. */
  lemma {:induction false} FramesAreReachable<W(!new), F(!new)>(
      c: Config<W, F>, s: Store<W>, view: View<F>, root: nat, foreign: map<nat, seq<W>>, dirty: iset<nat>)
    requires ConfigOk(c) && Sound(c, s, view, root, foreign, dirty)
    ensures forall f: nat :: Reachable(c, s.words, root, f) <==> f in s.words && f !in foreign
    ensures forall p, q ::
              FrameAt(c, s.words, root, p).Some? && FrameAt(c, s.words, root, p) == FrameAt(c, s.words, root, q) ==>
                p == q
  {
    hide Lawful;
    hide AllocatorOk;
    hide SlotOk;
    hide Matches;
    hide DirtyOnly;
    forall p ensures FrameAt(c, s.words, root, p) == if IsTable(view, p) then Some(view[p].frame) else None {
      FrameAtIsTable(c, s.words, view, root, p);
    }
    forall f: nat ensures Reachable(c, s.words, root, f) <==> f in s.words && f !in foreign {
      if f in s.words && f !in foreign {
        assert f in Frames(view);
        var p :| p in view && view[p].Table? && view[p].frame == f;
        assert FrameAt(c, s.words, root, p) == Some(f);
      }
      if p :| FrameAt(c, s.words, root, p) == Some(f) {
        assert f in Frames(view);
      }
    }
  }
}
