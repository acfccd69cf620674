/** The single mutations the walker is made of, each carrying a sound state to a sound one. */
module Steps {
  import opened Basics
  import opened Geometries
  import opened Entries
  import opened Memory
  import opened Trie
  import opened TreeEdits
  import opened Translation
  import opened Tlb
  import opened Histories

  lemma {:induction false} FramesWithTable<F>(view: View<F>, p: Path, frame: nat)
    requires p !in view
    ensures Frames(view[p := Table(frame)]) == Frames(view) + {frame}
  {
    var after: View<F> := view[p := Table(frame)];
    forall f | f in Frames(view) + {frame} ensures f in Frames(after) {
      if f == frame {
        assert p in after && after[p].Table? && after[p].frame == f;
      } else {
        var q :| q in view && view[q].Table? && view[q].frame == f;
        assert q in after && after[q].Table? && after[q].frame == f;
      }
    }
  }

  lemma {:induction false} FramesWithoutTable<F>(view: View<F>, p: Path, s: Slot<F>)
    requires !IsTable(view, p) && !s.Table?
    ensures Frames(view[p := s]) == Frames(view) == Frames(view - {p})
  {
    forall f | f in Frames(view) ensures f in Frames(view[p := s]) && f in Frames(view - {p}) {
      var q :| q in view && view[q].Table? && view[q].frame == f;
      assert q in view[p := s] && view[p := s][q].Table?;
      assert q in view - {p} && (view - {p})[q].Table?;
    }
  }

  lemma {:induction false} FrameOfTable<F>(view: View<F>, p: Path)
    requires IsTable(view, p)
    ensures view[p].frame in Frames(view)
  {
  }

  lemma {:induction false} FramesOwned<W, F>(words: map<nat, seq<W>>, view: View<F>, foreign: map<nat, seq<W>>)
    requires Owns(words, view, foreign)
    ensures forall f | f in Frames(view) :: f in words
  {
  }

  lemma {:induction false} TreeOfRepresents<W, F>(c: Config<W, F>, m: map<nat, seq<W>>, view: View<F>, root: nat)
    requires Represents(c, m, view, root)
    ensures TreeOk(c, view, root)
  {
  }

  /** A frame that is not the tree's may come or go. */
  lemma {:induction false} OtherFrameStep<W(!new), F(!new)>(
      c: Config<W, F>, s: Store<W>, view: View<F>, root: nat, dirty: iset<nat>, m: map<nat, seq<W>>)
    requires ConfigOk(c) && Represents(c, s.words, view, root)
    requires Current(s.log) == s.words && DirtyOnly(c, root, s.log, dirty)
    requires forall f | f in Frames(view) && f in s.words :: f in m && m[f] == s.words[f]
    ensures Represents(c, m, view, root) && Agree(c, root, s.words, m)
    ensures DirtyOnly(c, root, s.log + [Wrote(m)], dirty) && Current(s.log + [Wrote(m)]) == m
  {
    hide Represents;
    hide Lawful;
    hide AllocatorOk;
    SameFramesMatch(c, s.words, view, root, m);
    SameLeavesAgree(c, root, s.words, view, m, view);
    DirtyAfterWrite(c, root, s.log, m, dirty);
  }

  /** Allocating a frame and linking it under an empty slot changes no translation. */
  lemma {:induction false} LinkStep<W(!new), F(!new)>(
      c: Config<W, F>, s: Store<W>, view: View<F>, root: nat, foreign: map<nat, seq<W>>, dirty: iset<nat>,
      p: Path, i: nat)
    requires ConfigOk(c) && Sound(c, s, view, root, foreign, dirty)
    requires ChildOk(c, view, p, i) && Step(p, i) !in view && TableLevel(c.geo, p) >= 2
    requires s.Alloc(c).1.Ok?
    ensures var (s1, r) := s.Alloc(c);
            var at := view[p].frame;
            && at in s1.words && i < |s1.words[at]|
            && var s2 := s1.Put(at, i, c.codec.newTable(r.value, TableLevel(c.geo, p)));
            && Sound(c, s2, view[Step(p, i) := Table(r.value)], root, foreign, dirty)
            && NoChange(c, root, s, s2)
  {
    hide Lawful;
    hide TreeOk;
    hide DirtyOnly;
    hide AllocatorOk;
    hide Represents;
    hide Agree;
    hide NoChange;
    hide Owns;
    hide Frames;
    AllocStep(c, s);
    var (s1, r) := s.Alloc(c);
    var child, level := r.value, TableLevel(c.geo, p);
    FramesOwned(s.words, view, foreign);
    assert forall f | f in Frames(view) && f in s.words :: f in s1.words && s1.words[f] == s.words[f];
    OtherFrameStep(c, s, view, root, dirty, s1.words);
    TableInBounds(c, s1.words, view, root, p, i);
    var w := c.codec.newTable(child, level);
    TableWord(c, child, level);
    var s2 := s1.Put(view[p].frame, i, w);
    var after: View<F> := view[Step(p, i) := Table(child)];
    assert s2.words == WithWord(s1.words, view, p, i, w);
    WriteSlot(c, s1.words, view, root, p, i, w);
    FramesWithTable(view, Step(p, i), child);
    LinkAgrees(c, root, s1.words, view, s2.words, after, Step(p, i));
    DirtyAfterQuietWrite(c, root, s1.log, s2.words, dirty);
    OwnsAfterAlloc(s.words, view, foreign, after, child, s1.words[child]);
    FrameOfTable(view, p);
    FrameOfTable(after, p);
    OwnsAfterPut(s1.words, after, foreign, after, view[p].frame, s2.words[view[p].frame]);
    TwoQuietSteps(c, root, s, s1, s2);
  }

  lemma {:induction false} LinkAgrees<W(!new), F(!new)>(
      c: Config<W, F>, root: nat, a: map<nat, seq<W>>, view: View<F>, b: map<nat, seq<W>>, after: View<F>, p: Path)
    requires ConfigOk(c) && Represents(c, a, view, root) && Represents(c, b, after, root)
    requires forall q :: q != p ==> At(view, q) == At(after, q)
    requires !IsLeaf(view, p) && !IsLeaf(after, p)
    ensures Agree(c, root, a, b)
  {
    hide Represents;
    hide Lawful;
    forall q ensures LeafAt(view, q) == LeafAt(after, q) {
      assert q != p ==> At(view, q) == At(after, q);
    }
    SameLeavesAgree(c, root, a, view, b, after);
  }

  /** A slot that addresses select in a table of the tree is inside its frame. */
  lemma {:induction false} TableInBounds<W(!new), F(!new)>(
      c: Config<W, F>, m: map<nat, seq<W>>, view: View<F>, root: nat, p: Path, i: nat)
    requires ConfigOk(c) && Represents(c, m, view, root) && ChildOk(c, view, p, i)
    ensures view[p].frame in m && |m[view[p].frame]| == c.geo.EntriesPerTable() && i < |m[view[p].frame]|
  {
    assert TableMatches(c, m, view, p);
    FanFits(c.geo, TableLevel(c.geo, p));
  }

  /** A table word reads back as a pointer to its frame. */
  lemma {:induction false} TableWord<W(!new), F(!new)>(c: Config<W, F>, frame: nat, level: nat)
    requires ConfigOk(c) && FrameOk(c.geo, frame) && 2 <= level <= c.geo.levels
    ensures c.codec.Decode(c.codec.newTable(frame, level), level) == Table(frame)
  {
    var _ := c.codec.newTable(frame, level);
  }

  /** Writing or clearing one leaf changes the translation only inside its block. */
  lemma {:induction false} LeafStep<W(!new), F(!new)>(
      c: Config<W, F>, s: Store<W>, view: View<F>, root: nat, foreign: map<nat, seq<W>>, dirty: iset<nat>,
      range: AddrRange, level: nat, w: W)
    requires ConfigOk(c) && Sound(c, s, view, root, foreign, dirty) && IsBlock(c.geo, range, level)
    requires IsTable(view, c.geo.PathOf(range.start, level)) && !IsTable(view, c.geo.PathOf(range.start, level - 1))
    requires var slot := c.codec.Decode(w, level);
             slot.Empty? || (slot.Leaf? && LeafOk(c, c.geo.PathOf(range.start, level - 1), slot.paddr, slot.flags))
    ensures var at, i := view[c.geo.PathOf(range.start, level)].frame, c.geo.IndexAt(level, range.start);
            && at in s.words && i < |s.words[at]|
            && var after := WithSlot(view, c.geo.PathOf(range.start, level), i, c.codec.Decode(w, level));
            && Sound(c, s.Put(at, i, w), after, root, foreign, dirty + AddressesOf(range))
            && AgreeOutside(c, root, s.words, s.Put(at, i, w).words, range)
  {
    hide Lawful;
    hide TreeOk;
    hide LeafOk;
    hide DirtyOnly;
    hide AllocatorOk;
    hide Represents;
    hide AgreeOutside;
    hide Canonical;
    hide Owns;
    hide Frames;
    var p, i := c.geo.PathOf(range.start, level), c.geo.IndexAt(level, range.start);
    TreeOfRepresents(c, s.words, view, root);
    SlotIsChild(c, view, root, range.start, level);
    TableInBounds(c, s.words, view, root, p, i);
    var slot := c.codec.Decode(w, level);
    var s1 := s.Put(view[p].frame, i, w);
    var after := WithSlot(view, p, i, slot);
    WriteSlot(c, s.words, view, root, p, i, w);
    FramesWithoutTable(view, Step(p, i), slot);
    LeafStepAgrees(c, root, s.words, view, s1.words, after, range, level);
    DirtyAfterLeafWrite(c, root, s.log, s1.words, dirty, range);
    FrameOfTable(view, p);
    OwnsAfterPut(s.words, view, foreign, after, view[p].frame, s1.words[view[p].frame]);
  }

  lemma {:induction false} SlotIsChild<W(!new), F(!new)>(c: Config<W, F>, view: View<F>, root: nat, v: nat, level: nat)
    requires TreeOk(c, view, root) && level <= c.geo.levels && IsTable(view, c.geo.PathOf(v, level))
    ensures 1 <= level && ChildOk(c, view, c.geo.PathOf(v, level), c.geo.IndexAt(level, v))
    ensures c.geo.PathOf(v, level - 1) == Step(c.geo.PathOf(v, level), c.geo.IndexAt(level, v))
  {
    assert SlotOk(c, c.geo.PathOf(v, level), view[c.geo.PathOf(v, level)]);
  }

  lemma {:induction false} LeafStepAgrees<W(!new), F(!new)>(
      c: Config<W, F>, root: nat, a: map<nat, seq<W>>, view: View<F>, b: map<nat, seq<W>>, after: View<F>,
      range: AddrRange, level: nat)
    requires ConfigOk(c) && Represents(c, a, view, root) && Represents(c, b, after, root)
    requires IsBlock(c.geo, range, level)
    requires forall q :: q != c.geo.PathOf(range.start, level - 1) ==> At(view, q) == At(after, q)
    ensures AgreeOutside(c, root, a, b, range)
  {
    hide Represents;
    hide Lawful;
    hide Canonical;
    forall q | q != c.geo.PathOf(range.start, level - 1) ensures LeafAt(view, q) == LeafAt(after, q) {
      assert At(view, q) == At(after, q);
    }
    OneLeafAgrees(c, root, a, view, b, after, range, level);
  }

  lemma {:induction false} FramesMinusTable<W(!new), F(!new)>(c: Config<W, F>, view: View<F>, root: nat, p: Path)
    requires TreeOk(c, view, root) && IsTable(view, p)
    ensures Frames(view - {p}) == Frames(view) - {view[p].frame}
  {
    hide SlotOk;
    forall f | f in Frames(view) - {view[p].frame} ensures f in Frames(view - {p}) {
      var q :| q in view && view[q].Table? && view[q].frame == f;
      assert q in view - {p} && (view - {p})[q].Table?;
    }
    forall f | f in Frames(view - {p}) ensures f != view[p].frame {
      var q :| q in view - {p} && (view - {p})[q].Table? && (view - {p})[q].frame == f;
      assert IsTable(view, q) && IsTable(view, p);
    }
  }

  /** Unlinking and freeing a table without entries changes no translation. */
  lemma {:induction false} UnlinkStep<W(!new), F(!new)>(
      c: Config<W, F>, s: Store<W>, view: View<F>, root: nat, foreign: map<nat, seq<W>>, dirty: iset<nat>,
      p: Path, i: nat)
    requires ConfigOk(c) && Sound(c, s, view, root, foreign, dirty)
    requires ChildOk(c, view, p, i) && IsTable(view, Step(p, i))
    requires forall j: nat :: Step(Step(p, i), j) !in view
    ensures var at := view[p].frame;
            && at in s.words && i < |s.words[at]|
            && var s1 := s.Put(at, i, c.codec.zero);
            && view[Step(p, i)].frame in s1.words
            && var s2 := s1.Free(view[Step(p, i)].frame);
            && Sound(c, s2, view - {Step(p, i)}, root, foreign, dirty)
            && NoChange(c, root, s, s2)
  {
    hide Lawful;
    hide TreeOk;
    hide DirtyOnly;
    hide AllocatorOk;
    hide Represents;
    hide Agree;
    hide NoChange;
    hide Owns;
    hide Frames;
    var q, child := Step(p, i), view[Step(p, i)].frame;
    var w := c.codec.zero;
    ZeroIsEmpty(c);
    TableInBounds(c, s.words, view, root, p, i);
    var after := view - {q};
    var s1 := s.Put(view[p].frame, i, w);
    TreeOfRepresents(c, s.words, view, root);
    WriteSlot(c, s.words, view, root, p, i, w);
    LinkAgrees(c, root, s.words, view, s1.words, after, q);
    DirtyAfterQuietWrite(c, root, s.log, s1.words, dirty);
    FramesMinusTable(c, view, root, q);
    var s2 := s1.Free(child);
    FrameOfTable(view, p);
    FrameOfTable(view, q);
    FramesOwned(s.words, view, foreign);
    OtherFrameStep(c, s1, after, root, dirty, s2.words);
    OwnsAfterPut(s.words, view, foreign, view, view[p].frame, s1.words[view[p].frame]);
    OwnsAfterFree(s1.words, view, foreign, after, child);
    TwoQuietSteps(c, root, s, s1, s2);
  }

  /** A freshly allocated root is a sound, empty tree that translates nothing. */
  lemma {:induction false} FreshRoot<W(!new), F(!new)>(c: Config<W, F>, s: Store<W>)
    requires ConfigOk(c) && HistoryOk(s)
    requires var (_, r) := s.Alloc(c); r.Ok? ==> Unheld(c, r.value, s.log)
    ensures var (s1, r) := s.Alloc(c);
            && (r.Err? ==> s1.words == s.words && s1.log == s.log)
            && (r.Ok? ==> Sound(c, s1, map[Root := Table(r.value)], r.value, s.words, iset{}))
  {
    hide Lawful;
    hide AllocatorOk;
    hide Unheld;
    AllocStep(c, s);
    var (s1, r) := s.Alloc(c);
    if r.Ok? {
      var root := r.value;
      var view: View<F> := map[Root := Table(root)];
      RootTree(c, s1.words, root);
      FramesWithTable<F>(map[], Root, root);
      assert Frames<F>(map[]) == {};
      FreshHistory(c, root, s.log, s1.words, view);
    }
  }

  lemma {:induction false} RootTree<W(!new), F(!new)>(c: Config<W, F>, m: map<nat, seq<W>>, root: nat)
    requires ConfigOk(c) && FrameOk(c.geo, root) && NewFrameIsEmpty(c, m, root, c.geo.levels)
    ensures Represents<W, F>(c, m, map[Root := Table(root)], root)
  {
    hide Lawful;
    hide AllocatorOk;
    var view: View<F> := map[Root := Table(root)];
    assert TableMatches(c, m, view, Root);
  }

  lemma {:induction false} FreshHistory<W(!new), F(!new)>(
      c: Config<W, F>, root: nat, log: seq<Event<W>>, m1: map<nat, seq<W>>, view: View<F>)
    requires ConfigOk(c) && Represents(c, m1, view, root) && view == map[Root := Table(root)]
    requires Unheld(c, root, log) && root !in Current(log)
    ensures DirtyOnly(c, root, log + [Wrote(m1)], iset{}) && Current(log + [Wrote(m1)]) == m1
  {
    hide Lawful;
    hide AllocatorOk;
    hide Represents;
    forall v: nat ensures Xlate(c, Current(log), root, v) == None && Xlate(c, m1, root, v) == None {
      forall l | 0 <= l < c.geo.levels ensures !IsLeaf(view, c.geo.PathOf(v, l)) {
      }
      LookupWithoutLeaf(c.geo, view, v, c.geo.levels);
      XlateIsLookup(c, m1, view, root, v);
    }
    DirtyAfterWrite(c, root, log, m1, iset{});
  }
}
