/** How the tree changes when one word of one table frame is overwritten. */
module TreeEdits {
  import opened Geometries
  import opened Entries
  import opened Memory
  import opened Trie

  /** Memory after writing `w` into slot `i` of the table at `p`. */
  ghost function WithWord<W, F>(m: map<nat, seq<W>>, view: View<F>, p: Path, i: nat, w: W): map<nat, seq<W>>
    requires IsTable(view, p) && view[p].frame in m && i < |m[view[p].frame]|
  {
    m[view[p].frame := m[view[p].frame][i := w]]
  }

  /** `after` keeps the table at `q` and all its children, except possibly slot `(p, i)`. */
  ghost predicate SameChildren<F>(view: View<F>, after: View<F>, q: Path, p: Path, i: nat) {
    && IsTable(view, q) && IsTable(after, q) && view[q] == after[q]
    && forall j: nat :: (q != p || j != i) ==> At(after, Step(q, j)) == At(view, Step(q, j))
  }

  /** The tables that `after` adds are already laid out in memory, away from the written frame. */
  ghost predicate NewTable<W, F>(
      c: Config<W, F>, m: map<nat, seq<W>>, view: View<F>, after: View<F>, q: Path, p: Path) {
    IsTable(view, p) && IsTable(after, q) && after[q].frame != view[p].frame && TableMatches(c, m, after, q)
  }

  /** A word write carries a represented tree to `after` when only slot `(p, i)` differs. */
  lemma {:induction false} WriteMatches<W, F>(
      c: Config<W, F>, m: map<nat, seq<W>>, view: View<F>, root: nat, p: Path, i: nat, w: W, after: View<F>)
    requires Represents(c, m, view, root)
    requires IsTable(view, p) && view[p].frame in m && i < |m[view[p].frame]|
    requires c.codec.Decode(w, TableLevel(c.geo, p)) == At(after, Step(p, i)) && TableLevel(c.geo, p) >= 1
    requires forall q :: IsTable(after, q) ==>
               SameChildren(view, after, q, p, i) || NewTable(c, m, view, after, q, p)
    ensures Matches(c, WithWord(m, view, p, i, w), after)
  {
    hide SlotOk;
    var m' := WithWord(m, view, p, i, w);
    forall q | IsTable(after, q) ensures TableMatches(c, m', after, q) {
      if SameChildren(view, after, q, p, i) {
        assert TableMatches(c, m, view, q);
        var f := after[q].frame;
        forall j: nat | j < |m'[f]|
          ensures c.codec.Decode(m'[f][j], TableLevel(c.geo, q)) == At(after, Step(q, j))
        {
          if q != p || j != i {
            assert At(after, Step(q, j)) == At(view, Step(q, j));
          }
        }
      } else {
        assert NewTable(c, m, view, after, q, p);
      }
    }
  }

  /** The tree with the single slot `(p, i)` set. */
  function WithSlot<F>(view: View<F>, p: Path, i: nat, s: Slot<F>): View<F> {
    if s.Empty? then view - {Step(p, i)} else view[Step(p, i) := s]
  }

  /** A slot whose contents may be replaced without losing a subtree. */
  ghost predicate Replaceable<F>(view: View<F>, p: Path, i: nat) {
    IsTable(view, Step(p, i)) ==> forall j: nat :: Step(Step(p, i), j) !in view
  }

  lemma {:induction false} NotOwnChild(p: Path, i: nat)
    ensures p != Step(p, i)
  {
    assert LevelOf(Step(p, i)) == LevelOf(p) + 1;
  }

  /** Setting one slot to a leaf, or to nothing, keeps the shape of the tree. */
  lemma {:induction false} WithSlotTreeOk<W, F>(c: Config<W, F>, view: View<F>, root: nat, p: Path, i: nat, s: Slot<F>)
    requires TreeOk(c, view, root) && ChildOk(c, view, p, i) && Replaceable(view, p, i)
    requires s.Empty? || SlotOk(c, Step(p, i), s)
    requires s.Table? ==> s.frame !in Frames(view)
    ensures TreeOk(c, WithSlot(view, p, i, s), root)
  {
    hide SlotOk;
    var after := WithSlot(view, p, i, s);
    forall q, j | Step(q, j) in after ensures ChildOk(c, after, q, j) {
      if Step(q, j) == Step(p, i) {
        NotOwnChild(p, i);
      } else {
        assert ChildOk(c, view, q, j);
      }
    }
    forall q | IsTable(after, q) && q != Step(p, i) ensures IsTable(view, q) && after[q].frame in Frames(view) {
    }
    forall a, b | IsTable(after, a) && IsTable(after, b) && after[a].frame == after[b].frame ensures a == b {
    }
  }

  /** Writing one word sets one slot of the tree. */
  lemma {:induction false} WriteSlot<W, F>(
      c: Config<W, F>, m: map<nat, seq<W>>, view: View<F>, root: nat, p: Path, i: nat, w: W)
    requires Represents(c, m, view, root) && ChildOk(c, view, p, i) && Replaceable(view, p, i)
    requires view[p].frame in m && i < |m[view[p].frame]|
    requires var s := c.codec.Decode(w, TableLevel(c.geo, p));
             && (s.Empty? || SlotOk(c, Step(p, i), s))
             && (s.Table? ==> s.frame !in Frames(view))
             && (s.Table? ==> NewFrameIsEmpty(c, m, s.frame, TableLevel(c.geo, Step(p, i))))
    ensures var s := c.codec.Decode(w, TableLevel(c.geo, p));
            Represents(c, WithWord(m, view, p, i, w), WithSlot(view, p, i, s), root)
  {
    hide SlotOk;
    hide ConfigOk;
    hide Codec.Decode;
    hide TableLevel;
    var s := c.codec.Decode(w, TableLevel(c.geo, p));
    var after := WithSlot(view, p, i, s);
    WithSlotTreeOk(c, view, root, p, i, s);
    forall q | IsTable(after, q)
      ensures SameChildren(view, after, q, p, i) || NewTable(c, m, view, after, q, p)
    {
      if q == Step(p, i) {
        forall j: nat ensures Step(q, j) !in view {
          assert Step(q, j) in view ==> ChildOk(c, view, q, j);
        }
        assert view[p].frame in Frames(view);
        assert NewTable(c, m, view, after, q, p);
      } else {
        assert SameChildren(view, after, q, p, i);
      }
    }
    WriteMatches(c, m, view, root, p, i, w, after);
  }

  /** A frame all of whose words are absent, fit to be a table at `level`. */
  ghost predicate NewFrameIsEmpty<W, F>(c: Config<W, F>, m: map<nat, seq<W>>, frame: nat, level: int) {
    && frame in m && |m[frame]| == c.geo.EntriesPerTable() && level >= 1
    && forall i: nat | i < |m[frame]| :: c.codec.Decode(m[frame][i], level) == Empty
  }

  /** Only the frames of the tree matter. */
  lemma {:induction false} SameFramesMatch<W, F>(
      c: Config<W, F>, m: map<nat, seq<W>>, view: View<F>, root: nat, m': map<nat, seq<W>>)
    requires Represents(c, m, view, root)
    requires forall f | f in Frames(view) && f in m :: f in m' && m'[f] == m[f]
    ensures Represents(c, m', view, root)
  {
    hide SlotOk;
    forall p | IsTable(view, p) ensures TableMatches(c, m', view, p) {
      assert TableMatches(c, m, view, p);
      assert view[p].frame in Frames(view);
    }
  }
}
