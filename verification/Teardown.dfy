/** The frames below a table, which tearing the table down has to free. */
module Teardown {
  import opened Geometries
  import opened Entries
  import opened Memory
  import opened Trie
  import opened Histories

  /** `q` stands at `p` or below it. */
  predicate Under(p: Path, q: Path) {
    q == p || (q.Step? && Under(p, q.up))
  }

  /** The frames of the tables at `p` and below. */
  ghost function SubFrames<F>(view: View<F>, p: Path): set<nat> {
    set q | q in view && view[q].Table? && Under(p, q) :: view[q].frame
  }

  /** The frames below the first `n` entries of `p`. */
  ghost function BelowFrames<F>(view: View<F>, p: Path, n: nat): set<nat> {
    if n == 0 then {} else BelowFrames(view, p, n - 1) + SubFrames(view, Step(p, n - 1))
  }

  lemma {:induction false} UnderIsDeeper(p: Path, q: Path)
    requires Under(p, q)
    ensures LevelOf(p) <= LevelOf(q)
    ensures LevelOf(p) == LevelOf(q) ==> p == q
    decreases q
  {
    if q != p {
      UnderIsDeeper(p, q.up);
    }
  }

  /** Everything is under the root. */
  lemma {:induction false} AllUnderRoot(q: Path)
    ensures Under(Root, q)
    decreases q
  {
    if q.Step? {
      AllUnderRoot(q.up);
    }
  }

  /** What stands strictly below `p` stands under exactly one of its entries. */
  lemma {:induction false} UnderOneEntry(p: Path, q: Path) returns (i: nat)
    requires Under(p, q) && q != p
    ensures Under(Step(p, i), q)
    decreases q
  {
    if q.up == p {
      i := q.index;
    } else {
      i := UnderOneEntry(p, q.up);
    }
  }

  lemma {:induction false} UnderEntryOnce(p: Path, i: nat, k: nat, q: Path)
    requires Under(Step(p, i), q) && Under(Step(p, k), q)
    ensures i == k
    decreases q
  {
    if q != Step(p, i) && q != Step(p, k) {
      UnderEntryOnce(p, i, k, q.up);
    } else if q == Step(p, i) {
      UnderIsDeeper(Step(p, k), q);
    } else {
      UnderIsDeeper(Step(p, i), q);
    }
  }

  lemma {:induction false} UnderTrans(p: Path, i: nat, q: Path)
    requires Under(Step(p, i), q)
    ensures Under(p, q) && q != p
    decreases q
  {
    if q == Step(p, i) {
      assert Under(p, q.up);
      assert LevelOf(q) == LevelOf(p) + 1;
    } else {
      UnderTrans(p, i, q.up);
      UnderIsDeeper(Step(p, i), q);
      assert LevelOf(Step(p, i)) == LevelOf(p) + 1;
    }
  }

  /** A frame below the first `n` entries belongs to a table under one of them. */
  lemma {:induction false} BelowWitness<F>(view: View<F>, p: Path, n: nat, f: nat) returns (k: nat, q: Path)
    requires f in BelowFrames(view, p, n)
    ensures k < n && IsTable(view, q) && Under(Step(p, k), q) && view[q].frame == f
    decreases n
  {
    if f in SubFrames(view, Step(p, n - 1)) {
      k := n - 1;
      q :| q in view && view[q].Table? && Under(Step(p, n - 1), q) && view[q].frame == f;
    } else {
      k, q := BelowWitness(view, p, n - 1, f);
    }
  }

  lemma {:induction false} BelowContains<F>(view: View<F>, p: Path, n: nat, k: nat)
    requires k < n
    ensures SubFrames(view, Step(p, k)) <= BelowFrames(view, p, n)
    decreases n
  {
    if k < n - 1 {
      BelowContains(view, p, n - 1, k);
    }
  }

  /** The frames under different entries, and that of the table itself, are different. */
  lemma {:induction false} SubFramesApart<W(!new), F(!new)>(c: Config<W, F>, view: View<F>, root: nat, p: Path, n: nat)
    requires TreeOk(c, view, root) && IsTable(view, p)
    ensures SubFrames(view, Step(p, n)) !! BelowFrames(view, p, n)
    ensures view[p].frame !in BelowFrames(view, p, n)
  {
    hide SlotOk;
    hide BelowFrames;
    if f :| f in SubFrames(view, Step(p, n)) && f in BelowFrames(view, p, n) {
      var a :| a in view && view[a].Table? && Under(Step(p, n), a) && view[a].frame == f;
      var k, b := BelowWitness(view, p, n, f);
      SameFrameSamePath(c, view, root, a, b);
      UnderEntryOnce(p, n, k, a);
    }
    if view[p].frame in BelowFrames(view, p, n) {
      var k, b := BelowWitness(view, p, n, view[p].frame);
      SameFrameSamePath(c, view, root, p, b);
      UnderTrans(p, k, b);
    }
  }

  lemma {:induction false} SameFrameSamePath<W(!new), F(!new)>(
      c: Config<W, F>, view: View<F>, root: nat, a: Path, b: Path)
    requires TreeOk(c, view, root) && IsTable(view, a) && IsTable(view, b) && view[a].frame == view[b].frame
    ensures a == b
  {
  }

  /** The frames at and below `p` are its own and those below its entries. */
  lemma {:induction false} SubFramesSplit<W(!new), F(!new)>(c: Config<W, F>, view: View<F>, root: nat, p: Path)
    requires c.geo.Lawful() && TreeOk(c, view, root) && IsTable(view, p)
    ensures SubFrames(view, p) == {view[p].frame} + BelowFrames(view, p, c.geo.EntriesPerTable())
  {
    hide SlotOk;
    hide BelowFrames;
    var n := c.geo.EntriesPerTable();
    forall f | f in SubFrames(view, p) ensures f == view[p].frame || f in BelowFrames(view, p, n) {
      var q :| q in view && view[q].Table? && Under(p, q) && view[q].frame == f;
      if q != p {
        var i := UnderOneEntry(p, q);
        EntryInTree(c, view, root, p, i, q);
        BelowContains(view, p, n, i);
      }
    }
    forall f | f in BelowFrames(view, p, n) ensures f in SubFrames(view, p) {
      var k, q := BelowWitness(view, p, n, f);
      UnderTrans(p, k, q);
      assert q in view && view[q].Table? && Under(p, q) && view[q].frame == f;
    }
    assert p in view && view[p].Table? && Under(p, p);
  }

  /** An entry with something of the tree under it is a selectable one. */
  lemma {:induction false} EntryInTree<W(!new), F(!new)>(
      c: Config<W, F>, view: View<F>, root: nat, p: Path, i: nat, q: Path)
    requires c.geo.Lawful() && TreeOk(c, view, root) && q in view && Under(Step(p, i), q)
    ensures Step(p, i) in view && i < c.geo.EntriesPerTable()
    decreases q
  {
    hide SlotOk;
    assert ChildOk(c, view, q.up, q.index);
    if q == Step(p, i) {
      FanFits(c.geo, TableLevel(c.geo, p));
    } else {
      EntryInTree(c, view, root, p, i, q.up);
    }
  }

  /** No table stands below a leaf or an absent entry, nor below level 1. */
  lemma {:induction false} NoTableUnder<W(!new), F(!new)>(c: Config<W, F>, view: View<F>, root: nat, q: Path)
    requires c.geo.Lawful() && TreeOk(c, view, root) && (!IsTable(view, q) || TableLevel(c.geo, q) < 1)
    ensures SubFrames(view, q) == {}
  {
    if f :| f in SubFrames(view, q) {
      var t :| t in view && view[t].Table? && Under(q, t) && view[t].frame == f;
      TableUnderTable(c, view, root, q, t);
    }
  }

  lemma {:induction false} TableUnderTable<W(!new), F(!new)>(
      c: Config<W, F>, view: View<F>, root: nat, q: Path, t: Path)
    requires TreeOk(c, view, root) && IsTable(view, t) && Under(q, t)
    ensures IsTable(view, q) && TableLevel(c.geo, q) >= 1
    decreases t
  {
    assert SlotOk(c, t, view[t]);
    if t != q {
      assert ChildOk(c, view, t.up, t.index);
      TableUnderTable(c, view, root, q, t.up);
    }
  }

  /** Tearing down the root frees every table. */
  lemma {:induction false} SubFramesOfRoot<F>(view: View<F>)
    ensures SubFrames(view, Root) == Frames(view)
  {
    forall f | f in Frames(view) ensures f in SubFrames(view, Root) {
      var q :| q in view && view[q].Table? && view[q].frame == f;
      AllUnderRoot(q);
      assert q in view && view[q].Table? && Under(Root, q);
    }
  }

  /** The tables at `p` and below still hold in `now` what they held in `m`. */
  ghost predicate Intact<W, F>(view: View<F>, p: Path, m: map<nat, seq<W>>, now: map<nat, seq<W>>) {
    forall f :: f in SubFrames(view, p) && f in m ==> f in now && now[f] == m[f]
  }

  lemma {:induction false} AllIntact<W, F>(view: View<F>, m: map<nat, seq<W>>, foreign: map<nat, seq<W>>)
    ensures Intact(view, Root, m, m)
    ensures Owns(m, view, foreign) ==> m - Frames(view) == foreign
  {
  }

  /** The frame of the table to be torn down is live. */
  lemma {:induction false} TeardownStart<W(!new), F(!new)>(
      c: Config<W, F>, view: View<F>, root: nat, p: Path, m: map<nat, seq<W>>, now: map<nat, seq<W>>)
    requires c.geo.Lawful() && Represents(c, m, view, root) && IsTable(view, p) && Intact(view, p, m, now)
    ensures view[p].frame in now && now[view[p].frame] == m[view[p].frame]
    ensures now - BelowFrames(view, p, 0) == now
  {
    hide SlotOk;
    assert TableMatches(c, m, view, p);
    assert p in view && view[p].Table? && Under(p, p);
  }

  /** When the first `i` entries have been torn down, entry `i` is as it was, and what
      stands below it is intact. */
  lemma {:induction false} TeardownEntry<W(!new), F(!new)>(
      c: Config<W, F>, view: View<F>, root: nat, p: Path, m: map<nat, seq<W>>, before: map<nat, seq<W>>, i: nat)
    requires c.geo.Lawful() && Represents(c, m, view, root) && IsTable(view, p) && Intact(view, p, m, before)
    requires i < c.geo.EntriesPerTable() && TableLevel(c.geo, p) >= 1
    ensures var f, now := view[p].frame, before - BelowFrames(view, p, i);
            && f in now && f in m && now[f] == m[f] && i < |m[f]|
            && Intact(view, Step(p, i), m, now)
            && now - SubFrames(view, Step(p, i)) == before - BelowFrames(view, p, i + 1)
            && var w, level := m[f][i], TableLevel(c.geo, p);
            && (c.codec.isPresent(w) && c.codec.entryKind(w, level) == KindTable ==>
                  IsTable(view, Step(p, i)) && view[Step(p, i)].frame == c.codec.paddr(w))
            && (!(c.codec.isPresent(w) && c.codec.entryKind(w, level) == KindTable) ==>
                  SubFrames(view, Step(p, i)) == {})
  {
    hide SlotOk;
    hide SubFrames;
    TeardownStart(c, view, root, p, m, before);
    assert TableMatches(c, m, view, p);
    SubFramesApart(c, view, root, p, i);
    EntryFramesBelong(c, view, root, p, i);
    assert c.codec.Decode(m[view[p].frame][i], TableLevel(c.geo, p)) == At(view, Step(p, i));
    if !IsTable(view, Step(p, i)) {
      NoTableUnder(c, view, root, Step(p, i));
    }
  }

  lemma {:induction false} EntryFramesBelong<W(!new), F(!new)>(
      c: Config<W, F>, view: View<F>, root: nat, p: Path, i: nat)
    requires c.geo.Lawful() && TreeOk(c, view, root) && IsTable(view, p) && i < c.geo.EntriesPerTable()
    ensures SubFrames(view, Step(p, i)) <= SubFrames(view, p)
  {
    hide TreeOk;
    BelowContains(view, p, c.geo.EntriesPerTable(), i);
    SubFramesSplit(c, view, root, p);
  }

  /** When all entries have been torn down, only the table's own frame is left. */
  lemma {:induction false} TeardownEnd<W(!new), F(!new)>(
      c: Config<W, F>, view: View<F>, root: nat, p: Path, m: map<nat, seq<W>>, before: map<nat, seq<W>>)
    requires c.geo.Lawful() && Represents(c, m, view, root) && IsTable(view, p) && Intact(view, p, m, before)
    ensures var now := before - BelowFrames(view, p, c.geo.EntriesPerTable());
            view[p].frame in now && now - {view[p].frame} == before - SubFrames(view, p)
  {
    hide SlotOk;
    hide SubFrames;
    TeardownStart(c, view, root, p, m, before);
    SubFramesApart(c, view, root, p, c.geo.EntriesPerTable());
    SubFramesSplit(c, view, root, p);
  }

  /** Below a table of level 1 there is nothing to free. */
  lemma {:induction false} NothingBelow<W(!new), F(!new)>(
      c: Config<W, F>, m: map<nat, seq<W>>, view: View<F>, root: nat, p: Path, n: nat)
    requires c.geo.Lawful() && Represents(c, m, view, root) && TableLevel(c.geo, p) <= 1
    ensures BelowFrames(view, p, n) == {}
    decreases n
  {
    hide TreeOk;
    hide Matches;
    if n > 0 {
      NothingBelow(c, m, view, root, p, n - 1);
      NoTableUnder(c, view, root, Step(p, n - 1));
    }
  }
}
