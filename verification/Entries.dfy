/** What mapping and freeing pages does to page table entries, attributes included: to those on the way to the pages, and to no
  others.  An entry is known by the place of its table and its index. */
module Entries {
  import opened Common
  import opened Pte
  import opened PageTables

  /** The entry, all zero as long as its table is not there. */
  function EntryAt(mem: Memory, t: Tree, p: Place, i: nat): Entry {
    if p in t && t[p] < |mem| && i < ENTRIES then mem[t[p]][i] else Entry(0, 0)
  }

  /** Its attributes afterwards: entries of upper levels that are present stay as they are, all others that are written to keep
    their attributes and become present with those of the mapping; what is not written to does not change. */
  predicate EntryWritten(before: Entry, after: Entry, level: nat, written: bool, a: Attributes) {
    if !written || (level > 0 && Present(before)) then after == before
    else after.attrs == before.attrs | MASK_PRESENT | a
  }

  ghost predicate Written(mem0: Memory, t0: Tree, mem: Memory, t: Tree, at: set<(Place, nat)>, a: Attributes) {
    && (forall p :: p in t0 ==> p in t && t[p] == t0[p])
    && (forall s :: s in at ==> s.0 in t)
    && forall p, i :: p in t && 0 <= i < ENTRIES ==>
         EntryWritten(EntryAt(mem0, t0, p, i), EntryAt(mem, t, p, i), p.level, (p, i) in at, a)
  }

  /** The entries on the way to a page, in the tables above `level`. */
  function PathAbove(page: nat, level: int): set<(Place, nat)>
    requires -1 <= level
  {
    set l | 0 <= l <= 3 && level < l :: (On(page, l), Index(page, l))
  }

  function Path(page: nat): set<(Place, nat)> {
    PathAbove(page, -1)
  }

  /** The entries on the way to the pages of [lo, hi). */
  ghost function Paths(lo: nat, hi: nat): set<(Place, nat)> {
    set q, l | lo <= q < hi && 0 <= l <= 3 :: (On(q, l), Index(q, l))
  }

  lemma PathStep(page: nat, level: nat)
    requires level <= 3
    ensures PathAbove(page, level - 1) == PathAbove(page, level) + {(On(page, level), Index(page, level))}
    ensures PathAbove(page, 3) == {}
  {
    hide On, Index;
  }

  lemma PathsStep(lo: nat, hi: nat)
    ensures lo >= hi ==> Paths(lo, hi) == {}
    ensures lo < hi ==> Paths(lo, hi) == Paths(lo + 1, hi) + Path(lo)
    ensures Paths(lo, lo + 1) == Path(lo)
  {
    hide On, Index;
  }

  lemma OrTwice(x: Attributes, a: Attributes)
    ensures (x | MASK_PRESENT | a) | MASK_PRESENT | a == x | MASK_PRESENT | a
    ensures (x | MASK_PRESENT | a) & MASK_PRESENT != 0 && (x | MASK_PRESENT | a) & a == a
  {
  }

  /** Present, and with the attributes. */
  predicate HasAttributes(e: Entry, a: Attributes) {
    Present(e) && e.attrs & a == a
  }

  lemma WrittenHas(before: Entry, after: Entry, a: Attributes)
    requires EntryWritten(before, after, 0, true, a)
    ensures HasAttributes(after, a)
  {
    OrTwice(before.attrs, a);
  }

  lemma WrittenTwice(e0: Entry, e1: Entry, e2: Entry, level: nat, first: bool, second: bool, a: Attributes)
    requires EntryWritten(e0, e1, level, first, a) && EntryWritten(e1, e2, level, second, a)
    ensures EntryWritten(e0, e2, level, first || second, a)
  {
    OrTwice(e0.attrs, a);
  }

  lemma WrittenTogether(mem0: Memory, t0: Tree, mem1: Memory, t1: Tree, mem2: Memory, t2: Tree, first: set<(Place, nat)>,
                        second: set<(Place, nat)>, a: Attributes)
    requires Written(mem0, t0, mem1, t1, first, a) && Written(mem1, t1, mem2, t2, second, a)
    ensures Written(mem0, t0, mem2, t2, first + second, a)
  {
    hide EntryWritten;
    forall p, i | p in t2 && 0 <= i < ENTRIES
      ensures EntryWritten(EntryAt(mem0, t0, p, i), EntryAt(mem2, t2, p, i), p.level, (p, i) in first + second, a)
    {
      OneTogether(mem0, t0, mem1, t1, mem2, t2, first, second, a, p, i);
    }
  }

  lemma OneTogether(mem0: Memory, t0: Tree, mem1: Memory, t1: Tree, mem2: Memory, t2: Tree, first: set<(Place, nat)>,
                    second: set<(Place, nat)>, a: Attributes, p: Place, i: nat)
    requires Written(mem0, t0, mem1, t1, first, a) && Written(mem1, t1, mem2, t2, second, a) && p in t2 && i < ENTRIES
    ensures EntryWritten(EntryAt(mem0, t0, p, i), EntryAt(mem2, t2, p, i), p.level, (p, i) in first + second, a)
  {
    if p in t1 {
      WrittenTwice(EntryAt(mem0, t0, p, i), EntryAt(mem1, t1, p, i), EntryAt(mem2, t2, p, i), p.level, (p, i) in first, (p, i) in second, a);
    }
  }

  lemma NothingWritten(mem: Memory, t: Tree, a: Attributes)
    ensures Written(mem, t, mem, t, {}, a)
  {
  }

  /** An entry of an upper level that is present is left alone. */
  lemma PresentLeftAlone(mem: Memory, t: Tree, p: Place, i: nat, a: Attributes)
    requires p in t && t[p] < |mem| && i < ENTRIES && p.level > 0 && Present(mem[t[p]][i])
    ensures Written(mem, t, mem, t, {(p, i)}, a)
  {
  }

  /** Pointing the entry of a page at a frame. */
  lemma LeafWritten(mem: Memory, root: nat, t: Tree, page: nat, frame: nat, a: Attributes)
    requires WellFormed(mem, root, t) && page < PAGES && On(page, 0) in t && t[On(page, 0)] < |mem|
    ensures var e := PointTo(mem[t[On(page, 0)]][Index(page, 0)], frame, a);
            Written(mem, t, WriteEntry(mem, t[On(page, 0)], Index(page, 0), e), t, {(On(page, 0), Index(page, 0))}, a)
  {
    hide Present;
  }

  /** Hanging a new table under an absent entry. */
  lemma LinkWritten(mem: Memory, root: nat, t: Tree, p: Place, i: nat, frame: nat, a: Attributes)
    requires WellFormed(mem, root, t) && p in t && 0 < p.level && i < ENTRIES && t[p] < |mem|
    requires !Present(mem[t[p]][i]) && frame < |mem| && frame !in t.Values && Child(p, i) !in t
    ensures var e := PointTo(mem[t[p]][i], frame, a);
            Written(mem, t, WriteEntry(mem[frame := ZeroTable()], t[p], i, e), t[Child(p, i) := frame], {(p, i)}, a)
  {
    var e, c := PointTo(mem[t[p]][i], frame, a), Child(p, i);
    var mem', t' := WriteEntry(mem[frame := ZeroTable()], t[p], i, e), t[c := frame];
    hide Present, Child;
    assert t[p] in t.Values;
    forall q, j | q in t' && 0 <= j < ENTRIES
      ensures EntryWritten(EntryAt(mem, t, q, j), EntryAt(mem', t', q, j), q.level, (q, j) in {(p, i)}, a)
    {
      if q in t {
        assert t[q] in t.Values && (q != p ==> t[q] != t[p]);
      }
    }
  }

  /** Afterwards the walk to a page that was mapped finds its entry with the attributes it had, if it had a table, present and with
    those of the mapping; the walk to any other page finds what it found before, or the zero entry of a new table. */
  lemma PageWritten(mem0: Memory, t0: Tree, mem: Memory, t: Tree, root: nat, lo: nat, hi: nat, a: Attributes, q: nat)
    requires WellFormed(mem0, root, t0) && WellFormed(mem, root, t) && Written(mem0, t0, mem, t, Paths(lo, hi), a) && q < PAGES
    ensures var before := match Walk(mem0, root, q, 3) case Some(e) => e case None => Entry(0, 0);
            match Walk(mem, root, q, 3)
            case Some(e) => EntryWritten(before, e, 0, lo <= q < hi, a)
            case None => !(lo <= q < hi) && Walk(mem0, root, q, 3) == None
  {
    LeafEntry(mem0, root, t0, q);
    LeafEntry(mem, root, t, q);
    LeafOnPath(q, lo, hi);
    hide WellFormed, Walk, On, Index, Paths, Present, EntryAt, EntryWritten;
    var p, i := On(q, 0), Index(q, 0);
    assert (p, i) in Paths(lo, hi) ==> p in t;
    if p in t {
      assert EntryWritten(EntryAt(mem0, t0, p, i), EntryAt(mem, t, p, i), p.level, (p, i) in Paths(lo, hi), a);
    }
  }

  lemma LeafEntry(mem: Memory, root: nat, t: Tree, q: nat)
    requires WellFormed(mem, root, t) && q < PAGES
    ensures Walk(mem, root, q, 3) == if On(q, 0) in t then Some(EntryAt(mem, t, On(q, 0), Index(q, 0))) else None
    ensures On(q, 0) !in t ==> EntryAt(mem, t, On(q, 0), Index(q, 0)) == Entry(0, 0)
  {
    TranslateMeans(mem, root, t, q);
    WellFormedFacts(mem, root, t, On(q, 0));
    hide WellFormed, Walk;
  }

  lemma LeafOnPath(q: nat, lo: nat, hi: nat)
    ensures (On(q, 0), Index(q, 0)) in Paths(lo, hi) <==> lo <= q < hi
    ensures Index(q, 0) == q % ENTRIES && On(q, 0).level == 0
  {
    forall r, l: nat | lo <= r < hi && 0 <= l <= 3 && (On(r, l), Index(r, l)) == (On(q, 0), Index(q, 0)) ensures r == q {
      assert l == 0;
    }
  }

  // ---------------------------------------------------------------- freeing

  /** Freeing the pages of [lo, hi) clears the present bit of their entries, and changes nothing else in memory. */
  ghost predicate EntriesCleared(mem0: Memory, mem: Memory, t: Tree, lo: nat, hi: nat) {
    forall p, i :: p in t && 0 <= i < ENTRIES ==>
      EntryAt(mem, t, p, i) == if p.level == 0 && lo <= p.number * 512 + i < hi
                               then EntryCleared(EntryAt(mem0, t, p, i)) else EntryAt(mem0, t, p, i)
  }

  function EntryCleared(e: Entry): Entry {
    Entry(e.frame, e.attrs & !MASK_PRESENT)
  }

  /** Writing one entry changes that entry. */
  lemma OneEntryWritten(mem: Memory, root: nat, t: Tree, p: Place, i: nat, e: Entry, q: Place, j: nat)
    requires WellFormed(mem, root, t) && p in t && t[p] < |mem| && i < ENTRIES && q in t && j < ENTRIES
    ensures EntryAt(WriteEntry(mem, t[p], i, e), t, q, j) == if (q, j) == (p, i) then e else EntryAt(mem, t, q, j)
  {
    assert q != p ==> t[q] != t[p];
  }

  lemma LeafOf(page: nat, p: Place, i: nat)
    requires p.level == 0 && i < ENTRIES
    ensures page <= p.number * 512 + i < page + 1 <==> p == On(page, 0) && i == page % ENTRIES
  {
  }

  lemma LeafCleared(mem: Memory, root: nat, t: Tree, page: nat)
    requires WellFormed(mem, root, t) && page < PAGES && On(page, 0) in t && t[On(page, 0)] < |mem|
    ensures EntriesCleared(mem, WriteEntry(mem, t[On(page, 0)], page % ENTRIES, MarkAbsent(mem[t[On(page, 0)]][page % ENTRIES])),
                           t, page, page + 1)
  {
    var leaf, i := On(page, 0), page % ENTRIES;
    var e := MarkAbsent(mem[t[leaf]][i]);
    assert EntryAt(mem, t, leaf, i) == mem[t[leaf]][i] && e == EntryCleared(mem[t[leaf]][i]);
    forall q, j | q in t && 0 <= j < ENTRIES
      ensures EntryAt(WriteEntry(mem, t[leaf], i, e), t, q, j) == if q.level == 0 && page <= q.number * 512 + j < page + 1
                then EntryCleared(EntryAt(mem, t, q, j)) else EntryAt(mem, t, q, j)
    {
      OneEntryWritten(mem, root, t, leaf, i, e, q, j);
      if q.level == 0 { LeafOf(page, q, j); }
      hide WellFormed, EntryAt, WriteEntry, EntryCleared;
    }
  }

  lemma NothingCleared(mem: Memory, t: Tree, page: nat)
    ensures EntriesCleared(mem, mem, t, page, page)
    ensures On(page, 0) !in t ==> EntriesCleared(mem, mem, t, page, page + 1)
  {
  }

  lemma ClearedOneMore(mem0: Memory, mem1: Memory, mem: Memory, t: Tree, lo: nat, q: nat)
    requires lo <= q && EntriesCleared(mem0, mem1, t, lo, q) && EntriesCleared(mem1, mem, t, q, q + 1)
    ensures EntriesCleared(mem0, mem, t, lo, q + 1)
  {
    hide EntryAt, EntryCleared;
    forall p, i | p in t && 0 <= i < ENTRIES
      ensures EntryAt(mem, t, p, i) == if p.level == 0 && lo <= p.number * 512 + i < q + 1
                                       then EntryCleared(EntryAt(mem0, t, p, i)) else EntryAt(mem0, t, p, i)
    {
      assert EntryAt(mem1, t, p, i) == if p.level == 0 && lo <= p.number * 512 + i < q
                                       then EntryCleared(EntryAt(mem0, t, p, i)) else EntryAt(mem0, t, p, i);
    }
  }
}
