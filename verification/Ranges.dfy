/** What happens to ranges of pages: what is mapped, which frames that takes, and whether the bitmap of page tables without
  an absent page still agrees with the tables. */
module Ranges {
  import opened Common
  import opened Pte
  import opened PageTables
  import opened Budget
  import PMM = Pmm

  const PAGE_SIZE: nat := 4096
  const PT_SIZE: nat := 2097152
  const TOTAL_PTS: nat := 32768
  const MAX_REQUEST: nat := 524287                // pages whose size in bytes fits an int
  const LIMIT: nat := (TOTAL_PTS + 1) * ENTRIES   // the search looks at tables 0 .. TOTAL_PTS
  const TABLES: nat := 134217728                  // 512^3 page tables cover all of virtual memory

  ghost predicate Absent(mem: Memory, root: nat, lo: nat, hi: nat) {
    forall q :: lo <= q < hi ==> Translate(mem, root, q) == None
  }

  lemma AbsentStep(mem: Memory, root: nat, lo: nat, hi: nat)
    ensures lo >= hi ==> Absent(mem, root, lo, hi)
    ensures lo < hi ==> (Absent(mem, root, lo, hi) <==> Translate(mem, root, lo) == None && Absent(mem, root, lo + 1, hi))
  {
    hide Translate;
  }

  ghost predicate Mapped(mem: Memory, root: nat, lo: nat, hi: nat) {
    forall q :: lo <= q < hi ==> Translate(mem, root, q).Some?
  }

  /** Every page outside [lo, hi) translates as before. */
  ghost predicate SameOutside(mem0: Memory, mem: Memory, root: nat, lo: nat, hi: nat) {
    forall q :: 0 <= q < PAGES && !(lo <= q < hi) ==> Translate(mem, root, q) == Translate(mem0, root, q)
  }

  /** Every page outside [lo, hi) keeps the frame that its entry names; entries of new tables name frame 0. */
  ghost predicate NamesKept(mem0: Memory, mem: Memory, root: nat, lo: nat, hi: nat) {
    forall q :: 0 <= q < PAGES && !(lo <= q < hi) ==> NameKept(NamedFrame(mem0, root, q), NamedFrame(mem, root, q))
  }

  lemma NamesKeptGrows(mem0: Memory, mem1: Memory, mem2: Memory, root: nat, lo: nat, mid: nat, hi: nat)
    requires lo <= mid <= hi && NamesKept(mem0, mem1, root, mid, hi) && NamesKept(mem1, mem2, root, lo, mid)
    ensures NamesKept(mem0, mem2, root, lo, hi)
  {
    hide NamedFrame;
    forall q | 0 <= q < PAGES && !(lo <= q < hi) ensures NameKept(NamedFrame(mem0, root, q), NamedFrame(mem2, root, q)) {
      assert NameKept(NamedFrame(mem0, root, q), NamedFrame(mem1, root, q));
    }
  }

  /** Every page of page table `p` is present. */
  ghost predicate Full(mem: Memory, root: nat, p: nat) {
    Mapped(mem, root, p * ENTRIES, (p + 1) * ENTRIES)
  }

  /** Every page of [lo, hi) has a frame of its own, taken from `free0`, no longer free and not a table. */
  ghost predicate FreshFrames(mem: Memory, root: nat, lo: nat, hi: nat, free0: set<nat>, free: set<nat>, tables: set<nat>) {
    && (forall q :: lo <= q < hi ==>
          && Translate(mem, root, q).Some?
          && Translate(mem, root, q).value in free0 - free - tables)
    && (forall q, r :: lo <= q < r < hi ==> Translate(mem, root, q) != Translate(mem, root, r))
  }

  /** The frames that the pages of [lo, hi) are mapped to. */
  ghost function FramesOf(mem: Memory, root: nat, lo: nat, hi: nat): set<nat> {
    set q | lo <= q < hi && Translate(mem, root, q).Some? :: Translate(mem, root, q).value
  }

  /** What mapping [lo, hi) does to memory, to the free frames and to the frames used as tables: every frame taken is that of a
    page or a new table. */
  ghost predicate RangeMapped(mem0: Memory, mem: Memory, root: nat, lo: nat, hi: nat,
                              free0: set<nat>, free: set<nat>, tables0: set<nat>, tables: set<nat>) {
    && SameOutside(mem0, mem, root, lo, hi) && NamesKept(mem0, mem, root, lo, hi)
    && free <= free0 && |free0| <= |free| + 4 * (hi - lo)
    && tables0 <= tables && free0 == free + FramesOf(mem, root, lo, hi) + (tables - tables0) && free !! tables
    && FreshFrames(mem, root, lo, hi, free0, free, tables)
  }

  lemma RangeMappedNothing(mem: Memory, root: nat, lo: nat, free: set<nat>, tables: set<nat>)
    requires free !! tables
    ensures RangeMapped(mem, mem, root, lo, lo, free, free, tables, tables)
  {
    hide Translate, NamedFrame;
    assert FramesOf(mem, root, lo, lo) == {};
  }

  lemma RangeMappedOne(mem0: Memory, mem: Memory, root: nat, page: nat, frame: nat, free0: set<nat>, free1: set<nat>, free: set<nat>,
                       tables0: set<nat>, tables: set<nat>)
    requires SameOutside(mem0, mem, root, page, page + 1) && NamesKept(mem0, mem, root, page, page + 1)
    requires Translate(mem, root, page) == Some(frame)
    requires frame in free0 && free1 == free0 - {frame} && frame !in tables0 && free0 !! tables0
    requires free <= free1 && |free1| <= |free| + 3 && tables == tables0 + (free1 - free)
    ensures RangeMapped(mem0, mem, root, page, page + 1, free0, free, tables0, tables)
  {
    hide Translate, NamesKept;
    assert FramesOf(mem, root, page, page + 1) == {frame};
    assert tables - tables0 == free1 - free;
  }

  lemma RangeMappedGrows(mem0: Memory, mem1: Memory, mem2: Memory, root: nat, lo: nat, hi: nat,
                         free0: set<nat>, free1: set<nat>, free2: set<nat>,
                         tables0: set<nat>, tables1: set<nat>, tables2: set<nat>)
    requires lo < hi <= PAGES
    requires RangeMapped(mem0, mem1, root, lo + 1, hi, free0, free1, tables0, tables1)
    requires RangeMapped(mem1, mem2, root, lo, lo + 1, free1, free2, tables1, tables2)
    ensures RangeMapped(mem0, mem2, root, lo, hi, free0, free2, tables0, tables2)
  {
    hide Translate, FramesOf, NamesKept;
    NamesKeptGrows(mem0, mem1, mem2, root, lo, lo + 1, hi);
    FramesOfGrows(mem1, mem2, root, lo, hi);
    AccountsAdd(free0, free1, free2, FramesOf(mem1, root, lo + 1, hi), FramesOf(mem2, root, lo, lo + 1), tables0, tables1, tables2);
    FreshGrows(mem1, mem2, root, lo, hi, free0, free1, free2, tables1, tables2);
    hide FreshFrames;
  }

  lemma AccountsAdd(free0: set<nat>, free1: set<nat>, free2: set<nat>, frames1: set<nat>, frames2: set<nat>,
                    tables0: set<nat>, tables1: set<nat>, tables2: set<nat>)
    requires tables0 <= tables1 <= tables2
    requires free0 == free1 + frames1 + (tables1 - tables0) && free1 == free2 + frames2 + (tables2 - tables1)
    ensures free0 == free2 + (frames2 + frames1) + (tables2 - tables0)
  {
  }

  lemma FreshGrows(mem1: Memory, mem2: Memory, root: nat, lo: nat, hi: nat, free0: set<nat>, free1: set<nat>, free2: set<nat>,
                   tables1: set<nat>, tables2: set<nat>)
    requires lo < hi <= PAGES && SameOutside(mem1, mem2, root, lo, lo + 1)
    requires free2 <= free1 <= free0 && tables1 <= tables2 <= tables1 + free1
    requires FreshFrames(mem1, root, lo + 1, hi, free0, free1, tables1)
    requires FreshFrames(mem2, root, lo, lo + 1, free1, free2, tables2)
    ensures FreshFrames(mem2, root, lo, hi, free0, free2, tables2)
  {
    hide Translate;
  }

  lemma FramesOfGrows(mem1: Memory, mem2: Memory, root: nat, lo: nat, hi: nat)
    requires lo < hi <= PAGES && SameOutside(mem1, mem2, root, lo, lo + 1)
    ensures FramesOf(mem2, root, lo, hi) == FramesOf(mem2, root, lo, lo + 1) + FramesOf(mem1, root, lo + 1, hi)
  {
    hide Translate;
  }

  /** The first page of the page table that `page` belongs to. */
  function TableStart(page: nat): (r: nat)
    ensures r <= page < r + ENTRIES
  {
    page - page % ENTRIES
  }

  ghost predicate Agreement(mem: Memory, root: nat, bits: set<nat>) {
    forall p :: 0 <= p < TABLES ==> (p in bits <==> Full(mem, root, p))
  }

  /** The bits that `UpdateBitmap` leaves. */
  ghost predicate Updated(mem: Memory, root: nat, bits0: set<nat>, bits: set<nat>, from: nat, to: nat, incomplete: bool) {
    forall p :: p in bits <==>
      if p == to then Full(mem, root, p) && !(incomplete && p == from)
      else if from <= p < to then !(incomplete && p == from)
      else p in bits0
  }

  /** A table none of whose pages changed is as full as before. */
  lemma FullUnchanged(mem0: Memory, mem: Memory, root: nat, lo: nat, hi: nat, p: nat)
    requires SameOutside(mem0, mem, root, lo, hi) && p < TABLES
    requires (p + 1) * ENTRIES <= lo || hi <= p * ENTRIES || lo == hi
    ensures Full(mem, root, p) <==> Full(mem0, root, p)
  {
    hide Translate;
    forall q | p * ENTRIES <= q < (p + 1) * ENTRIES ensures Translate(mem, root, q) == Translate(mem0, root, q) {
    }
  }

  /** The bitmap still agrees after mapping [start, finish) exactly if the update was right about the first table. */
  lemma AgreementAfterMapping(mem0: Memory, mem: Memory, root: nat, bits0: set<nat>, bits: set<nat>, start: nat, finish: nat)
    requires start <= finish && finish / ENTRIES < TABLES
    requires Agreement(mem0, root, bits0)
    requires SameOutside(mem0, mem, root, start, finish) && Mapped(mem, root, start, finish)
    requires Updated(mem, root, bits0, bits, start / ENTRIES, finish / ENTRIES, false)
    ensures Agreement(mem, root, bits) <==>
            start / ENTRIES == finish / ENTRIES || Mapped(mem0, root, TableStart(start), start)
  {
    hide Translate;
    var from, to := start / ENTRIES, finish / ENTRIES;
    forall p | 0 <= p < TABLES && p != from ensures p in bits <==> Full(mem, root, p) {
      if p < from || p > to {
        FullUnchanged(mem0, mem, root, start, finish, p);
        assert p in bits0 <==> Full(mem0, root, p);
      }
    }
    assert Agreement(mem, root, bits) <==> (from in bits <==> Full(mem, root, from));
    if from < to {
      FirstTableFull(mem0, mem, root, start, finish);
    }
  }

  lemma FirstTableFull(mem0: Memory, mem: Memory, root: nat, start: nat, finish: nat)
    requires finish / ENTRIES < TABLES && start / ENTRIES < finish / ENTRIES
    requires SameOutside(mem0, mem, root, start, finish) && Mapped(mem, root, start, finish)
    ensures Full(mem, root, start / ENTRIES) <==> Mapped(mem0, root, TableStart(start), start)
  {
    hide Translate;
    var lo := TableStart(start);
    if Full(mem, root, start / ENTRIES) {
      forall q | lo <= q < start ensures Translate(mem0, root, q).Some? {
        assert Translate(mem, root, q) == Translate(mem0, root, q);
      }
    }
    if Mapped(mem0, root, lo, start) {
      forall q | lo <= q < lo + ENTRIES ensures Translate(mem, root, q).Some? {
        if q < start { assert Translate(mem, root, q) == Translate(mem0, root, q); }
      }
    }
  }

  lemma RangeMappedFacts(mem0: Memory, mem: Memory, root: nat, lo: nat, hi: nat,
                         free0: set<nat>, free: set<nat>, tables0: set<nat>, tables: set<nat>)
    requires RangeMapped(mem0, mem, root, lo, hi, free0, free, tables0, tables)
    ensures SameOutside(mem0, mem, root, lo, hi) && Mapped(mem, root, lo, hi)
  {
  }

  lemma FramesOfStep(mem: Memory, root: nat, lo: nat, hi: nat)
    requires lo <= hi && Translate(mem, root, hi).Some?
    ensures FramesOf(mem, root, lo, hi + 1) == FramesOf(mem, root, lo, hi) + {Translate(mem, root, hi).value}
  {
    hide Translate;
  }

  /** The bits that freeing the pages of [lo, hi) clears, when the byte range ends in table `endPt`. */
  ghost predicate Cleared(bits0: set<nat>, bits: set<nat>, startPt: nat, endPt: nat, endInside: bool) {
    forall p :: p in bits <==> p in bits0 && !(startPt <= p < endPt) && !(endInside && p == endPt)
  }

  /** The byte range ends inside a full table none of whose pages is freed: the range is empty, or it starts inside the last
    page before that table. */
  predicate ClearsTooMuch(bits: set<nat>, start: nat, size: nat) {
    var end := start + size;
    && end % PT_SIZE != 0 && end / PT_SIZE in bits
    && (size == 0 || PagesEnd(start, size) <= end / PT_SIZE * ENTRIES)
  }

  /** Freeing keeps the agreement, except that it may clear the bit of a table it does not touch. */
  lemma AgreementAfterFreeing(mem0: Memory, mem: Memory, root: nat, bits0: set<nat>, bits: set<nat>, start: nat, size: nat)
    requires start + size <= PAGES * PAGE_SIZE
    requires var lo, hi := start / PAGE_SIZE, PagesEnd(start, size);
             Agreement(mem0, root, bits0) && SameOutside(mem0, mem, root, lo, hi) && Absent(mem, root, lo, hi)
    requires Cleared(bits0, bits, start / PT_SIZE, (start + size) / PT_SIZE, (start + size) % PT_SIZE != 0)
    ensures Agreement(mem, root, bits) <==> !ClearsTooMuch(bits0, start, size)
  {
    hide Translate, Mapped;
    var lo, hi, endPt := start / PAGE_SIZE, PagesEnd(start, size), (start + size) / PT_SIZE;
    forall p | 0 <= p < TABLES && !(p == endPt && ClearsTooMuch(bits0, start, size)) ensures p in bits <==> Full(mem, root, p) {
      TableAfterFreeing(mem0, mem, root, bits0, bits, start, size, p);
    }
    if ClearsTooMuch(bits0, start, size) {
      assert endPt !in bits && endPt in bits0;
      FullUnchanged(mem0, mem, root, lo, hi, endPt);
    }
  }

  lemma TableAfterFreeing(mem0: Memory, mem: Memory, root: nat, bits0: set<nat>, bits: set<nat>, start: nat, size: nat, p: nat)
    requires p < TABLES && !(p == (start + size) / PT_SIZE && ClearsTooMuch(bits0, start, size))
    requires var lo, hi := start / PAGE_SIZE, PagesEnd(start, size);
             Agreement(mem0, root, bits0) && SameOutside(mem0, mem, root, lo, hi) && Absent(mem, root, lo, hi)
    requires Cleared(bits0, bits, start / PT_SIZE, (start + size) / PT_SIZE, (start + size) % PT_SIZE != 0)
    ensures p in bits <==> Full(mem, root, p)
  {
    hide Translate, Mapped;
    var lo, hi := start / PAGE_SIZE, PagesEnd(start, size);
    assert p in bits0 <==> Full(mem0, root, p);
    if (p + 1) * ENTRIES <= lo || hi <= p * ENTRIES || lo == hi {
      FullUnchanged(mem0, mem, root, lo, hi, p);
    } else {
      NotFull(mem, root, p, if lo > p * ENTRIES then lo else p * ENTRIES);
    }
  }

  lemma NotFull(mem: Memory, root: nat, p: nat, q: nat)
    requires p * ENTRIES <= q < (p + 1) * ENTRIES && Translate(mem, root, q) == None
    ensures !Full(mem, root, p)
  {
    hide Translate;
  }

  // ---------------------------------------------------------------- one operation on a range

  /** Memory, where its tables are in the tree, and the frames that are free or tables. */
  datatype Space = Space(mem: Memory, places: set<Place>, free: set<nat>, tables: set<nat>)

  /** The range was absent and is mapped to fresh frames; exactly the frames needed for it were taken. */
  ghost predicate Taken(root: nat, s: Space, s': Space, lo: nat, hi: nat)
    requires lo <= hi
  {
    && Absent(s.mem, root, lo, hi)
    && RangeMapped(s.mem, s'.mem, root, lo, hi, s.free, s'.free, s.tables, s'.tables)
    && |s'.free| == |s.free| - Needed(s.places, lo, hi) && s'.places == s.places + Way(lo, hi)
  }

  lemma TakenNothing(root: nat, s: Space, lo: nat)
    requires s.free !! s.tables
    ensures Taken(root, s, s, lo, lo)
  {
    hide Translate;
    RangeMappedNothing(s.mem, root, lo, s.free, s.tables);
    NothingNeeded(s.places, lo);
  }

  /** One page more in front. */
  lemma TakenGrows(root: nat, s0: Space, s1: Space, s2: Space, t1: Tree, lo: nat, hi: nat)
    requires lo < hi <= PAGES && Translate(s0.mem, root, lo) == None && Taken(root, s0, s1, lo + 1, hi)
    requires RangeMapped(s1.mem, s2.mem, root, lo, lo + 1, s1.free, s2.free, s1.tables, s2.tables)
    requires s1.places == t1.Keys && |s2.free| == |s1.free| - 1 - Missing(t1, lo, 3) && s2.places == s1.places + OnWay(lo, 3)
    ensures Taken(root, s0, s2, lo, hi)
  {
    hide Translate, RangeMapped, Absent, Needed, Missing, OnWay, Way;
    AbsentStep(s0.mem, root, lo, hi);
    RangeMappedGrows(s0.mem, s1.mem, s2.mem, root, lo, hi, s0.free, s1.free, s2.free, s0.tables, s1.tables, s2.tables);
    NeededStep(s0.places, t1, lo, hi);
    RangeWay(lo, hi);
  }

  lemma TakenFacts(root: nat, s: Space, s': Space, lo: nat, hi: nat)
    requires lo <= hi && Taken(root, s, s', lo, hi)
    ensures Absent(s.mem, root, lo, hi) && SameOutside(s.mem, s'.mem, root, lo, hi) && Mapped(s'.mem, root, lo, hi)
  {
    hide Needed, Way, Absent;
    RangeMappedFacts(s.mem, s'.mem, root, lo, hi, s.free, s'.free, s.tables, s'.tables);
  }

  /** The frames that the entries of the pages of [lo, hi) name. */
  ghost function NamedFrames(mem: Memory, root: nat, lo: nat, hi: nat): set<nat> {
    set q | lo <= q < hi && NamedFrame(mem, root, q).Some? :: NamedFrame(mem, root, q).value
  }

  /** The entries of mapped pages name their frames; those of absent pages may name others. */
  lemma MappedNames(mem: Memory, root: nat, lo: nat, hi: nat)
    ensures FramesOf(mem, root, lo, hi) <= NamedFrames(mem, root, lo, hi)
    ensures Mapped(mem, root, lo, hi) ==> NamedFrames(mem, root, lo, hi) == FramesOf(mem, root, lo, hi)
  {
    hide Walk;
    assert forall q :: lo <= q < hi && Translate(mem, root, q).Some? ==> NamedFrame(mem, root, q) == Translate(mem, root, q);
    hide Translate, NamedFrame;
  }

  /** The range is absent, and its frames are free. */
  ghost predicate Released(root: nat, s: Space, s': Space, lo: nat, hi: nat) {
    && Absent(s'.mem, root, lo, hi) && SameOutside(s.mem, s'.mem, root, lo, hi) && SameNames(s.mem, s'.mem, root)
    && s'.free == s.free + FramesOf(s.mem, root, lo, hi)
    && s'.tables == s.tables && s'.places == s.places
  }

  /** Freeing a range undoes its allocation: every page translates as before the allocation, and exactly the frames that
    became tables stay taken. */
  lemma FreeUndoesAlloc(root: nat, s0: Space, s1: Space, s2: Space, lo: nat, hi: nat)
    requires lo <= hi && Taken(root, s0, s1, lo, hi) && Released(root, s1, s2, lo, hi)
    ensures SameOutside(s0.mem, s2.mem, root, 0, 0)
    ensures s2.free == s0.free - (s2.tables - s0.tables) && |s2.free| == |s1.free| + (hi - lo)
  {
    hide Translate, Needed, Way, FramesOf;
    forall q | 0 <= q < PAGES ensures Translate(s2.mem, root, q) == Translate(s0.mem, root, q) {
      if !(lo <= q < hi) { assert Translate(s2.mem, root, q) == Translate(s1.mem, root, q); }
    }
    FramesCount(s1.mem, root, lo, hi, s0.free, s1.free, s1.tables);
  }

  lemma {:induction false} FramesCount(mem: Memory, root: nat, lo: nat, hi: nat, free0: set<nat>, free: set<nat>, tables: set<nat>)
    requires lo <= hi && FreshFrames(mem, root, lo, hi, free0, free, tables)
    ensures |FramesOf(mem, root, lo, hi)| == hi - lo
    ensures FramesOf(mem, root, lo, hi) <= free0 - free - tables
    decreases hi - lo
  {
    hide Translate;
    if lo == hi {
      assert FramesOf(mem, root, lo, hi) == {};
    } else {
      var rest, last := FramesOf(mem, root, lo, hi - 1), Translate(mem, root, hi - 1).value;
      LastFrame(mem, root, lo, hi, free0, free, tables);
      FramesOfStep(mem, root, lo, hi - 1);
      hide FramesOf, FreshFrames;
      FramesCount(mem, root, lo, hi - 1, free0, free, tables);
      assert |rest + {last}| == |rest| + 1;
    }
  }

  lemma LastFrame(mem: Memory, root: nat, lo: nat, hi: nat, free0: set<nat>, free: set<nat>, tables: set<nat>)
    requires lo < hi && FreshFrames(mem, root, lo, hi, free0, free, tables)
    ensures FreshFrames(mem, root, lo, hi - 1, free0, free, tables) && Translate(mem, root, hi - 1).Some?
    ensures Translate(mem, root, hi - 1).value in free0 - free - tables
    ensures Translate(mem, root, hi - 1).value !in FramesOf(mem, root, lo, hi - 1)
  {
    hide Translate;
  }

  /** One past the last page that is freed: one page for every 4096 bytes from the start on. */
  function PagesEnd(start: nat, size: nat): (r: nat)
    ensures start / PAGE_SIZE <= r && (size == 0 <==> r == start / PAGE_SIZE)
  {
    start / PAGE_SIZE + (size + PAGE_SIZE - 1) / PAGE_SIZE
  }

  /** Frames of the memory that can be given back: there is a slot on the stack for all that are free then. */
  ghost predicate Freeable(names: set<nat>, free: set<nat>, total: nat) {
    (forall f :: f in names ==> f < total) && |free + names| < total
  }

  /** Giving these frames back leaves the reserved frames and the tables alone. */
  ghost predicate Harmless(names: set<nat>, reserved: nat, tables: set<nat>) {
    forall f :: f in names ==> reserved <= f && f !in tables
  }

  /** There is a slot if some frame of the memory stays in use. */
  lemma FreeableIfOneStays(names: set<nat>, free: set<nat>, total: nat, frame: nat)
    requires (forall f :: f in names ==> f < total) && forall f :: f in free ==> f < total
    requires frame < total && frame !in names && frame !in free
    ensures Freeable(names, free, total)
  {
    PMM.CountBelow(0, total, free + names + {frame});
    assert |free + names + {frame}| == |free + names| + 1;
  }

  lemma NextFreeable(names: set<nat>, done: set<nat>, next: set<nat>, free: set<nat>, total: nat)
    requires Freeable(names, free, total) && done <= names && next <= names
    ensures Freeable(next, free + done, total)
  {
    SubsetSize(free + done + next, free + names);
  }

  lemma BothHarmless(names: set<nat>, more: set<nat>, reserved: nat, tables: set<nat>)
    ensures Harmless(names + more, reserved, tables) <==> Harmless(names, reserved, tables) && Harmless(more, reserved, tables)
  {
  }

  lemma NothingFreed(mem: Memory, root: nat, lo: nat)
    ensures Absent(mem, root, lo, lo) && SameOutside(mem, mem, root, lo, lo)
    ensures NamedFrames(mem, root, lo, lo) == {} && SameNames(mem, mem, root)
  {
  }

  /** Marking entries absent leaves the frames they name. */
  ghost predicate SameNames(mem0: Memory, mem: Memory, root: nat) {
    forall q :: 0 <= q < PAGES ==> NamedFrame(mem, root, q) == NamedFrame(mem0, root, q)
  }

  lemma NothingChanged(mem: Memory, root: nat, q: nat)
    ensures SameOutside(mem, mem, root, q, q + 1)
  {
  }

  lemma NameOfEntry(mem: Memory, root: nat, tree: Tree, q: nat)
    requires WellFormed(mem, root, tree) && q < PAGES
    ensures On(q, 0) in tree ==> tree[On(q, 0)] < |mem|
    ensures NamedFrame(mem, root, q) == if On(q, 0) in tree then Some(mem[tree[On(q, 0)]][q % ENTRIES].frame) else None
    ensures NamedFrames(mem, root, q, q + 1) == if On(q, 0) in tree then {mem[tree[On(q, 0)]][q % ENTRIES].frame} else {}
  {
    WellFormedFacts(mem, root, tree, On(q, 0));
    TranslateMeans(mem, root, tree, q);
    var name := NamedFrame(mem, root, q);
    hide WellFormed, Walk, NamedFrame;
    assert name.Some? ==> name.value in NamedFrames(mem, root, q, q + 1);
  }

  /** The frame that the next entry names is the one it named at first. */
  lemma NamesSplit(mem0: Memory, mem: Memory, root: nat, lo: nat, q: nat, hi: nat)
    requires lo <= q < hi && q < PAGES && SameNames(mem0, mem, root)
    ensures NamedFrames(mem, root, q, q + 1) <= NamedFrames(mem0, root, lo, hi)
    ensures NamedFrames(mem0, root, lo, q) <= NamedFrames(mem0, root, lo, hi)
    ensures NamedFrames(mem0, root, lo, q + 1) == NamedFrames(mem0, root, lo, q) + NamedFrames(mem, root, q, q + 1)
  {
    hide NamedFrame;
    assert NamedFrame(mem, root, q) == NamedFrame(mem0, root, q);
  }

  /** One page more. */
  lemma FreedOneMore(mem0: Memory, mem1: Memory, mem: Memory, root: nat, lo: nat, q: nat)
    requires lo <= q < PAGES && SameOutside(mem0, mem1, root, lo, q) && SameOutside(mem1, mem, root, q, q + 1)
    requires Absent(mem1, root, lo, q) && Absent(mem, root, q, q + 1)
    requires SameNames(mem0, mem1, root) && SameNames(mem1, mem, root)
    ensures SameOutside(mem0, mem, root, lo, q + 1) && Absent(mem, root, lo, q + 1) && SameNames(mem0, mem, root)
  {
    hide Translate, NamedFrame;
    forall p | lo <= p < q + 1 ensures Translate(mem, root, p) == None {
      assert p < q ==> Translate(mem, root, p) == Translate(mem1, root, p);
    }
    forall p | 0 <= p < PAGES ensures NamedFrame(mem, root, p) == NamedFrame(mem0, root, p) {
      assert NamedFrame(mem1, root, p) == NamedFrame(mem0, root, p);
    }
  }
}
