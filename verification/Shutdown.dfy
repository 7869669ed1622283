/** The end of a process: its pages above the identity mapping are freed one by one, then its tables. */
module Shutdown {
  import opened Common
  import opened PageTables
  import opened Ranges
  import opened Teardown
  import O = Ownership
  import VMM = Vmm
  import PMM = Pmm

  const ONE_GB_OF_PAGES: nat := 262144
  const USER_END: nat := 16777215     // MAX_PAGES - 1; pages from here on are not freed

  /** Frees the pages from one up to another, each by a call of its own. */
  method FreePagesOneByOne(v: VMM.Vmm, lo: nat, hi: nat)
    requires v.Sound() && v.Agrees() && lo <= hi <= PAGES
    requires Freeable(NamedFrames(v.mem, v.cr3, lo, hi), v.pmm.FreeSet(), v.pmm.total)
    modifies v`mem, v`bitmap, v.pmm`free, v.pmm`frames, v.pmm.map_, v.pmm.stack
    ensures v.Sound() && v.Agrees()
    ensures Absent(v.mem, v.cr3, lo, hi) && SameOutside(old(v.mem), v.mem, v.cr3, lo, hi)
    ensures v.pmm.FreeSet() == old(v.pmm.FreeSet()) + NamedFrames(old(v.mem), v.cr3, lo, hi)
    ensures v.Valid() <==> old(v.Valid()) && Harmless(NamedFrames(old(v.mem), v.cr3, lo, hi), v.pmm.reserved, v.tree.Values)
  {
    hide PMM.Inv, PMM.FreeFrames, WellFormed, Agreement, Translate, SameOutside, Absent, Mapped, Released, NamedFrames, SameNames;
    hide Freeable, Harmless;
    var curAddr := lo * PAGE_SIZE;
    ghost var q, mem0 := lo, v.mem;
    NothingFreed(v.mem, v.cr3, lo);
    BothHarmless(v.pmm.FreeSet(), NamedFrames(v.mem, v.cr3, lo, hi), v.pmm.reserved, v.tree.Values);
    v.ValidIff();
    while curAddr < hi * PAGE_SIZE
      invariant lo <= q <= hi && curAddr == q * PAGE_SIZE
      invariant v.Sound() && v.Agrees() && SameNames(mem0, v.mem, v.cr3)
      invariant Absent(v.mem, v.cr3, lo, q) && SameOutside(mem0, v.mem, v.cr3, lo, q)
      invariant v.pmm.FreeSet() == old(v.pmm.FreeSet()) + NamedFrames(mem0, v.cr3, lo, q)
    {
      ghost var mem1 := v.mem;
      assert curAddr / PAGE_SIZE == q && PagesEnd(curAddr, PAGE_SIZE) == q + 1;
      NamesSplit(mem0, mem1, v.cr3, lo, q, hi);
      NextFreeable(NamedFrames(mem0, v.cr3, lo, hi), NamedFrames(mem0, v.cr3, lo, q), NamedFrames(mem1, v.cr3, q, q + 1),
                   old(v.pmm.FreeSet()), v.pmm.total);
      WholePages(v.bitmap, curAddr);
      v.FreePages(curAddr, PAGE_SIZE);
      FreedOneMore(mem0, mem1, v.mem, v.cr3, lo, q);
      curAddr := curAddr + PAGE_SIZE;
      q := q + 1;
    }
    v.ValidIff();
  }

  lemma WholePages(bits: set<nat>, start: nat)
    requires start % PAGE_SIZE == 0
    ensures !ClearsTooMuch(bits, start, PAGE_SIZE)
  {
  }

  /** What the end of a process gives back: the frames that the entries of its pages name, and all tables but the root. */
  ghost function Freed(mem: Memory, root: nat, tables: set<nat>): set<nat> {
    NamedFrames(mem, root, ONE_GB_OF_PAGES, USER_END) + (tables - {root})
  }

  /** `vmm_shutdown_process` on the tables in use.  The frame manager stays right exactly if no entry of the range names a
    reserved frame.  If the process's live pages all lie in the range, then of its frames exactly the root is not free
    afterwards, and nothing that was not its own is, exactly if the entries of its absent pages name free frames or tables. */
  method ShutdownProcess(v: VMM.Vmm, ghost live: set<nat>, ghost pool: set<nat>)
    requires v.Valid() && v.Agrees()
    requires Freeable(Freed(v.mem, v.cr3, v.tree.Values), v.pmm.FreeSet(), v.pmm.total)
    modifies v`mem, v`bitmap, v.pmm`free, v.pmm`frames, v.pmm.map_, v.pmm.stack
    ensures v.pmm.FreeSet() == old(v.pmm.FreeSet()) + Freed(old(v.mem), v.cr3, v.tree.Values)
    ensures var names := NamedFrames(old(v.mem), v.cr3, ONE_GB_OF_PAGES, USER_END);
            && v.pmm.Sound() && (v.pmm.Valid() <==> forall f :: f in names ==> v.pmm.reserved <= f)
            && (Owns(v.cr3, old(v.Snap()), live, pool) ==>
                  (v.pmm.FreeSet() == pool - {v.cr3} <==>
                     names <= old(v.pmm.FreeSet()) + FramesOf(old(v.mem), v.cr3, ONE_GB_OF_PAGES, USER_END)
                              + (v.tree.Values - {v.cr3})))
  {
    hide PMM.Inv, PMM.FreeFrames, WellFormed, Agreement, NamedFrames, FramesOf, Absent, SameOutside, Owns, Freeable, Harmless;
    ghost var s, names, tables := v.Snap(), NamedFrames(v.mem, v.cr3, ONE_GB_OF_PAGES, USER_END), v.tree.Values - {v.cr3};
    ghost var free := v.pmm.FreeSet();
    MappedNames(v.mem, v.cr3, ONE_GB_OF_PAGES, USER_END);
    RootIsTable(v.mem, v.cr3, v.tree);
    NextFreeable(Freed(v.mem, v.cr3, v.tree.Values), {}, names, free, v.pmm.total);
    NextFreeable(Freed(v.mem, v.cr3, v.tree.Values), names, tables, free, v.pmm.total);
    assert free + {} == free;
    v.pmm.ValidIff();
    OnlyNamesDecide(free, names, tables, v.pmm.reserved);
    FreePagesOneByOne(v, ONE_GB_OF_PAGES, USER_END);
    ShutdownTables(v);
    v.pmm.ValidIff();
    if Owns(v.cr3, s, live, pool) {
      AllButRootReturns(v.cr3, s, names, live, pool);
    }
  }

  lemma OnlyNamesDecide(free: set<nat>, names: set<nat>, tables: set<nat>, reserved: nat)
    requires (forall f :: f in free ==> reserved <= f) && forall f :: f in tables ==> reserved <= f
    ensures (forall f :: f in free + (names + tables) ==> reserved <= f) <==> forall f :: f in names ==> reserved <= f
  {
    assert forall f :: f in names ==> f in free + (names + tables);
    assert forall f :: f in free + (names + tables) ==> f in free || f in names || f in tables;
  }

  lemma RootIsTable(mem: Memory, root: nat, tree: Tree)
    requires WellFormed(mem, root, tree)
    ensures root in tree.Values
  {
    assert ROOT in tree && tree[ROOT] == root;
  }

  /** The pool is divided into free frames, tables and live pages, and the live pages are the mapped ones of the range. */
  ghost predicate Owns(root: nat, s: Space, live: set<nat>, pool: set<nat>) {
    && O.Partition(root, s, live, pool)
    && O.MappedAreLive(s.mem, root, live, ONE_GB_OF_PAGES, USER_END)
    && forall q :: q in live ==> ONE_GB_OF_PAGES <= q < USER_END
  }

  lemma AllButRootReturns(root: nat, s: Space, names: set<nat>, live: set<nat>, pool: set<nat>)
    requires Owns(root, s, live, pool) && root in s.tables
    requires FramesOf(s.mem, root, ONE_GB_OF_PAGES, USER_END) <= names
    ensures s.free + names + (s.tables - {root}) == pool - {root} <==>
            names <= s.free + FramesOf(s.mem, root, ONE_GB_OF_PAGES, USER_END) + (s.tables - {root})
  {
    hide Translate;
    assert O.Frames(s.mem, root, live) == FramesOf(s.mem, root, ONE_GB_OF_PAGES, USER_END);
    hide FramesOf, O.Frames;
  }
}
