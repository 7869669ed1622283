/** The virtual memory manager as mmap and munmap use it, one page at a time: the pages that a process gets are new to it, and its
  address space stays sane. */
module UserPages {
  import opened Common
  import opened Pte
  import opened PageTables
  import opened Entries
  import opened Ranges
  import opened Search
  import opened Ownership
  import opened Runs
  import opened BlockList
  import opened UserHeap
  import VMM = Vmm
  import PMM = Pmm

  const BASE_PAGE: nat := 0x43000

  /** The slots have different pages, and these are live. */
  ghost predicate SlotsLive(slots: seq<Slot>, live: set<nat>) {
    && (forall i, j :: 0 <= i < j < |slots| && slots[i].page != NULL ==> slots[i].page != slots[j].page)
    && forall i :: 0 <= i < |slots| && slots[i].page != NULL ==>
         slots[i].page % PAGE_SIZE == 0 && slots[i].page / PAGE_SIZE in live
  }

  /** The pages of the slots. */
  ghost function SlotPages(slots: seq<Slot>): set<nat> {
    set i | 0 <= i < |slots| && slots[i].page != NULL :: slots[i].page / PAGE_SIZE
  }

  /** The address space of the process is sane and has the pages of its slots. */
  ghost predicate Home(v: VMM.Vmm, slots: seq<Slot>, live: set<nat>, pool: set<nat>)
    reads v, v.pmm, v.pmm.map_, v.pmm.stack
  {
    && v.Valid() && Sane(v.cr3, Now(v), live, pool) && SlotsLive(slots, live)
    && forall f :: f in pool ==> v.pmm.reserved <= f < v.pmm.total
  }

  /** A page found absent is none of the process's pages. */
  lemma FoundIsGrantable(mem: Memory, root: nat, slots: seq<Slot>, live: set<nat>, page: nat)
    requires SlotsLive(slots, live) && OwnFrames(mem, root, live) && FirstAbsent(mem, root, BASE_PAGE, page)
    ensures page !in live && Grantable(slots, page * PAGE_SIZE) && page * PAGE_SIZE != NULL
  {
    hide Translate, Mapped;
    assert page * PAGE_SIZE / PAGE_SIZE == page;
    assert page !in live;
    forall s | s in slots ensures s.page != page * PAGE_SIZE {
      var i :| 0 <= i < |slots| && slots[i] == s;
    }
  }

  /** `vmm_alloc_pages_from` as mmap calls it: one page at or above the base, which is the start of a table.  The call always
    returns. */
  method GrantPage(v: VMM.Vmm, attributes: Attributes, fuel: nat, ghost slots: seq<Slot>, ghost live: set<nat>, ghost pool: set<nat>)
    returns (grant: nat, ghost live': set<nat>)
    requires Home(v, slots, live, pool) && 4 <= |v.pmm.FreeSet()| && fuel > TOTAL_PTS + 1
    modifies v`mem, v`tree, v`bitmap, v.pmm`free, v.pmm`frames, v.pmm.map_
    ensures Home(v, slots, live', pool) && Grantable(slots, grant)
    ensures if grant == NULL then live' == live && NoRoom(old(v.mem), v.cr3, BASE_PAGE, 1)
            else live' == live + {grant / PAGE_SIZE} && grant / PAGE_SIZE !in live && grant % PAGE_SIZE == 0
                 && FirstAbsent(old(v.mem), v.cr3, BASE_PAGE, grant / PAGE_SIZE)
                 && MappedWith(v.mem, v.cr3, grant / PAGE_SIZE, attributes)
  {
    hide Written, Paths, MappedWith;
    hide PMM.Inv, PMM.FreeFrames, WellFormed, Sane, Taken, Enough, NoRoom, FirstAbsent, Blocked, Absent, BitmapStaysRight, SlotsLive;
    hide Grantable, Agreement;
    ghost var mem := v.mem;
    FourAreEnough(v.mem, v.cr3, v.tree.Keys, BASE_PAGE, 1, |v.pmm.FreeSet()|);
    assert VMM.NeededPages(PAGE_SIZE) == 1;
    ShortRequestNeverBlocked(v.mem, v.cr3, BASE_PAGE, 1);
    SaneOwns(v.cr3, Now(v), live, pool);
    var out;
    ghost var c;
    out, c := Allocate(v, 0x43000000, PAGE_SIZE, attributes, fuel, live, pool);
    live' := LiveThen(live, c);
    if out.Found? {
      grant := out.page * PAGE_SIZE;
      FoundIsGrantable(mem, v.cr3, slots, live, out.page);
      MoreLive(slots, live, live', out.page);
      FoundMapped(mem, old(v.tree), v.mem, v.tree, v.cr3, out.page, attributes);
    } else {
      grant := NULL;
      NoGrant(slots);
    }
  }

  /** The entry of the page is present and has the attributes. */
  ghost predicate MappedWith(mem: Memory, root: nat, page: nat, a: Attributes) {
    match Walk(mem, root, page, 3)
    case Some(e) => HasAttributes(e, a)
    case None => false
  }

  lemma FoundMapped(mem0: Memory, t0: Tree, mem: Memory, t: Tree, root: nat, page: nat, a: Attributes)
    requires WellFormed(mem0, root, t0) && WellFormed(mem, root, t) && page < PAGES
    requires Written(mem0, t0, mem, t, Paths(page, page + 1), a)
    ensures MappedWith(mem, root, page, a)
  {
    hide WellFormed, Walk, Written, Paths, HasAttributes, EntryWritten;
    PageWritten(mem0, t0, mem, t, root, page, page + 1, a, page);
    var before := match Walk(mem0, root, page, 3) case Some(e) => e case None => Entry(0, 0);
    var after := Walk(mem, root, page, 3);
    assert after.Some?;
    WrittenHas(before, after.value, a);
  }

  lemma SaneOwns(root: nat, m: Machine, live: set<nat>, pool: set<nat>)
    requires Sane(root, m, live, pool)
    ensures OwnFrames(m.space.mem, root, live)
  {
    hide Translate;
  }

  lemma NoGrant(slots: seq<Slot>)
    ensures Grantable(slots, NULL)
  {
  }

  lemma MoreLive(slots: seq<Slot>, live: set<nat>, live': set<nat>, page: nat)
    requires SlotsLive(slots, live) && live' == live + Pages(page, page + 1)
    ensures SlotsLive(slots, live') && live' == live + {page} && page * PAGE_SIZE / PAGE_SIZE == page
  {
  }

  /** `vmm_free_pages` as munmap and `free_thread_pages` call it: the page of a slot.  The slot must be emptied next. */
  method ReturnPage(v: VMM.Vmm, page: nat, ghost slots: seq<Slot>, ghost i: nat, ghost live: set<nat>, ghost pool: set<nat>)
    requires Home(v, slots, live, pool) && i < |slots| && page == slots[i].page && page != NULL
    modifies v`mem, v`bitmap, v.pmm`free, v.pmm`frames, v.pmm.map_, v.pmm.stack
    ensures Home(v, slots[i := Slot(NULL, 0)], live - {page / PAGE_SIZE}, pool)
    ensures Translate(v.mem, v.cr3, page / PAGE_SIZE) == None
  {
    hide PMM.Inv, PMM.FreeFrames, WellFormed, Sane, Released, Translate;
    ghost var q := page / PAGE_SIZE;
    OnePage(q);
    SaneOwns(v.cr3, Now(v), live, pool);
    assert q in live && q < PAGES;
    Runs.FreeLive(v, page / PAGE_SIZE, page / PAGE_SIZE + 1, live, pool);
    GoneIsAbsent(v.cr3, old(v.Snap()), v.Snap(), q);
    assert live - Pages(q, q + 1) == live - {q};
    SlotEmptied(slots, i, live);
  }

  lemma OnePage(q: nat)
    ensures Pages(q, q + 1) == {q}
  {
  }

  lemma GoneIsAbsent(root: nat, s: Space, s': Space, q: nat)
    requires Released(root, s, s', q, q + 1)
    ensures Translate(s'.mem, root, q) == None
  {
    hide Translate, NamedFrame, FramesOf;
  }

  lemma SlotEmptied(slots: seq<Slot>, i: nat, live: set<nat>)
    requires SlotsLive(slots, live) && i < |slots| && slots[i].page != NULL
    ensures SlotsLive(slots[i := Slot(NULL, 0)], live - {slots[i].page / PAGE_SIZE})
    ensures SlotPages(slots[i := Slot(NULL, 0)]) == SlotPages(slots) - {slots[i].page / PAGE_SIZE}
  {
    var r := slots[i := Slot(NULL, 0)];
    forall j | 0 <= j < |slots| && j != i && slots[j].page != NULL
      ensures slots[j].page / PAGE_SIZE != slots[i].page / PAGE_SIZE && r[j] == slots[j] {
      assert if i < j then slots[i].page != slots[j].page else slots[j].page != slots[i].page;
    }
    forall q | q in SlotPages(slots) && q != slots[i].page / PAGE_SIZE ensures q in SlotPages(r) {
      var j :| 0 <= j < |slots| && slots[j].page != NULL && slots[j].page / PAGE_SIZE == q;
      assert r[j].page / PAGE_SIZE == q;
    }
  }

  lemma SlotsInLive(slots: seq<Slot>, live: set<nat>)
    requires SlotsLive(slots, live)
    ensures SlotPages(slots) <= live
  {
  }

  /** A page granted goes to an empty slot. */
  lemma SlotFilled(slots: seq<Slot>, i: nat, live: set<nat>, grant: nat, size: nat)
    requires SlotsLive(slots, live) && i < |slots| && slots[i].page == NULL && grant != NULL && Grantable(slots, grant)
    requires grant % PAGE_SIZE == 0 && grant / PAGE_SIZE in live
    ensures SlotsLive(slots[i := Slot(grant, size)], live)
    ensures SlotPages(slots[i := Slot(grant, size)]) == SlotPages(slots) + {grant / PAGE_SIZE}
  {
    var r := slots[i := Slot(grant, size)];
    assert r[i].page / PAGE_SIZE == grant / PAGE_SIZE;
    forall q | q in SlotPages(slots) ensures q in SlotPages(r) {
      var j :| 0 <= j < |slots| && slots[j].page != NULL && slots[j].page / PAGE_SIZE == q;
      assert r[j].page / PAGE_SIZE == q;
    }
  }

  /** The bytes used do not matter. */
  lemma SlotGrows(slots: seq<Slot>, i: nat, live: set<nat>, used: int)
    requires SlotsLive(slots, live) && i < |slots|
    ensures SlotsLive(slots[i := slots[i].(used := used)], live) && SlotPages(slots[i := slots[i].(used := used)]) == SlotPages(slots)
  {
    var r := slots[i := slots[i].(used := used)];
    assert forall j :: 0 <= j < |slots| ==> r[j].page == slots[j].page;
  }
}
