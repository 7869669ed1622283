/** Short runs from the start of the kernel in which the virtual memory manager does not do what one would expect. */
module AfterStart {
  import opened Common
  import opened Pte
  import opened PageTables
  import opened Entries
  import opened Budget
  import opened Ranges
  import opened Search
  import opened Ownership
  import opened Shutdown
  import opened Runs
  import IdentityMap
  import opened UserPages
  import VMM = Vmm
  import PMM = Pmm

  const FIRST: nat := 262144          // the first page above the identity mapping
  const STACK: nat := 327680          // the page of the stack that the scheduler maps when it starts

  /** The top entry on the way to every page below 512 GiB. */
  lemma TopIsPlain(mem: Memory, root: nat, t: Tree)
    requires WellFormed(mem, root, t) && IdentityMap.AllPlain(mem, t) && Translate(mem, root, 0).Some?
    ensures root < |mem| && Present(mem[root][0]) && mem[root][0].attrs == 0x3
  {
    WellFormedFacts(mem, root, t, ROOT);
    assert On(0, 3) == ROOT && Index(0, 3) == 0;
    EntryOnWay(mem, root, t, 0, 3);
    TranslateMeans(mem, root, t, 0);
    hide WellFormed, On, Index;
    assert IdentityMap.Plain(EntryAt(mem, t, ROOT, 0));
  }

  /** Mapping leaves it as it is. */
  lemma TopStays(mem0: Memory, t0: Tree, mem: Memory, t: Tree, root: nat, at: set<(Place, nat)>, a: Attributes)
    requires WellFormed(mem0, root, t0) && WellFormed(mem, root, t) && Written(mem0, t0, mem, t, at, a)
    requires root < |mem0| && Present(mem0[root][0])
    ensures root < |mem| && mem[root][0] == mem0[root][0]
  {
    WellFormedFacts(mem0, root, t0, ROOT);
    WellFormedFacts(mem, root, t, ROOT);
    hide WellFormed, Present;
    assert EntryWritten(EntryAt(mem0, t0, ROOT, 0), EntryAt(mem, t, ROOT, 0), 3, (ROOT, 0) in at, a);
  }

  lemma FindsFirst(mem: Memory, root: nat, from: nat, c: nat, n: nat, out: Outcome)
    requires Answers(mem, root, from, n, out) && FirstAbsent(mem, root, from, c)
    requires out.Spinning? <==> Blocked(mem, root, from, n)
    ensures Absent(mem, root, c, c + n) ==> out == Found(c)
  {
    FirstAbsentDecides(mem, root, from, c, n);
    if out.Found? {
      FirstAbsentUnique(mem, root, from, c, out.page);
    }
    hide Translate, FirstAbsent;
  }

  lemma FirstIsAbsent(mem: Memory, root: nat)
    requires JustStarted(mem, root)
    ensures FirstAbsent(mem, root, 0, FIRST) && Absent(mem, root, FIRST, FIRST + 1)
    ensures FirstAbsent(mem, root, STACK, STACK) && Absent(mem, root, STACK, STACK + 1)
  {
    hide Translate, NamedFrame;
  }

  /** The first page of a new table: the entry of the page behind it names frame 0. */
  lemma NewTable(mem: Memory, mem': Memory, root: nat, tree': Tree, page: nat)
    requires NamesKept(mem, mem', root, page, page + 1) && NamedFrame(mem, root, page + 1) == None && page + 1 < PAGES
    requires WellFormed(mem', root, tree') && Translate(mem', root, page).Some? && page % ENTRIES == 0
    ensures NamedFrame(mem', root, page + 1) == Some(0)
  {
    NameOfEntry(mem', root, tree', page);
    NameOfEntry(mem', root, tree', page + 1);
    MappedHasName(mem', root, page);
    assert On(page, 0) == On(page + 1, 0);
    hide WellFormed, NamedFrame, Translate;
    assert NameKept(NamedFrame(mem, root, page + 1), NamedFrame(mem', root, page + 1));
  }

  lemma MappedHasName(mem: Memory, root: nat, page: nat)
    requires Translate(mem, root, page).Some?
    ensures NamedFrame(mem, root, page) == Translate(mem, root, page)
  {
    hide Walk;
  }

  lemma StackTable(root: nat, s: Space, s': Space, tree': Tree)
    requires JustStarted(s.mem, root) && Taken(root, s, s', STACK, STACK + 1) && WellFormed(s'.mem, root, tree')
    ensures NamedFrame(s'.mem, root, STACK + 1) == Some(0)
  {
    TakenFacts(root, s, s', STACK, STACK + 1);
    hide Absent, SameOutside, FreshFrames, Needed, Way, FramesOf, WellFormed, Translate, NamedFrame;
    assert Translate(s'.mem, root, STACK).Some?;
    assert NamedFrame(s.mem, root, STACK + 1) == None;
    NewTable(s.mem, s'.mem, root, tree', STACK);
  }

  /** The scheduler's first call: one page for the stack of the idle process, in a table of its own. */
  method MapStack(v: VMM.Vmm, attributes: Attributes, fuel: nat, ghost pool: set<nat>) returns (ghost live: set<nat>)
    requires v.Valid() && JustStarted(v.mem, v.cr3) && Sane(v.cr3, Now(v), {}, pool) && 4 <= |v.pmm.FreeSet()| && fuel > TOTAL_PTS + 1
    modifies v`mem, v`tree, v`bitmap, v.pmm`free, v.pmm`frames, v.pmm.map_
    ensures v.Valid() && live == {STACK} && Sane(v.cr3, Now(v), live, pool) && NamedFrame(v.mem, v.cr3, STACK + 1) == Some(0)
  {
    hide PMM.Inv, PMM.FreeFrames, WellFormed, Sane, Taken, Agreement, JustStarted, Enough, Answers, FirstAbsent, Absent;
    hide BitmapStaysRight, Blocked, NamedFrame;
    ghost var s := v.Snap();
    FirstIsAbsent(v.mem, v.cr3);
    FourAreEnough(v.mem, v.cr3, v.tree.Keys, STACK, 1, |v.pmm.FreeSet()|);
    assert VMM.NeededPages(PAGE_SIZE) == 1;
    var out;
    ghost var c;
    out, c := Allocate(v, STACK * PAGE_SIZE, PAGE_SIZE, attributes, fuel, {}, pool);
    FindsFirst(s.mem, v.cr3, STACK, STACK, 1, out);
    StackTable(v.cr3, s, v.Snap(), v.tree);
    live := LiveThen({}, c);
    assert live == {STACK};
  }

  /** The kernel starts, maps the one page of its first stack, and ends that address space: frame 0 is free, and some later call of
    gmem answers with address 0. */
  method EndAfterStart(v: VMM.Vmm, found: set<nat>, attributes: Attributes, fuel: nat)
    requires v.pmm.Valid() && |v.mem| == v.pmm.total && 520 <= |v.pmm.FreeSet()| && fuel > TOTAL_PTS + 1
    requires forall p: nat :: p in found && 4096 <= p ==> p >= TABLES
    modifies v`mem, v`cr3, v`tree, v`bitmap, v.pmm`free, v.pmm`frames, v.pmm.map_, v.pmm.stack
    ensures v.pmm.Sound() && !v.pmm.Valid() && 0 in v.pmm.FreeSet()
    ensures exists n: nat :: n < v.pmm.free && PMM.ComesOut(v.pmm.Abs(), 0, n, 0)
  {
    hide PMM.Inv, PMM.FreeFrames, WellFormed, Sane, JustStarted, NamedFrame, PMM.ComesOut;
    ghost var free0 := v.pmm.FreeSet();
    v.pmm.ValidIff();
    PoolInMemory(v.pmm);
    ghost var pool := Start(v, found);
    ghost var live := MapStack(v, attributes, fuel, pool);
    assert NeverMapped(v.mem, v.cr3);
    End(v, live, pool);
    PMM.FreeFrameComesOut(v.pmm.Abs(), 0, 0);
  }

  lemma PoolInMemory(pmm: PMM.Pmm)
    requires pmm.Sound()
    ensures forall f :: f in pmm.FreeSet() ==> f < pmm.total
  {
  }

  lemma OnePageTaken(root: nat, s: Space, s': Space, page: nat)
    requires Taken(root, s, s', page, page + 1)
    ensures SameOutside(s.mem, s'.mem, root, page, page + 1) && Mapped(s'.mem, root, page, page + 1) && |s'.free| + 4 >= |s.free|
  {
    TakenFacts(root, s, s', page, page + 1);
    hide Absent, NamesKept, FreshFrames, FramesOf, SameOutside, Mapped;
  }

  lemma AfterOne(root: nat, s: Space, s': Space, page: nat)
    requires Taken(root, s, s', page, page + 1)
    requires Mapped(s.mem, root, 0, page) && page + 2 <= LIMIT && Translate(s.mem, root, page + 1) == None
    ensures Mapped(s'.mem, root, 0, page + 1) && FirstAbsent(s'.mem, root, 0, page + 1)
    ensures forall q :: page + 1 <= q < PAGES ==> Translate(s'.mem, root, q) == Translate(s.mem, root, q)
    ensures |s'.free| + 4 >= |s.free|
  {
    OnePageTaken(root, s, s', page);
    hide Taken, Translate;
    forall q | 0 <= q < PAGES && q != page ensures Translate(s'.mem, root, q) == Translate(s.mem, root, q) {
    }
  }

  lemma AfterRelease(root: nat, s: Space, s': Space, page: nat)
    requires Released(root, s, s', page, page + 1) && Mapped(s.mem, root, 0, page + 2) && page + 2 <= LIMIT
    ensures FirstAbsent(s'.mem, root, 0, page) && Translate(s'.mem, root, page + 1).Some? && |s.free| <= |s'.free|
  {
    hide Translate, FramesOf, NamedFrame;
    SubsetSize(s.free, s'.free);
    forall q | 0 <= q < PAGES && q != page ensures Translate(s'.mem, root, q) == Translate(s.mem, root, q) {
    }
  }

  /** After the start: two requests of one page, and the release of the first page found. */
  method LeaveHole(v: VMM.Vmm, found: set<nat>, attributes: Attributes, fuel: nat) returns (ghost live: set<nat>, ghost pool: set<nat>)
    requires v.pmm.Valid() && |v.mem| == v.pmm.total && 532 <= |v.pmm.FreeSet()| && fuel > TOTAL_PTS + 1
    requires forall p: nat :: p in found && 4096 <= p ==> p >= TABLES
    modifies v`mem, v`cr3, v`tree, v`bitmap, v.pmm`free, v.pmm`frames, v.pmm.map_, v.pmm.stack
    ensures v.Valid() && Sane(v.cr3, Now(v), live, pool) && 8 <= |v.pmm.FreeSet()|
    ensures FirstAbsent(v.mem, v.cr3, 0, FIRST) && Translate(v.mem, v.cr3, FIRST + 1).Some?
  {
    hide PMM.Inv, PMM.FreeFrames, WellFormed, Sane, Taken, Agreement, JustStarted, FirstAbsent, Mapped;
    hide Released, Translate, EntriesCleared, IdentityMap.AllPlain;
    v.pmm.ValidIff();
    PoolInMemory(v.pmm);
    pool := Start(v, found);
    ghost var s0 := v.Snap();
    ghost var none: set<nat> := {};
    ghost var one, two := none + {FIRST}, none + {FIRST} + {FIRST + 1};
    JustStartedFacts(v.mem, v.cr3);
    var first := TakeFirst(v, FIRST, attributes, fuel, none, pool);
    AfterOne(v.cr3, s0, v.Snap(), FIRST);
    ghost var s1 := v.Snap();
    var second := TakeFirst(v, FIRST + 1, attributes, fuel, one, pool);
    AfterOne(v.cr3, s1, v.Snap(), FIRST + 1);
    ghost var s2 := v.Snap();
    OnlyPage(FIRST);
    FreeLive(v, FIRST, FIRST + 1, two, pool);
    AfterRelease(v.cr3, s2, v.Snap(), FIRST);
    live := two - Pages(FIRST, FIRST + 1);
  }

  /** And then a request of two pages, which does not return. */
  method SpinAfterStart(v: VMM.Vmm, found: set<nat>, attributes: Attributes, fuel: nat) returns (out: Outcome)
    requires v.pmm.Valid() && |v.mem| == v.pmm.total && 532 <= |v.pmm.FreeSet()| && fuel > TOTAL_PTS + 1
    requires forall p: nat :: p in found && 4096 <= p ==> p >= TABLES
    modifies v`mem, v`cr3, v`tree, v`bitmap, v.pmm`free, v.pmm`frames, v.pmm.map_, v.pmm.stack
    ensures out.Spinning? && v.Valid() && v.Agrees()
  {
    hide PMM.Inv, PMM.FreeFrames, WellFormed, Sane, Agreement, Enough, FirstAbsent, Blocked, Translate;
    hide Answers, Taken, Written, Paths;
    ghost var live, pool := LeaveHole(v, found, attributes, fuel);
    SaneAgrees(v.cr3, Now(v), live, pool);
    FourAreEnough(v.mem, v.cr3, v.tree.Keys, 0, 2, |v.pmm.FreeSet()|);
    HoleBlocks(v.mem, v.cr3);
    assert VMM.NeededPages(2 * PAGE_SIZE) == 2;
    out := v.AllocAnywhere(2 * PAGE_SIZE, attributes, fuel);
  }

  lemma HoleBlocks(mem: Memory, root: nat)
    requires FirstAbsent(mem, root, 0, FIRST) && Translate(mem, root, FIRST + 1).Some?
    ensures Blocked(mem, root, 0, 2)
  {
    FirstAbsentDecides(mem, root, 0, FIRST, 2);
    hide Translate, FirstAbsent;
  }

  /** A request of one page, when it is known which page is the lowest absent one. */
  method TakeFirst(v: VMM.Vmm, page: nat, attributes: Attributes, fuel: nat, ghost live: set<nat>, ghost pool: set<nat>)
    returns (out: Outcome)
    requires v.Valid() && Sane(v.cr3, Now(v), live, pool) && 4 <= |v.pmm.FreeSet()| && fuel > TOTAL_PTS + 1
    requires FirstAbsent(v.mem, v.cr3, 0, page)
    modifies v`mem, v`tree, v`bitmap, v.pmm`free, v.pmm`frames, v.pmm.map_
    ensures v.Valid() && Sane(v.cr3, Now(v), live + {page}, pool)
    ensures out == Found(page) && Taken(v.cr3, old(v.Snap()), v.Snap(), page, page + 1)
  {
    hide PMM.Inv, PMM.FreeFrames, WellFormed, Sane, Taken, Enough, Answers, BitmapStaysRight, Blocked;
    ghost var mem := v.mem;
    FourAreEnough(v.mem, v.cr3, v.tree.Keys, 0, 1, |v.pmm.FreeSet()|);
    assert VMM.NeededPages(PAGE_SIZE) == 1;
    ghost var c;
    out, c := Allocate(v, 0, PAGE_SIZE, attributes, fuel, live, pool);
    FindsFirst(mem, v.cr3, 0, page, 1, out);
    OnlyPage(page);
  }

  lemma OnlyPage(page: nat)
    ensures Pages(page, page + 1) == {page}
  {
  }

  lemma JustStartedFacts(mem: Memory, root: nat)
    requires JustStarted(mem, root)
    ensures Mapped(mem, root, 0, FIRST) && FirstAbsent(mem, root, 0, FIRST)
    ensures forall q :: FIRST <= q < PAGES ==> Translate(mem, root, q) == None
  {
    hide Translate, NamedFrame;
  }

  /** After the start: a request of two pages from the last page of the first table above the identity mapping on.  The bitmap then
    calls that table full. */
  method DisagreeAfterStart(v: VMM.Vmm, found: set<nat>, attributes: Attributes, fuel: nat)
    requires v.pmm.Valid() && |v.mem| == v.pmm.total && 524 <= |v.pmm.FreeSet()| && fuel > TOTAL_PTS + 1
    requires forall p: nat :: p in found && 4096 <= p ==> p >= TABLES
    modifies v`mem, v`cr3, v`tree, v`bitmap, v.pmm`free, v.pmm`frames, v.pmm.map_
    ensures v.Valid() && !v.Agrees()
  {
    hide PMM.Inv, PMM.FreeFrames, WellFormed, Sane, Taken, Agreement, JustStarted, Enough, Answers, FirstAbsent, Absent, Mapped;
    hide BitmapStaysRight, Blocked, Translate;
    ghost var pool := Start(v, found);
    ghost var mem := v.mem;
    FourAreEnough(v.mem, v.cr3, v.tree.Keys, FIRST + 511, 2, |v.pmm.FreeSet()|);
    assert VMM.NeededPages(2 * PAGE_SIZE) == 2;
    CrossesTable(mem, v.cr3);
    ghost var c;
    var out;
    out, c := Allocate(v, (FIRST + 511) * PAGE_SIZE, 2 * PAGE_SIZE, attributes, fuel, {}, pool);
    FindsFirst(mem, v.cr3, FIRST + 511, FIRST + 511, 2, out);
  }

  lemma CrossesTable(mem: Memory, root: nat)
    requires JustStarted(mem, root)
    ensures FirstAbsent(mem, root, FIRST + 511, FIRST + 511) && Absent(mem, root, FIRST + 511, FIRST + 513)
    ensures !BitmapStaysRight(mem, root, FIRST + 511, 2)
  {
    hide Translate, NamedFrame;
    assert Translate(mem, root, FIRST) == None;
    StartDecides(mem, root, FIRST + 511, FIRST + 511, 2);
  }

  /** After the start: freeing no bytes at page 1 clears the bit of table 0, which is full. */
  method FreeNothingAfterStart(v: VMM.Vmm, found: set<nat>)
    requires v.pmm.Valid() && |v.mem| == v.pmm.total && 516 <= |v.pmm.FreeSet()|
    requires forall p: nat :: p in found && 4096 <= p ==> p >= TABLES
    modifies v`mem, v`cr3, v`tree, v`bitmap, v.pmm`free, v.pmm`frames, v.pmm.map_, v.pmm.stack
    ensures v.Valid() && !v.Agrees()
  {
    hide PMM.Inv, PMM.FreeFrames, WellFormed, Sane, Agreement, JustStarted, Mapped, Absent, SameOutside, SameNames, Released, Translate;
    ghost var pool := Start(v, found);
    SaneAgrees(v.cr3, Now(v), {}, pool);
    FirstTableFull(v.mem, v.cr3, v.bitmap);
    NothingNamed(v.mem, v.cr3, PAGE_SIZE / PAGE_SIZE);
    v.ValidIff();
    PoolInMemory(v.pmm);
    FreeableIfOneStays({}, v.pmm.FreeSet(), v.pmm.total, 1);
    assert PagesEnd(PAGE_SIZE, 0) == PAGE_SIZE / PAGE_SIZE;
    v.FreePages(PAGE_SIZE, 0);
  }

  lemma FirstTableFull(mem: Memory, root: nat, bits: set<nat>)
    requires JustStarted(mem, root) && Agreement(mem, root, bits)
    ensures ClearsTooMuch(bits, PAGE_SIZE, 0)
  {
    hide Translate, NamedFrame;
    assert Full(mem, root, 0);
  }

  lemma NothingNamed(mem: Memory, root: nat, lo: nat)
    ensures NamedFrames(mem, root, lo, lo) == {}
  {
  }

  /** After the start and one page for the first stack: freeing the page behind it, which was never mapped, frees frame 0. */
  method FreeAbsentAfterStart(v: VMM.Vmm, found: set<nat>, attributes: Attributes, fuel: nat)
    requires v.pmm.Valid() && |v.mem| == v.pmm.total && 520 <= |v.pmm.FreeSet()| && fuel > TOTAL_PTS + 1
    requires forall p: nat :: p in found && 4096 <= p ==> p >= TABLES
    modifies v`mem, v`cr3, v`tree, v`bitmap, v.pmm`free, v.pmm`frames, v.pmm.map_, v.pmm.stack
    ensures v.Sound() && !v.Valid() && 0 in v.pmm.FreeSet()
  {
    hide PMM.Inv, PMM.FreeFrames, WellFormed, Sane, Agreement, JustStarted, NamedFrame;
    ghost var pool := Start(v, found);
    ghost var live := MapStack(v, attributes, fuel, pool);
    SaneAgrees(v.cr3, Now(v), live, pool);
    FreeBehindStack(v);
  }

  method FreeBehindStack(v: VMM.Vmm)
    requires v.Valid() && v.Agrees() && NamedFrame(v.mem, v.cr3, STACK + 1) == Some(0)
    modifies v`mem, v`bitmap, v.pmm`free, v.pmm`frames, v.pmm.map_, v.pmm.stack
    ensures v.Sound() && !v.Valid() && 0 in v.pmm.FreeSet()
  {
    hide PMM.Inv, PMM.FreeFrames, WellFormed, Agreement, Mapped, Absent, SameOutside, SameNames, Released, NamedFrame, NamedFrames;
    hide Freeable, EntriesCleared, ClearsTooMuch, Harmless;
    OneName(v.mem, v.cr3, STACK + 1);
    ZeroMayGo(v);
    assert PagesEnd((STACK + 1) * PAGE_SIZE, PAGE_SIZE) == STACK + 2 && (STACK + 1) * PAGE_SIZE / PAGE_SIZE == STACK + 1;
    v.FreePages((STACK + 1) * PAGE_SIZE, PAGE_SIZE);
  }

  lemma ZeroMayGo(v: VMM.Vmm)
    requires v.Valid()
    ensures Freeable({0}, v.pmm.FreeSet(), v.pmm.total) && !Harmless({0}, v.pmm.reserved, v.tree.Values)
  {
    hide PMM.Inv, PMM.FreeFrames, WellFormed;
    v.pmm.ValidIff();
    PoolInMemory(v.pmm);
    FreeableIfOneStays({0}, v.pmm.FreeSet(), v.pmm.total, 1);
    assert 0 in {0};
  }

  lemma OneName(mem: Memory, root: nat, page: nat)
    ensures NamedFrame(mem, root, page) == Some(0) ==> NamedFrames(mem, root, page, page + 1) == {0}
  {
    hide NamedFrame;
    if NamedFrame(mem, root, page) == Some(0) {
      assert NamedFrame(mem, root, page).value in NamedFrames(mem, root, page, page + 1);
    }
  }

  /** After the start: the page that mmap's call gets has the user bit in its own entry, but the top entry on the way to it, which the
    identity mapping made, does not.  The processor asks for the bit on every level (Intel SDM Vol. 3A, section 4.6). */
  method UserPageAfterStart(v: VMM.Vmm, found: set<nat>, fuel: nat) returns (page: nat)
    requires v.pmm.Valid() && |v.mem| == v.pmm.total && 520 <= |v.pmm.FreeSet()| && fuel > TOTAL_PTS + 1
    requires forall p: nat :: p in found && 4096 <= p ==> p >= TABLES
    modifies v`mem, v`cr3, v`tree, v`bitmap, v.pmm`free, v.pmm`frames, v.pmm.map_
    ensures v.Valid() && page < 134217728 && MappedWith(v.mem, v.cr3, page, 0x6)
    ensures On(page, 3) == ROOT && Index(page, 3) == 0 && v.cr3 < |v.mem| && v.mem[v.cr3][0].attrs & 0x4 == 0
  {
    hide PMM.Inv, PMM.FreeFrames, WellFormed, Sane, Taken, Agreement, JustStarted, Enough, Answers, FirstAbsent, Absent, IdentityMap.AllPlain;
    hide BitmapStaysRight, Blocked, Written, Paths, MappedWith, Translate, Present;
    ghost var pool := Start(v, found);
    ghost var mem, tree := v.mem, v.tree;
    assert Translate(mem, v.cr3, 0).Some? by { FirstPageMapped(mem, v.cr3); }
    TopIsPlain(mem, v.cr3, tree);
    BaseIsAbsent(mem, v.cr3);
    FourAreEnough(v.mem, v.cr3, v.tree.Keys, BASE_PAGE, 1, |v.pmm.FreeSet()|);
    assert VMM.NeededPages(PAGE_SIZE) == 1;
    var out;
    ghost var c;
    out, c := Allocate(v, 0x43000000, PAGE_SIZE, 0x6, fuel, {}, pool);
    FindsFirst(mem, v.cr3, BASE_PAGE, BASE_PAGE, 1, out);
    page := out.page;
    FoundMapped(mem, tree, v.mem, v.tree, v.cr3, page, 0x6);
    TopStays(mem, tree, v.mem, v.tree, v.cr3, Paths(page, page + 1), 0x6);
  }

  lemma FirstPageMapped(mem: Memory, root: nat)
    requires JustStarted(mem, root)
    ensures Translate(mem, root, 0).Some?
  {
    hide Translate, NamedFrame;
  }

  lemma BaseIsAbsent(mem: Memory, root: nat)
    requires JustStarted(mem, root)
    ensures FirstAbsent(mem, root, BASE_PAGE, BASE_PAGE) && Absent(mem, root, BASE_PAGE, BASE_PAGE + 1)
  {
    hide Translate, NamedFrame;
  }
}
