/** A process's address space from the start to the end: the first tables, then any searches and releases, then the shutdown.

  `Machine` is what these commands change.  `Sane` is what every one of them keeps, the bitmap included; it is what the
  shutdown needs, and it decides what the shutdown gives back.
 */
module Runs {
  import opened Common
  import opened Pte
  import opened PageTables
  import opened Entries
  import opened Budget
  import opened Ranges
  import opened Search
  import opened Ownership
  import opened Shutdown
  import Boot
  import IdentityMap
  import VMM = Vmm
  import PMM = Pmm

  datatype Machine = Machine(space: Space, bits: set<nat>)

  /** A search, with what it answers; the release of a range of whole pages. */
  datatype Command = Find(from: nat, n: nat, out: Outcome) | GiveBack(lo: nat, hi: nat)

  /** What the methods of `Vmm` guarantee of the command. */
  ghost predicate Performs(root: nat, m: Machine, c: Command, m': Machine) {
    match c
    case Find(from, n, out) =>
      && Answers(m.space.mem, root, from, n, out)
      && (if out.Found? then
            && out.page + n <= PAGES && Taken(root, m.space, m'.space, out.page, out.page + n)
            && (Agreement(m'.space.mem, root, m'.bits) <==> BitmapStaysRight(m.space.mem, root, from, n))
          else m' == m)
    case GiveBack(lo, hi) =>
      && lo < hi <= PAGES && Released(root, m.space, m'.space, lo, hi)
      && (Agreement(m'.space.mem, root, m'.bits) <==> !ClearsTooMuch(m.bits, lo * PAGE_SIZE, (hi - lo) * PAGE_SIZE))
  }

  /** The pages found become live, the pages given back are live no more. */
  ghost function LiveThen(live: set<nat>, c: Command): set<nat> {
    match c
    case Find(_, n, out) => if out.Found? then live + Pages(out.page, out.page + n) else live
    case GiveBack(lo, hi) => live - Pages(lo, hi)
  }

  /** Only live pages are given back, and no search leaves a table behind that it wrongly takes for full: none that starts with
    a table does. */
  ghost predicate Permitted(root: nat, m: Machine, c: Command, live: set<nat>) {
    match c
    case Find(from, n, out) => out.Found? ==> BitmapStaysRight(m.space.mem, root, from, n)
    case GiveBack(lo, hi) => Pages(lo, hi) <= live
  }

  /** The pages of the identity mapping stay mapped, and of the others exactly the live ones are. */
  ghost predicate OnlyLive(mem: Memory, root: nat, live: set<nat>) {
    && Mapped(mem, root, 0, ONE_GB_OF_PAGES) && MappedAreLive(mem, root, live, ONE_GB_OF_PAGES, PAGES)
    && forall q :: q in live ==> ONE_GB_OF_PAGES <= q
  }

  /** An entry above the identity mapping names a frame of the pool, or frame 0 if it never was in use. */
  ghost predicate NamesOwn(mem: Memory, root: nat, pool: set<nat>) {
    forall q :: ONE_GB_OF_PAGES <= q < PAGES && NamedFrame(mem, root, q).Some? ==>
      NamedFrame(mem, root, q).value == 0 || NamedFrame(mem, root, q).value in pool - {root}
  }

  ghost predicate Sane(root: nat, m: Machine, live: set<nat>, pool: set<nat>) {
    && Partition(root, m.space, live, pool) && Agreement(m.space.mem, root, m.bits) && root in m.space.tables
    && OnlyLive(m.space.mem, root, live) && NamesOwn(m.space.mem, root, pool)
  }

  // ---------------------------------------------------------------- one command

  lemma TakenMapsOwn(root: nat, s: Space, s': Space, lo: nat, hi: nat, live: set<nat>)
    requires lo <= hi <= PAGES && Taken(root, s, s', lo, hi) && OnlyLive(s.mem, root, live)
    ensures OnlyLive(s'.mem, root, live + Pages(lo, hi))
  {
    hide Translate, NamedFrame, Needed, Way, FreshFrames, FramesOf;
    TakenFacts(root, s, s', lo, hi);
    assert SameOutside(s.mem, s'.mem, root, lo, hi);
    assert Absent(s.mem, root, lo, hi);
    forall q | q in Pages(lo, hi) ensures ONE_GB_OF_PAGES <= q {
      assert Translate(s.mem, root, q) == None;
    }
    RestSame(s.mem, s'.mem, root, lo, hi);
  }

  lemma RestSame(mem: Memory, mem': Memory, root: nat, lo: nat, hi: nat)
    requires SameOutside(mem, mem', root, lo, hi)
    ensures forall q :: 0 <= q < PAGES && q !in Pages(lo, hi) ==> Translate(mem', root, q) == Translate(mem, root, q)
  {
    hide Translate;
  }

  lemma TakenNamesOwn(root: nat, s: Space, s': Space, lo: nat, hi: nat, pool: set<nat>)
    requires lo <= hi <= PAGES && Taken(root, s, s', lo, hi) && NamesOwn(s.mem, root, pool)
    requires s.free <= pool && root !in s.free
    ensures NamesOwn(s'.mem, root, pool)
  {
    hide Walk, Needed, Way, FramesOf, Absent, SameOutside;
    forall q | ONE_GB_OF_PAGES <= q < PAGES && NamedFrame(s'.mem, root, q).Some?
      ensures NamedFrame(s'.mem, root, q).value == 0 || NamedFrame(s'.mem, root, q).value in pool - {root}
    {
      if lo <= q < hi {
        assert NamedFrame(s'.mem, root, q) == Translate(s'.mem, root, q);
      } else {
        assert NameKept(NamedFrame(s.mem, root, q), NamedFrame(s'.mem, root, q));
      }
    }
  }

  lemma PoolFacts(root: nat, s: Space, live: set<nat>, pool: set<nat>)
    requires Partition(root, s, live, pool) && root in s.tables
    ensures s.free <= pool && root !in s.free
  {
    hide OwnFrames, Frames;
  }

  lemma TakenFromTables(root: nat, s: Space, s': Space, lo: nat, hi: nat)
    requires lo <= hi && Taken(root, s, s', lo, hi)
    ensures s.tables <= s'.tables
  {
    hide Absent, SameOutside, NamesKept, FreshFrames, Needed, Way;
  }

  lemma FoundKeepsSane(root: nat, m: Machine, c: Command, m': Machine, live: set<nat>, pool: set<nat>)
    requires Sane(root, m, live, pool) && Performs(root, m, c, m') && c.Find? && Permitted(root, m, c, live)
    ensures Sane(root, m', LiveThen(live, c), pool)
  {
    hide Partition, Agreement, OnlyLive, NamesOwn, Taken, Answers, BitmapStaysRight, Pages;
    if c.out.Found? {
      var lo, hi := c.out.page, c.out.page + c.n;
      PoolFacts(root, m.space, live, pool);
      TakeKeeps(root, m.space, lo, hi, m'.space, live, pool);
      TakenFromTables(root, m.space, m'.space, lo, hi);
      TakenMapsOwn(root, m.space, m'.space, lo, hi, live);
      TakenNamesOwn(root, m.space, m'.space, lo, hi, pool);
    }
  }

  lemma ReleasedKeeps(root: nat, s: Space, s': Space, lo: nat, hi: nat, live: set<nat>, pool: set<nat>)
    requires lo <= hi <= PAGES && Released(root, s, s', lo, hi) && Pages(lo, hi) <= live
    requires OnlyLive(s.mem, root, live) && NamesOwn(s.mem, root, pool)
    ensures OnlyLive(s'.mem, root, live - Pages(lo, hi)) && NamesOwn(s'.mem, root, pool)
  {
    hide Translate, NamedFrame, FramesOf;
    forall q | q in Pages(lo, hi) ensures ONE_GB_OF_PAGES <= q {
    }
    RestSame(s.mem, s'.mem, root, lo, hi);
    forall q | lo <= q < hi ensures Translate(s'.mem, root, q) == None && q in Pages(lo, hi) {
    }
    forall q | 0 <= q < PAGES ensures NamedFrame(s'.mem, root, q) == NamedFrame(s.mem, root, q) {
    }
  }

  lemma WholeRange(bits: set<nat>, lo: nat, hi: nat)
    requires lo < hi
    ensures !ClearsTooMuch(bits, lo * PAGE_SIZE, (hi - lo) * PAGE_SIZE)
    ensures lo * PAGE_SIZE / PAGE_SIZE == lo && PagesEnd(lo * PAGE_SIZE, (hi - lo) * PAGE_SIZE) == hi
  {
    var end := lo * PAGE_SIZE + (hi - lo) * PAGE_SIZE;
    assert end == hi * PAGE_SIZE;
    assert (hi - lo) * PAGE_SIZE / PAGE_SIZE == hi - lo;
    assert hi * PAGE_SIZE / PT_SIZE == hi / ENTRIES;
  }

  lemma GivenBackKeepsSane(root: nat, m: Machine, c: Command, m': Machine, live: set<nat>, pool: set<nat>)
    requires Sane(root, m, live, pool) && Performs(root, m, c, m') && c.GiveBack? && Permitted(root, m, c, live)
    ensures Sane(root, m', LiveThen(live, c), pool)
  {
    hide Partition, Agreement, OnlyLive, NamesOwn, Released, Pages, ClearsTooMuch;
    ReleaseKeeps(root, m.space, c.lo, c.hi, m'.space, live, pool);
    WholeRange(m.bits, c.lo, c.hi);
    ReleasedKeeps(root, m.space, m'.space, c.lo, c.hi, live, pool);
    assert m'.space.tables == m.space.tables by { hide *; ReleasedTables(root, m.space, m'.space, c.lo, c.hi); }
  }

  lemma ReleasedTables(root: nat, s: Space, s': Space, lo: nat, hi: nat)
    requires Released(root, s, s', lo, hi)
    ensures s'.tables == s.tables
  {
  }

  // ---------------------------------------------------------------- runs

  /** Machines and commands of a run; only live pages are given back. */
  ghost predicate IsRun(root: nat, ms: seq<Machine>, cs: seq<Command>, live: set<nat>) {
    && |ms| == |cs| + 1
    && forall k :: 0 <= k < |cs| ==> 
         Performs(root, ms[k], cs[k], ms[k + 1]) && Permitted(root, ms[k], cs[k], LiveAt(live, cs, k))
  }

  /** The live pages before command `k`. */
  ghost function LiveAt(live: set<nat>, cs: seq<Command>, k: nat): set<nat>
    requires k <= |cs|
  {
    if k == 0 then live else LiveThen(LiveAt(live, cs, k - 1), cs[k - 1])
  }

  /** In every run from a sane state, after every command: each frame of the pool is free, a table or the frame of exactly one
    live page, the bitmap agrees with the tables, and the live pages are what is mapped above the identity mapping. */
  lemma {:induction false} RunStaysSane(root: nat, ms: seq<Machine>, cs: seq<Command>, live: set<nat>, pool: set<nat>, k: nat)
    requires IsRun(root, ms, cs, live) && k <= |cs| && Sane(root, ms[0], live, pool)
    ensures Sane(root, ms[k], LiveAt(live, cs, k), pool)
    decreases k
  {
    hide Sane, Performs, Permitted, LiveThen;
    if k > 0 {
      RunStaysSane(root, ms, cs, live, pool, k - 1);
      assert Performs(root, ms[k - 1], cs[k - 1], ms[k]) && Permitted(root, ms[k - 1], cs[k - 1], LiveAt(live, cs, k - 1));
      CommandKeepsSane(root, ms[k - 1], cs[k - 1], ms[k], LiveAt(live, cs, k - 1), pool);
    }
  }

  lemma CommandKeepsSane(root: nat, m: Machine, c: Command, m': Machine, live: set<nat>, pool: set<nat>)
    requires Sane(root, m, live, pool) && Performs(root, m, c, m') && Permitted(root, m, c, live)
    ensures Sane(root, m', LiveThen(live, c), pool)
  {
    hide Sane, Performs, Permitted, LiveThen;
    if c.Find? {
      FoundKeepsSane(root, m, c, m', live, pool);
    } else {
      GivenBackKeepsSane(root, m, c, m', live, pool);
    }
  }

  // ---------------------------------------------------------------- the calls that perform these commands

  /** The address space of a started kernel or process. */
  ghost function Now(v: VMM.Vmm): Machine
    reads v, v.pmm, v.pmm.map_
  {
    Machine(v.Snap(), v.bitmap)
  }

  /** `vmm_alloc_pages_from` in a sane state.  From the start of a table on it always leaves a sane state. */
  method Allocate(v: VMM.Vmm, from: nat, size: nat, attributes: Attributes, fuel: nat, ghost live: set<nat>, ghost pool: set<nat>)
    returns (out: Outcome, ghost c: Command)
    requires v.Valid() && Sane(v.cr3, Now(v), live, pool) && VMM.NeededPages(size) <= MAX_REQUEST && fuel > TOTAL_PTS + 1
    requires Enough(v.mem, v.cr3, v.tree.Keys, from / PAGE_SIZE, VMM.NeededPages(size), |v.pmm.FreeSet()|)
    modifies v`mem, v`tree, v`bitmap, v.pmm`free, v.pmm`frames, v.pmm.map_
    ensures v.Valid() && c == Find(from / PAGE_SIZE, VMM.NeededPages(size), out) && Performs(v.cr3, old(Now(v)), c, Now(v))
    ensures out.Spinning? <==> Blocked(old(v.mem), v.cr3, from / PAGE_SIZE, VMM.NeededPages(size))
    ensures Permitted(v.cr3, old(Now(v)), c, live) ==> Sane(v.cr3, Now(v), LiveThen(live, c), pool)
    ensures from % PT_SIZE == 0 ==> Permitted(v.cr3, old(Now(v)), c, live)
    ensures out.Found? ==> Written(old(v.mem), old(v.tree), v.mem, v.tree, Paths(out.page, out.page + VMM.NeededPages(size)), attributes)
  {
    hide Written, Paths;
    hide PMM.Inv, PMM.FreeFrames, WellFormed, Sane, Enough, Taken, Answers, Agreement, BitmapStaysRight, Blocked, LiveThen;
    hide VMM.NeededPages, Partition, NoRoom, FirstAbsent, Translate;
    ghost var m := Now(v);
    SaneAgrees(v.cr3, m, live, pool);
    FromTableStart(v.mem, v.cr3, from, VMM.NeededPages(size));
    out := v.AllocFrom(from, size, attributes, fuel);
    c := Find(from / PAGE_SIZE, VMM.NeededPages(size), out);
    FindPerforms(v.cr3, m, from / PAGE_SIZE, c.n, out, Now(v));
    hide Performs;
    if Permitted(v.cr3, m, c, live) {
      CommandKeepsSane(v.cr3, m, c, Now(v), live, pool);
    }
  }

  lemma FromTableStart(mem: Memory, root: nat, from: nat, n: nat)
    ensures from % PT_SIZE == 0 ==> BitmapStaysRight(mem, root, from / PAGE_SIZE, n)
  {
    if from % PT_SIZE == 0 {
      NothingBeforeStart(mem, root, from / PAGE_SIZE, n);
    }
  }

  lemma FindPerforms(root: nat, m: Machine, from: nat, n: nat, out: Outcome, m': Machine)
    requires Answers(m.space.mem, root, from, n, out) && n <= MAX_REQUEST
    requires if out.Found? then Taken(root, m.space, m'.space, out.page, out.page + n) else m' == m
    requires Agreement(m'.space.mem, root, m'.bits) <==> (out.Found? ==> BitmapStaysRight(m.space.mem, root, from, n))
    ensures Performs(root, m, Find(from, n, out), m')
  {
    hide Translate, Absent, Mapped, Taken, Agreement, BitmapStaysRight, NoRoom, Blocked;
  }

  /** `vmm_free_pages` of live pages in a sane state. */
  method FreeLive(v: VMM.Vmm, lo: nat, hi: nat, ghost live: set<nat>, ghost pool: set<nat>)
    requires v.Valid() && Sane(v.cr3, Now(v), live, pool) && lo < hi <= PAGES && Pages(lo, hi) <= live
    requires forall f :: f in pool ==> v.pmm.reserved <= f < v.pmm.total
    modifies v`mem, v`bitmap, v.pmm`free, v.pmm`frames, v.pmm.map_, v.pmm.stack
    ensures v.Valid() && Performs(v.cr3, old(Now(v)), GiveBack(lo, hi), Now(v))
    ensures Sane(v.cr3, Now(v), live - Pages(lo, hi), pool) && EntriesCleared(old(v.mem), v.mem, v.tree, lo, hi)
  {
    hide EntriesCleared;
    hide PMM.Inv, PMM.FreeFrames, WellFormed, Sane, Agreement, Pages, Released, Mapped, NamedFrames, FramesOf, ClearsTooMuch;
    hide Freeable, Harmless, Partition, Absent, SameOutside, SameNames;
    ghost var m := Now(v);
    SaneAgrees(v.cr3, m, live, pool);
    WholeRange(v.bitmap, lo, hi);
    MappedNames(v.mem, v.cr3, lo, hi);
    LiveMayGo(v.cr3, m.space, lo, hi, live, pool, v.pmm.reserved, v.pmm.total);
    v.FreePages(lo * PAGE_SIZE, (hi - lo) * PAGE_SIZE);
    CommandKeepsSane(v.cr3, m, GiveBack(lo, hi), Now(v), live, pool);
  }

  /** The frames of live pages may be given back, and that does no harm. */
  lemma LiveMayGo(root: nat, s: Space, lo: nat, hi: nat, live: set<nat>, pool: set<nat>, reserved: nat, total: nat)
    requires Partition(root, s, live, pool) && Pages(lo, hi) <= live
    requires 1 < reserved <= total && forall f :: f in pool ==> reserved <= f < total
    ensures Mapped(s.mem, root, lo, hi)
    ensures Freeable(FramesOf(s.mem, root, lo, hi), s.free, total) && Harmless(FramesOf(s.mem, root, lo, hi), reserved, s.tables)
  {
    ReleaseIsPermitted(root, s, lo, hi, live, pool, reserved, total);
    hide OwnFrames, Frames, FramesOf, Pages, Mapped;
    FreeableIfOneStays(FramesOf(s.mem, root, lo, hi), s.free, total, 1);
  }

  lemma SaneAgrees(root: nat, m: Machine, live: set<nat>, pool: set<nat>)
    requires Sane(root, m, live, pool)
    ensures Agreement(m.space.mem, root, m.bits) && Partition(root, m.space, live, pool)
  {
  }

  // ---------------------------------------------------------------- the end

  /** The shutdown is permitted in every sane state: frame 1 stays in use. */
  lemma EndIsPermitted(root: nat, m: Machine, live: set<nat>, pool: set<nat>, total: nat)
    requires Sane(root, m, live, pool) && 2 <= total && forall f :: f in pool ==> 1 < f < total
    ensures Freeable(Freed(m.space.mem, root, m.space.tables), m.space.free, total)
  {
    hide OwnFrames, Frames, Agreement, OnlyLive, Translate, NamedFrame;
    FreeableIfOneStays(Freed(m.space.mem, root, m.space.tables), m.space.free, total, 1);
  }

  /** What is free after the shutdown, if all live pages lie in its range: the pool without the root, and frame 0 exactly if
    some page of the range has a table but never was mapped. */
  lemma EndGivesBack(root: nat, m: Machine, live: set<nat>, pool: set<nat>)
    requires Sane(root, m, live, pool) && forall q :: q in live ==> q < USER_END
    ensures m.space.free + Freed(m.space.mem, root, m.space.tables)
            == (pool - {root}) + if NeverMapped(m.space.mem, root) then {0} else {}
  {
    hide Translate, NamedFrame, Agreement;
    var mem := m.space.mem;
    var names := NamedFrames(mem, root, ONE_GB_OF_PAGES, USER_END);
    assert Frames(mem, root, live) <= names by { MappedNames(mem, root, ONE_GB_OF_PAGES, USER_END); LiveInRange(mem, root, live); }
    assert names <= (pool - {root}) + {0};
    assert 0 in names <==> NeverMapped(mem, root);
    hide NamedFrames, OwnFrames, Frames, OnlyLive, NamesOwn, NeverMapped;
  }

  ghost predicate NeverMapped(mem: Memory, root: nat) {
    exists q :: ONE_GB_OF_PAGES <= q < USER_END && NamedFrame(mem, root, q) == Some(0)
  }

  lemma LiveInRange(mem: Memory, root: nat, live: set<nat>)
    requires forall q :: q in live ==> ONE_GB_OF_PAGES <= q < USER_END
    ensures Frames(mem, root, live) <= FramesOf(mem, root, ONE_GB_OF_PAGES, USER_END)
  {
    hide Translate;
  }

  /** The identity mapping and no page table above it. */
  ghost predicate JustStarted(mem: Memory, root: nat) {
    forall q :: 0 <= q < PAGES ==>
      && Translate(mem, root, q) == (if q < ONE_GB_OF_PAGES then Some(q) else None)
      && (NamedFrame(mem, root, q).Some? <==> q < ONE_GB_OF_PAGES)
  }

  /** `vmm_initialize` with a bitmap in which the bits of `found` happen to be set: the state is sane exactly if none of them lies
    above the part that is cleared. */
  method Start(v: VMM.Vmm, found: set<nat>) returns (ghost pool: set<nat>)
    requires v.pmm.Valid() && |v.mem| == v.pmm.total && 516 <= |v.pmm.FreeSet()|
    modifies v`mem, v`cr3, v`tree, v`bitmap, v.pmm`free, v.pmm`frames, v.pmm.map_
    ensures v.Valid() && |v.pmm.FreeSet()| == |old(v.pmm.FreeSet())| - 516
    ensures Sane(v.cr3, Now(v), {}, pool) <==> forall p: nat :: p in found && 4096 <= p ==> p >= TABLES
    ensures exists f :: f in old(v.pmm.FreeSet()) && pool == old(v.pmm.FreeSet()) - {f}
    ensures JustStarted(v.mem, v.cr3) && IdentityMap.AllPlain(v.mem, v.tree)
  {
    hide IdentityMap.AllPlain;
    hide PMM.Inv, PMM.FreeFrames, WellFormed, Agreement, Partition, Translate, NamedFrame;
    ghost var free0 := v.pmm.FreeSet();
    var frame := Boot.Initialize(v, ONE_GB_OF_PAGES, found);
    pool := free0 - {frame};
    RootIsTable(v.mem, v.cr3, v.tree);
    StartsSane(v.cr3, Now(v), pool);
  }

  lemma StartsSane(root: nat, m: Machine, pool: set<nat>)
    requires Partition(root, m.space, {}, pool) && root in m.space.tables
    requires forall q :: 0 <= q < PAGES ==> Translate(m.space.mem, root, q) == if q < ONE_GB_OF_PAGES then Some(q) else None
    requires forall q :: 0 <= q < PAGES ==> (NamedFrame(m.space.mem, root, q).Some? <==> q - q % ENTRIES < ONE_GB_OF_PAGES)
    ensures Sane(root, m, {}, pool) <==> Agreement(m.space.mem, root, m.bits)
    ensures JustStarted(m.space.mem, root)
  {
    hide Partition, Agreement, Translate, NamedFrame;
  }

  /** `vmm_shutdown_process` in a sane state: the pool without the root is free, and frame 0 exactly if some page of the range
    has a table but never was mapped.  The frame manager stays right exactly if there is no such page. */
  method End(v: VMM.Vmm, ghost live: set<nat>, ghost pool: set<nat>)
    requires v.Valid() && Sane(v.cr3, Now(v), live, pool) && forall q :: q in live ==> q < USER_END
    requires forall f :: f in pool ==> v.pmm.reserved <= f < v.pmm.total
    modifies v`mem, v`bitmap, v.pmm`free, v.pmm`frames, v.pmm.map_, v.pmm.stack
    ensures v.pmm.Sound() && (v.pmm.Valid() <==> !NeverMapped(old(v.mem), v.cr3))
    ensures v.pmm.FreeSet() == (pool - {v.cr3}) + if NeverMapped(old(v.mem), v.cr3) then {0} else {}
  {
    hide PMM.Inv, PMM.FreeFrames, WellFormed, Sane, NeverMapped, Freed, Freeable;
    ghost var m := Now(v);
    assert v.Agrees() by { SaneAgrees(v.cr3, m, live, pool); }
    EndIsPermitted(v.cr3, m, live, pool, v.pmm.total);
    EndGivesBack(v.cr3, m, live, pool);
    ShutdownProcess(v, live, pool);
    v.pmm.ValidIff();
  }
}
