/** malloc and free in the form of the sources: the kernel's page table arrays for all processes, and in every
  process a block list in its memory.  Each operation is the function of `UserHeap` on the state it has. */
module UserProcess {
  import opened Common
  import opened Pte
  import opened Ranges
  import opened Search
  import opened Runs
  import opened BlockList
  import opened UserHeap
  import opened UserPages
  import VMM = Vmm

  const PAGES_PER_THREAD: nat := 2
  const MMAP_ATTRIBUTES: Attributes := 0x6     // writeable, user

  /** The kernel's side: two slots for every process. */
  class MmapTable {
    const pages: array<nat>
    const bytesUsed: array<int>

    constructor (processes: nat)
      ensures fresh(pages) && fresh(bytesUsed)
      ensures pages.Length == bytesUsed.Length == processes * PAGES_PER_THREAD
      ensures forall pid :: 0 <= pid < processes ==> Slots(pid) == EMPTY.slots
    {
      pages := new nat[processes * PAGES_PER_THREAD](_ => NULL);
      bytesUsed := new int[processes * PAGES_PER_THREAD](_ => 0);
    }

    predicate HasProcess(pid: nat) {
      pages.Length == bytesUsed.Length && (pid + 1) * PAGES_PER_THREAD <= pages.Length
    }

    function Slots(pid: nat): (r: seq<Slot>)
      reads pages, bytesUsed
      ensures |r| == 2
    {
      if HasProcess(pid) then
        [Slot(pages[2 * pid], bytesUsed[2 * pid]), Slot(pages[2 * pid + 1], bytesUsed[2 * pid + 1])]
      else EMPTY.slots
    }

    /** The address and the slots; the page for an empty slot is searched for only when the loop comes to one. */
    method SyscallMmap(pid: nat, size: nat, v: VMM.Vmm, fuel: nat, ghost live: set<nat>, ghost pool: set<nat>)
      returns (addr: nat, ghost grant: nat, ghost live': set<nat>)
      requires HasProcess(pid) && pages != v.pmm.stack && Home(v, Slots(pid), live, pool) && fuel > TOTAL_PTS + 1
      requires MeetsEmpty(Slots(pid), 0, size) ==> 4 <= |v.pmm.FreeSet()|
      modifies pages, bytesUsed, v`mem, v`tree, v`bitmap, v.pmm`free, v.pmm`frames, v.pmm.map_
      ensures (Slots(pid), addr) == AfterMmap(old(Slots(pid)), size, grant) && Grantable(old(Slots(pid)), grant)
      ensures grant != NULL ==> MappedWith(v.mem, v.cr3, grant / PAGE_SIZE, 0x6)
      ensures Home(v, Slots(pid), live', pool) && live' == live + (SlotPages(Slots(pid)) - SlotPages(old(Slots(pid))))
      ensures forall p: nat :: p != pid ==> Slots(p) == old(Slots(p))
    {
      hide v.Valid, Sane, SlotsLive, SlotPages, Grantable, MappedWith;
      live', grant := live, NULL;
      NoGrant(Slots(pid));
      if size > PAGE {
        return NULL, grant, live';
      }
      ghost var slots0 := Slots(pid);
      var first := pid * PAGES_PER_THREAD;
      var cur := first;
      while cur < first + PAGES_PER_THREAD
        invariant first <= cur <= first + PAGES_PER_THREAD && Slots(pid) == slots0 && live' == live && grant == NULL
        invariant pages[..] == old(pages[..]) && bytesUsed[..] == old(bytesUsed[..]) && v.pmm.Abs() == old(v.pmm.Abs())
        invariant Home(v, slots0, live, pool)
        invariant forall g: nat :: AfterMmap(slots0, size, g) == MmapFrom(slots0, cur - first, size, g)
        invariant MeetsEmpty(slots0, 0, size) == MeetsEmpty(slots0, cur - first, size)
      {
        assert slots0[cur - first] == Slot(pages[cur], bytesUsed[cur]);
        if pages[cur] == NULL {
          var page;
          page, live' := GrantPage(v, MMAP_ATTRIBUTES, fuel, slots0, live, pool);
          grant, addr := page, page;
          if page != NULL {
            SlotsInLive(slots0, live);
            SlotFilled(slots0, cur - first, live', page, size);
            pages[cur] := page;
            bytesUsed[cur] := size;
          }
          assert Slots(pid) == if page != NULL then slots0[cur - first := Slot(page, size)] else slots0;
          return;
        } else if FitsBehind(bytesUsed[cur], size) {
          addr := AsAddress(pages[cur] + bytesUsed[cur]);
          SlotGrows(slots0, cur - first, live, bytesUsed[cur] + size);
          bytesUsed[cur] := bytesUsed[cur] + size;
          assert Slots(pid) == slots0[cur - first := Slot(pages[cur], bytesUsed[cur])];
          return;
        }
        cur := cur + 1;
      }
      return NULL, grant, live';
    }

    /** The slots; the pages of those that are emptied are given back.  An address in page 0 would match the empty slots. */
    method SyscallMunmap(pid: nat, addr: nat, size: nat, v: VMM.Vmm, ghost live: set<nat>, ghost pool: set<nat>)
      returns (ghost live': set<nat>)
      requires HasProcess(pid) && pages != v.pmm.stack && Home(v, Slots(pid), live, pool)
      requires addr >= PAGE
      modifies pages, bytesUsed, v`mem, v`bitmap, v.pmm`free, v.pmm`frames, v.pmm.map_, v.pmm.stack
      ensures Slots(pid) == AfterMunmap(old(Slots(pid)), addr, size)
      ensures Home(v, Slots(pid), live', pool) && live' == live - (SlotPages(old(Slots(pid))) - SlotPages(Slots(pid)))
      ensures forall p: nat :: p != pid ==> Slots(p) == old(Slots(p))
    {
      hide v.Valid, Sane, SlotsLive, SlotPages;
      ghost var slots0 := Slots(pid);
      live' := live;
      var first := pid * PAGES_PER_THREAD;
      var cur := first;
      while cur < first + PAGES_PER_THREAD
        invariant first <= cur <= first + PAGES_PER_THREAD
        invariant Slots(pid) == seq(2, i requires 0 <= i < 2 => if i < cur - first then MunmapSlot(slots0[i], addr, size) else slots0[i])
        invariant Home(v, Slots(pid), live', pool) && live' == live - (SlotPages(slots0) - SlotPages(Slots(pid)))
        invariant SlotPages(Slots(pid)) <= SlotPages(slots0)
        invariant forall p: nat :: p != pid ==> Slots(p) == old(Slots(p))
      {
        ghost var slots1 := Slots(pid);
        assert slots1[cur - first] == Slot(pages[cur], bytesUsed[cur]);
        if pages[cur] == PageOf(addr) {
          if bytesUsed[cur] == size {
            live' := EmptySlot(pid, cur - first, v, live', pool);
          } else {
            SlotGrows(slots1, cur - first, live', bytesUsed[cur] - size);
            bytesUsed[cur] := bytesUsed[cur] - size;
            assert Slots(pid) == slots1[cur - first := Slot(pages[cur], bytesUsed[cur])];
          }
        }
        cur := cur + 1;
      }
      assert Slots(pid) == AfterMunmap(slots0, addr, size);
    }

    /** Gives the page of a slot back and empties the slot. */
    method EmptySlot(pid: nat, i: nat, v: VMM.Vmm, ghost live: set<nat>, ghost pool: set<nat>) returns (ghost live': set<nat>)
      requires HasProcess(pid) && pages != v.pmm.stack && i < 2 && Home(v, Slots(pid), live, pool) && Slots(pid)[i].page != NULL
      modifies pages, bytesUsed, v`mem, v`bitmap, v.pmm`free, v.pmm`frames, v.pmm.map_, v.pmm.stack
      ensures Slots(pid) == old(Slots(pid))[i := Slot(NULL, 0)] && Home(v, Slots(pid), live', pool)
      ensures live' == live - (SlotPages(old(Slots(pid))) - SlotPages(Slots(pid))) && SlotPages(Slots(pid)) <= SlotPages(old(Slots(pid)))
      ensures forall p: nat :: p != pid ==> Slots(p) == old(Slots(p))
    {
      hide v.Valid, Sane, SlotPages;
      ghost var slots0 := Slots(pid);
      var cur := pid * PAGES_PER_THREAD + i;
      assert slots0[i] == Slot(pages[cur], bytesUsed[cur]);
      SlotEmptied(slots0, i, live);
      PageOfSlot(slots0, i);
      ReturnPage(v, pages[cur], slots0, i, live, pool);
      live' := live - {pages[cur] / PAGE_SIZE};
      bytesUsed[cur] := 0;
      pages[cur] := NULL;
      assert Slots(pid) == slots0[i := Slot(NULL, 0)];
    }

    /** At the end of a process: the pages of its slots are given back and the slots with a page emptied, so a consistent table has no
      page left for the process. */
    method FreeThreadPages(pid: nat, v: VMM.Vmm, ghost live: set<nat>, ghost pool: set<nat>) returns (ghost live': set<nat>)
      requires HasProcess(pid) && pages != v.pmm.stack && Home(v, Slots(pid), live, pool)
      modifies pages, bytesUsed, v`mem, v`bitmap, v.pmm`free, v.pmm`frames, v.pmm.map_, v.pmm.stack
      ensures forall i :: 0 <= i < 2 ==>
                Slots(pid)[i] == if old(Slots(pid))[i].page != NULL then Slot(NULL, 0) else old(Slots(pid))[i]
      ensures SlotOk(old(Slots(pid))[0]) && SlotOk(old(Slots(pid))[1]) ==> Slots(pid) == EMPTY.slots
      ensures Home(v, Slots(pid), live', pool) && live' == live - SlotPages(old(Slots(pid)))
      ensures forall p: nat :: p != pid ==> Slots(p) == old(Slots(p))
    {
      hide v.Valid, Sane, SlotsLive, SlotPages;
      ghost var slots0 := Slots(pid);
      live' := live;
      var first := pid * PAGES_PER_THREAD;
      var cur := first;
      while cur < first + PAGES_PER_THREAD
        invariant first <= cur <= first + PAGES_PER_THREAD
        invariant Slots(pid) == seq(2, i requires 0 <= i < 2 =>
                    if i < cur - first && slots0[i].page != NULL then Slot(NULL, 0) else slots0[i])
        invariant Home(v, Slots(pid), live', pool) && live' == live - (SlotPages(slots0) - SlotPages(Slots(pid)))
        invariant SlotPages(Slots(pid)) <= SlotPages(slots0)
        invariant forall p: nat :: p != pid ==> Slots(p) == old(Slots(p))
      {
        ghost var slots1 := Slots(pid);
        assert slots1[cur - first] == Slot(pages[cur], bytesUsed[cur]);
        if pages[cur] != NULL {
          live' := EmptySlot(pid, cur - first, v, live', pool);
        }
        cur := cur + 1;
      }
      NoPages(Slots(pid));
    }
  }

  lemma NoPages(slots: seq<Slot>)
    requires forall i :: 0 <= i < |slots| ==> slots[i].page == NULL
    ensures SlotPages(slots) == {}
  {
  }

  lemma PageOfSlot(slots: seq<Slot>, i: nat)
    requires i < |slots| && slots[i].page != NULL
    ensures slots[i].page / PAGE_SIZE in SlotPages(slots)
  {
  }

  /** The library's side, in one process. */
  class Process {
    const pid: nat
    const table: MmapTable
    const list: BlockList
    var lastMmap: int

    constructor (pid: nat, table: MmapTable)
      requires table.HasProcess(pid) && table.Slots(pid) == EMPTY.slots
      ensures this.pid == pid && this.table == table && fresh(list)
      ensures Valid() && Abs() == EMPTY
    {
      this.pid, this.table, lastMmap := pid, table, 0;
      list := new BlockList();
    }

    ghost function Abs(): Heap
      reads this, list, table.pages, table.bytesUsed
    {
      Heap(list.cells, table.Slots(pid), lastMmap)
    }

    ghost predicate Valid()
      reads this, list, table.pages, table.bytesUsed
    {
      table.HasProcess(pid) && list.Valid() && Inv(Abs())
    }

    /** The lists stay in agreement unless the sum with the header overflows and mmap serves what remains of it.  If the remainder
      is 0 the new header can fall on another one; then the list is no list any more. */
    method Malloc(size: nat, v: VMM.Vmm, fuel: nat, ghost live: set<nat>, ghost pool: set<nat>)
      returns (addr: nat, ghost grant: nat, ghost live': set<nat>)
      requires Valid() && size < TWO64 && table.pages != v.pmm.stack && Home(v, table.Slots(pid), live, pool) && fuel > TOTAL_PTS + 1
      requires FirstFit(list.cells, size) == |list.cells| && MeetsEmpty(table.Slots(pid), 0, WithHeader(size)) ==> 4 <= |v.pmm.FreeSet()|
      modifies this, list, table.pages, table.bytesUsed, v`mem, v`tree, v`bitmap, v.pmm`free, v.pmm`frames, v.pmm.map_
      ensures Grantable(old(table.Slots(pid)), grant) && (grant != NULL ==> MappedWith(v.mem, v.cr3, grant / PAGE_SIZE, 0x6))
      ensures Home(v, table.Slots(pid), live', pool) && live' == live + (SlotPages(table.Slots(pid)) - SlotPages(old(table.Slots(pid))))
      ensures table.HasProcess(pid) && |old(table.Slots(pid))| == 2
      ensures list.Valid() <==> WithHeader(size) != 0 || !Clashes(old(table.Slots(pid)))
      ensures Valid() <==> HEADER + size < TWO64 || !Serves(old(table.Slots(pid)), WithHeader(size), grant)
      ensures (Abs(), addr) == AfterMalloc(old(Abs()), size, grant) && Allocates(old(Abs()), size, grant, Abs(), addr)
      ensures forall p: nat :: p != pid ==> table.Slots(p) == old(table.Slots(p))
    {
      hide Allocates;
      hide Inv, Linked, Split, AfterMmap, Serves, WithHeader, Clashes, Disjoint, Grantable, v.Valid, Sane, SlotsLive, SlotPages, MeetsEmpty, MappedWith;
      ghost var h := Abs();
      LinkedFacts(list.base, list.header, list.cells, FirstFit(h.cells, size));
      InvDisjoint(h);
      if FirstFit(h.cells, size) < |h.cells| { FitIsNoClash(h, size); }
      live', grant := live, NULL;
      NoGrant(h.slots);
      if list.base != NULL {
        var block, last := list.FindBlock(list.base, size);
        if block != NULL {
          list.HandOut(block, size, FirstFit(h.cells, size));
          addr := block + HEADER;
        } else {
          addr, grant, live' := ExpandHeap(last, size, v, fuel, live, pool);
        }
      } else {
        addr, grant, live' := ExpandHeap(NULL, size, v, fuel, live, pool);
      }
      MallocKeepsInvIff(h, size, grant);
      MallocAllocates(h, size, grant);
      ClashServes(h.slots, size, grant);
    }

    /** Appends a block in memory that the kernel provides. */
    method ExpandHeap(last: nat, size: nat, v: VMM.Vmm, fuel: nat, ghost live: set<nat>, ghost pool: set<nat>)
      returns (addr: nat, ghost grant: nat, ghost live': set<nat>)
      requires Valid() && size < TWO64 && table.pages != v.pmm.stack && Home(v, table.Slots(pid), live, pool) && fuel > TOTAL_PTS + 1
      requires FirstFit(list.cells, size) == |list.cells| && last == Addr(list.cells, |list.cells| - 1)
      requires MeetsEmpty(table.Slots(pid), 0, WithHeader(size)) ==> 4 <= |v.pmm.FreeSet()|
      modifies this, list, table.pages, table.bytesUsed, v`mem, v`tree, v`bitmap, v.pmm`free, v.pmm`frames, v.pmm.map_
      ensures |old(table.Slots(pid))| == 2 && Grantable(old(table.Slots(pid)), grant)
      ensures grant != NULL ==> MappedWith(v.mem, v.cr3, grant / PAGE_SIZE, 0x6)
      ensures Home(v, table.Slots(pid), live', pool) && live' == live + (SlotPages(table.Slots(pid)) - SlotPages(old(table.Slots(pid))))
      ensures list.Valid() <==> WithHeader(size) != 0 || !Clashes(old(table.Slots(pid)))
      ensures (Abs(), addr) == AfterMalloc(old(Abs()), size, grant)
      ensures forall p: nat :: p != pid ==> table.Slots(p) == old(table.Slots(p))
    {
      hide Inv, Linked, AfterMmap, WithHeader, Clashes, Grantable, FirstFit, v.Valid, Sane, SlotsLive, SlotPages, MeetsEmpty, MappedWith;
      ghost var h := Abs();
      var result;
      result, grant, live' := table.SyscallMmap(pid, WithHeader(size), v, fuel, live, pool);
      ClashesIff(h, WithHeader(size), grant);
      if result == NULL {
        return NULL, grant, live';
      }
      lastMmap := result + HEADER;
      list.Append(result, size, false, last);
      addr := result + HEADER;
    }

    method Free(address: nat, v: VMM.Vmm, ghost live: set<nat>, ghost pool: set<nat>) returns (ghost live': set<nat>)
      requires Valid() && table.pages != v.pmm.stack && Home(v, table.Slots(pid), live, pool)
      modifies this, list, table.pages, table.bytesUsed, v`mem, v`bitmap, v.pmm`free, v.pmm`frames, v.pmm.map_, v.pmm.stack
      ensures Valid()
      ensures Home(v, table.Slots(pid), live', pool) && live' == live - (SlotPages(old(table.Slots(pid))) - SlotPages(table.Slots(pid)))
      ensures Abs() == AfterFree(old(Abs()), address) && Frees(old(Abs()), address, Abs())
      ensures forall p: nat :: p != pid ==> table.Slots(p) == old(table.Slots(p))
    {
      hide Inv, Linked, AfterMunmap, v.Valid, Sane, SlotsLive, SlotPages, Frees, WithoutBlock;
      ghost var h := Abs();
      live' := live;
      FreeKeepsInv(h, address);
      FreeFrees(h, address);
      LinkedFacts(list.base, list.header, list.cells, IndexOf(h.cells, address));
      if !(list.base != NULL && list.base <= address <= lastMmap) {
        return;
      }
      var block := list.GetBlock(address);
      ghost var k := IndexOf(list.cells, address);
      if block == NULL {
        return;
      }
      SizeBound(h, k);
      live' := FreeListed(block, k, v, live, pool);
      FreedHeap(h, address);
    }

    /** Frees block `k`; the last one goes from the list. */
    method FreeListed(block: nat, ghost k: nat, v: VMM.Vmm, ghost live: set<nat>, ghost pool: set<nat>) returns (ghost live': set<nat>)
      requires table.HasProcess(pid) && list.Valid() && table.pages != v.pmm.stack && Home(v, table.Slots(pid), live, pool)
      requires k < |list.cells| && block == Addr(list.cells, k) && block >= PAGE
      modifies this, list, table.pages, table.bytesUsed, v`mem, v`bitmap, v.pmm`free, v.pmm`frames, v.pmm.map_, v.pmm.stack
      ensures list.Valid()
      ensures Home(v, table.Slots(pid), live', pool) && live' == live - (SlotPages(old(table.Slots(pid))) - SlotPages(table.Slots(pid)))
      ensures Abs() == WithoutBlock(old(Abs()), k)
      ensures forall p: nat :: p != pid ==> table.Slots(p) == old(table.Slots(p))
    {
      hide Linked, AfterMunmap, v.Valid, Sane, SlotsLive, SlotPages;
      live' := live;
      LinkedFacts(list.base, list.header, list.cells, k);
      list.SetFree(block, true, k);
      LinkedFacts(list.base, list.header, list.cells, k);
      if list.header[block].next == NULL {
        live' := DropLast(block, v, live, pool);
      }
    }

    /** Takes the last block from the list and gives its bytes back. */
    method DropLast(block: nat, v: VMM.Vmm, ghost live: set<nat>, ghost pool: set<nat>) returns (ghost live': set<nat>)
      requires table.HasProcess(pid) && list.Valid() && table.pages != v.pmm.stack && Home(v, table.Slots(pid), live, pool)
      requires list.cells != [] && block == Addr(list.cells, |list.cells| - 1) && block >= PAGE
      modifies this, list, table.pages, table.bytesUsed, v`mem, v`bitmap, v.pmm`free, v.pmm`frames, v.pmm.map_, v.pmm.stack
      ensures list.Valid()
      ensures Home(v, table.Slots(pid), live', pool) && live' == live - (SlotPages(old(table.Slots(pid))) - SlotPages(table.Slots(pid)))
      ensures var h := old(Abs()); var c := h.cells[|h.cells| - 1];
              Abs() == Heap(h.cells[..|h.cells| - 1], AfterMunmap(h.slots, c.addr, c.size + HEADER), h.lastMmap - c.size - HEADER)
      ensures forall p: nat :: p != pid ==> table.Slots(p) == old(table.Slots(p))
    {
      hide Linked, AfterMunmap, v.Valid, Sane, SlotsLive, SlotPages;
      LinkedFacts(list.base, list.header, list.cells, |list.cells| - 1);
      var size := list.header[block].size;
      list.RemoveLast(block);
      lastMmap := lastMmap - size - HEADER;
      live' := table.SyscallMunmap(pid, block, size + HEADER, v, live, pool);
    }
  }

  /** The heap after block `k` is freed. */
  function WithoutBlock(h: Heap, k: nat): Heap
    requires k < |h.cells|
  {
    var c := h.cells[k];
    if k < |h.cells| - 1 then h.(cells := h.cells[k := c.(free := true)])
    else Heap(h.cells[..k], AfterMunmap(h.slots, c.addr, c.size + HEADER), h.lastMmap - c.size - HEADER)
  }

  lemma FreedHeap(h: Heap, address: nat)
    requires ValidAddress(h, address) && IndexOf(h.cells, address) < |h.cells|
    ensures WithoutBlock(h, IndexOf(h.cells, address)) == AfterFree(h, address)
  {
  }

  /** The upper of two neighbouring pages has a block, and the lower one is full. */
  predicate Clashes(slots: seq<Slot>)
    requires |slots| == 2
  {
    && slots[0].page != NULL && slots[0].used == PAGE
    && slots[1].page == slots[0].page + PAGE && slots[1].used > 0
  }

  /** A page that is used has a block at its start. */
  lemma {:induction false} FirstInPage(cells: seq<Cell>, page: nat) returns (i: nat)
    requires Bytes(cells, page) > 0
    ensures i < |cells| && InPage(cells[i], page) && Bytes(cells[..i], page) == 0
    decreases |cells|
  {
    var n := |cells| - 1;
    if Bytes(cells[..n], page) > 0 {
      i := FirstInPage(cells[..n], page);
      assert cells[..n][..i] == cells[..i];
    } else {
      i := n;
    }
  }

  /** What mmap answers is where a listed block starts exactly if the sum is 0 and the pages clash. */
  lemma ClashesIff(h: Heap, sum: nat, grant: nat)
    requires Inv(h) && Grantable(h.slots, grant)
    ensures |h.slots| == 2
    ensures var r := AfterMmap(h.slots, sum, grant).1;
            (r == NULL || forall i :: 0 <= i < |h.cells| ==> h.cells[i].addr != r) <==> sum != 0 || !Clashes(h.slots)
  {
    hide Inv, AfterMmap, Grantable, Server, Serves, Clashes, Extended;
    InvSlots(h);
    var (slots', r) := AfterMmap(h.slots, sum, grant);
    MmapExtends(h.slots, sum, grant);
    if sum == 0 && Clashes(h.slots) {
      ClashAt(h, slots', grant, r);
    } else if r != NULL {
      forall i | 0 <= i < |h.cells| ensures h.cells[i].addr != r {
        BelowNew(h, i, slots', sum, grant, r);
      }
    }
  }

  lemma ClashAt(h: Heap, slots': seq<Slot>, grant: nat, r: nat)
    requires Inv(h) && |h.slots| == 2 && Clashes(h.slots)
    requires r != NULL <==> Serves(h.slots, 0, grant)
    requires r != NULL ==> Extended(h.slots, slots', Server(h.slots, 0), 0, grant, r)
    ensures r != NULL && exists i :: 0 <= i < |h.cells| && h.cells[i].addr == r
  {
    var i := FirstInPage(h.cells, h.slots[1].page);
    assert h.cells[i].addr == h.slots[1].page;
  }

  /** A block of the same page ends before, and one of another page starts in that page. */
  lemma BelowNew(h: Heap, i: nat, slots': seq<Slot>, sum: nat, grant: nat, r: nat)
    requires Inv(h) && Grantable(h.slots, grant) && i < |h.cells| && |h.slots| == 2
    requires Extended(h.slots, slots', Server(h.slots, sum), sum, grant, r) && (sum != 0 || !Clashes(h.slots))
    ensures h.cells[i].addr != r
  {
    hide Tiled, Length, Bytes;
    var cur := Server(h.slots, sum);
    var page := if h.slots[cur].page == NULL then grant else h.slots[cur].page;
    if OnPage(h.cells[i], h.slots[cur]) {
      EndOfCell(h.cells, page, h.slots[cur].used, i);
    } else {
      assert OnPage(h.cells[i], h.slots[1 - cur]);
      EndOfCell(h.cells, h.slots[1 - cur].page, h.slots[1 - cur].used, i);
      hide SlotTiled;
      OtherPage(h.cells[i], h.slots, cur, page, sum);
    }
  }

  lemma OtherPage(c: Cell, slots: seq<Slot>, cur: nat, page: nat, sum: nat)
    requires |slots| == 2 && cur == Server(slots, sum) && (sum != 0 || !Clashes(slots))
    requires page % PAGE == 0 && page != slots[1 - cur].page && (slots[cur].page != NULL ==> page == slots[cur].page)
    requires slots[cur].page == NULL ==> slots[cur].used == 0
    requires OnPage(c, slots[1 - cur]) && slots[1 - cur].page % PAGE == 0 && 0 < slots[1 - cur].used <= PAGE
    requires 0 <= slots[cur].used && slots[cur].used + sum <= PAGE
    ensures c.addr != page + slots[cur].used
  {
    PagesApart(page, slots[1 - cur].page);
  }

  lemma ClashServes(slots: seq<Slot>, size: nat, grant: nat)
    requires |slots| == 2
    ensures HEADER + size < TWO64 ==> WithHeader(size) != 0
    ensures Clashes(slots) ==> Serves(slots, 0, grant)
  {
  }

  /** A request that a listed block satisfies has no sum of 0. */
  lemma FitIsNoClash(h: Heap, size: nat)
    requires Inv(h) && size < TWO64 && FirstFit(h.cells, size) < |h.cells|
    ensures WithHeader(size) != 0
  {
    hide Inv;
    if HEADER + size >= TWO64 {
      NothingFits(h, size);
    }
  }

  /** Two pages, one right below the other, each with a single block that takes all of it. */
  function FullPages(): Heap {
    Heap([Cell(MMAP_BASE, PAGE - HEADER, false), Cell(MMAP_BASE + PAGE, PAGE - HEADER, false)],
         [Slot(MMAP_BASE, PAGE), Slot(MMAP_BASE + PAGE, PAGE)], MMAP_BASE + PAGE + HEADER)
  }

  lemma FullPagesInv()
    ensures Inv(FullPages())
  {
    var p, q, h := MMAP_BASE, MMAP_BASE + PAGE, FullPages();
    assert h.cells[..0] == [] && h.cells[..1] == [h.cells[0]] && h.cells[..1][..0] == [] && h.cells[..2] == h.cells;
    assert Bytes([], p) == 0 && Bytes([], q) == 0;
    assert Bytes(h.cells[..1], p) == PAGE && Bytes(h.cells[..1], q) == 0;
    assert Bytes(h.cells, p) == PAGE && Bytes(h.cells, q) == PAGE;
  }

  /** The headers can clash: the new block starts where the upper page's block does. */
  lemma ClashExample()
    ensures var (h, r) := AfterMalloc(FullPages(), TWO64 - HEADER, NULL);
            Inv(FullPages()) && Clashes(FullPages().slots) && |h.cells| == 3 && h.cells[2].addr == h.cells[1].addr
  {
    FullPagesInv();
    var f := FullPages();
    assert FirstFit(f.cells, TWO64 - HEADER) == |f.cells|;
    assert WithHeader(TWO64 - HEADER) == 0;
    assert AfterMmap(f.slots, 0, NULL).1 == MMAP_BASE + PAGE;
  }
}
