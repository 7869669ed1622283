/** The user heap (malloc, free) over the kernel's two-page bump allocator (mmap, munmap) of its process.

  `Heap` is the state of both layers as a value and `AfterMalloc`, `AfterFree` say what the calls do to it.  The
  invariant `Tiled` spans the layers: the blocks of the list that lie in a mapped page tile it, in list order,
  up to exactly the byte count that the kernel keeps for the page.
 */
module UserHeap {
  import opened Common
  import opened BlockList

  const PAGE: nat := 4096
  const MMAP_BASE: nat := 0x43000000

  /** `pages[cur]` (0 for NULL) and `bytes_used[cur]`. */
  datatype Slot = Slot(page: nat, used: int)

  datatype Heap = Heap(cells: seq<Cell>, slots: seq<Slot>, lastMmap: int)

  // ---------------------------------------------------------------- mmap and munmap

  /** Whether a request fits behind the bytes used: the difference is signed, the comparison unsigned. */
  predicate FitsBehind(used: int, size: nat) {
    PAGE - used >= size || PAGE - used < 0
  }

  /** The loop of `syscall_mmap` from slot `cur` on.  `grant` is the page that the virtual memory
    manager finds, NULL if it finds none. */
  function MmapFrom(slots: seq<Slot>, cur: nat, size: nat, grant: nat): (seq<Slot>, nat)
    requires cur <= |slots|
    decreases |slots| - cur
  {
    if cur == |slots| then (slots, NULL)
    else if slots[cur].page == NULL then
      if grant != NULL then (slots[cur := Slot(grant, size)], grant) else (slots, NULL)
    else if FitsBehind(slots[cur].used, size) then
      (slots[cur := slots[cur].(used := slots[cur].used + size)], AsAddress(slots[cur].page + slots[cur].used))
    else MmapFrom(slots, cur + 1, size, grant)
  }

  /** Whether that loop comes to an empty slot, and so needs a page. */
  function MeetsEmpty(slots: seq<Slot>, cur: nat, size: nat): bool
    requires cur <= |slots|
    decreases |slots| - cur
  {
    cur < |slots| && (slots[cur].page == NULL || (!FitsBehind(slots[cur].used, size) && MeetsEmpty(slots, cur + 1, size)))
  }

  function AsAddress(a: int): nat {
    a % TWO64
  }

  function AfterMmap(slots: seq<Slot>, size: nat, grant: nat): (seq<Slot>, nat) {
    if size > PAGE then (slots, NULL) else MmapFrom(slots, 0, size, grant)
  }

  function PageOf(addr: nat): nat {
    addr / PAGE * PAGE
  }

  /** One round of `syscall_munmap`.  The comparison is unsigned, so only an exact match releases the page. */
  function MunmapSlot(s: Slot, addr: nat, size: nat): Slot {
    if s.page == PageOf(addr) then
      if s.used == size then Slot(NULL, 0) else s.(used := s.used - size)
    else s
  }

  function AfterMunmap(slots: seq<Slot>, addr: nat, size: nat): (r: seq<Slot>)
    ensures |r| == |slots|
  {
    seq(|slots|, i requires 0 <= i < |slots| => MunmapSlot(slots[i], addr, size))
  }

  // ---------------------------------------------------------------- malloc and free

  /** Header and payload, added in 64 bits. */
  function WithHeader(size: nat): (r: nat)
    ensures size < TWO64 ==> r == if HEADER + size < TWO64 then HEADER + size else HEADER + size - TWO64
  {
    Sum64(HEADER, size)
  }

  /** The new heap and the address returned, NULL on failure. */
  function AfterMalloc(h: Heap, size: nat, grant: nat): (Heap, nat) {
    var k := FirstFit(h.cells, size);
    if k < |h.cells| then (h.(cells := Take(h.cells, k, size)), h.cells[k].addr + HEADER)
    else
      var (slots, result) := AfterMmap(h.slots, WithHeader(size), grant);
      if result == NULL then (h.(slots := slots), NULL)
      else (Heap(h.cells + [Cell(result, size, false)], slots, result + HEADER), result + HEADER)
  }

  predicate ValidAddress(h: Heap, address: nat) {
    h.cells != [] && h.cells[0].addr <= address <= h.lastMmap
  }

  function AfterFree(h: Heap, address: nat): Heap {
    var k := IndexOf(h.cells, address);
    if !ValidAddress(h, address) || k == |h.cells| then h
    else if k < |h.cells| - 1 then h.(cells := h.cells[k := h.cells[k].(free := true)])
    else
      var c := h.cells[k];
      Heap(h.cells[..k], AfterMunmap(h.slots, c.addr, c.size + HEADER), h.lastMmap - c.size - HEADER)
  }

  // ---------------------------------------------------------------- the invariant of both layers

  predicate InPage(c: Cell, page: nat) {
    page <= c.addr < page + PAGE
  }

  function Length(c: Cell, page: nat): nat {
    if InPage(c, page) then HEADER + c.size else 0
  }

  /** The bytes that the blocks of the list take in a page, headers included. */
  function Bytes(cells: seq<Cell>, page: nat): nat {
    if cells == [] then 0 else Bytes(cells[..|cells| - 1], page) + Length(cells[|cells| - 1], page)
  }

  /** The blocks in the page follow each other in list order, without gap, from its start up to `used`. */
  ghost predicate Tiled(cells: seq<Cell>, page: nat, used: int) {
    && used == Bytes(cells, page)
    && forall i :: 0 <= i < |cells| && InPage(cells[i], page) ==> cells[i].addr == page + Bytes(cells[..i], page)
  }

  predicate SlotOk(s: Slot) {
    if s.page == NULL then s.used == 0
    else s.page % PAGE == 0 && MMAP_BASE <= s.page < TWO64 - PAGE && 0 <= s.used <= PAGE
  }

  predicate OnPage(c: Cell, s: Slot) {
    s.page != NULL && InPage(c, s.page)
  }

  ghost predicate SlotTiled(cells: seq<Cell>, s: Slot) {
    s.page != NULL ==> Tiled(cells, s.page, s.used)
  }

  /** The kernel's counts and the list agree, for both pages; and every block lies in one of them. */
  ghost predicate Inv(h: Heap) {
    && |h.slots| == 2 && SlotOk(h.slots[0]) && SlotOk(h.slots[1])
    && (h.slots[0].page != NULL ==> h.slots[0].page != h.slots[1].page)
    && SlotTiled(h.cells, h.slots[0]) && SlotTiled(h.cells, h.slots[1])
    && forall i :: 0 <= i < |h.cells| ==> OnPage(h.cells[i], h.slots[0]) || OnPage(h.cells[i], h.slots[1])
  }

  /** A page that the virtual memory manager may hand to the process. */
  predicate Grantable(slots: seq<Slot>, grant: nat) {
    grant != NULL ==>
      && grant % PAGE == 0 && MMAP_BASE <= grant < TWO64 - PAGE
      && forall s :: s in slots ==> s.page != grant
  }

  lemma {:induction false} BytesConcat(a: seq<Cell>, b: seq<Cell>, page: nat)
    ensures Bytes(a + b, page) == Bytes(a, page) + Bytes(b, page)
  {
    if b == [] {
      assert a + b == a;
    } else {
      assert (a + b)[..|a + b| - 1] == a + b[..|b| - 1];
      BytesConcat(a, b[..|b| - 1], page);
    }
  }

  lemma {:induction false} BytesMonotone(cells: seq<Cell>, page: nat, i: nat, j: nat)
    requires i <= j <= |cells|
    ensures Bytes(cells[..i], page) <= Bytes(cells[..j], page)
  {
    assert cells[..j] == cells[..i] + cells[i..j];
    BytesConcat(cells[..i], cells[i..j], page);
  }

  lemma BytesNext(cells: seq<Cell>, page: nat, i: nat)
    requires i < |cells|
    ensures Bytes(cells[..i + 1], page) == Bytes(cells[..i], page) + Length(cells[i], page)
  {
    assert cells[..i + 1][..i] == cells[..i];
  }

  predicate SameExtents(a: seq<Cell>, b: seq<Cell>) {
    |a| == |b| && forall i :: 0 <= i < |a| ==> a[i].addr == b[i].addr && a[i].size == b[i].size
  }

  lemma {:induction false} BytesIgnoreFlags(a: seq<Cell>, b: seq<Cell>, page: nat)
    requires SameExtents(a, b)
    ensures Bytes(a, page) == Bytes(b, page)
  {
    if a != [] {
      BytesIgnoreFlags(a[..|a| - 1], b[..|b| - 1], page);
    }
  }

  lemma TiledIgnoresFlags(a: seq<Cell>, b: seq<Cell>, page: nat, used: int)
    requires SameExtents(a, b) && Tiled(a, page, used)
    ensures Tiled(b, page, used)
  {
    BytesIgnoreFlags(a, b, page);
    forall i | 0 <= i < |b| && InPage(b[i], page) ensures b[i].addr == page + Bytes(b[..i], page) {
      BytesIgnoreFlags(a[..i], b[..i], page);
      assert InPage(a[i], page);
    }
  }

  lemma TiledAppend(cells: seq<Cell>, c: Cell, page: nat, used: int)
    requires Tiled(cells, page, used)
    requires InPage(c, page) ==> c.addr == page + used
    ensures Tiled(cells + [c], page, used + Length(c, page))
  {
    var all := cells + [c];
    assert all[..|cells|] == cells;
    forall i | 0 <= i < |all| && InPage(all[i], page) ensures all[i].addr == page + Bytes(all[..i], page) {
      assert all[..i] == cells[..i];
      assert i == |cells| ==> cells[..i] == cells;
    }
  }

  lemma TiledDropLast(cells: seq<Cell>, page: nat, used: int)
    requires Tiled(cells, page, used) && cells != []
    ensures Tiled(cells[..|cells| - 1], page, used - Length(cells[|cells| - 1], page))
    ensures InPage(cells[|cells| - 1], page) ==>
              cells[|cells| - 1].addr + HEADER + cells[|cells| - 1].size == page + used
  {
    var rest := cells[..|cells| - 1];
    forall i | 0 <= i < |rest| && InPage(rest[i], page) ensures rest[i].addr == page + Bytes(rest[..i], page) {
      assert rest[..i] == cells[..i] && InPage(cells[i], page);
    }
  }

  /** The end of a block in the page is where the blocks up to it reach, within the used part. */
  lemma EndOfCell(cells: seq<Cell>, page: nat, used: int, i: nat)
    requires Tiled(cells, page, used) && i < |cells| && InPage(cells[i], page)
    ensures cells[i].addr + HEADER + cells[i].size == page + Bytes(cells[..i + 1], page) <= page + used
  {
    BytesNext(cells, page, i);
    BytesMonotone(cells, page, i + 1, |cells|);
    assert cells[..|cells|] == cells;
  }

  /** Blocks later in the list lie above, within the same page. */
  lemma InOrder(cells: seq<Cell>, page: nat, used: int, i: nat, j: nat)
    requires Tiled(cells, page, used) && i < j < |cells| && InPage(cells[i], page) && InPage(cells[j], page)
    ensures cells[i].addr + HEADER + cells[i].size <= cells[j].addr
  {
    EndOfCell(cells, page, used, i);
    BytesMonotone(cells, page, i + 1, j);
  }

  /** Splitting a block leaves every page as it was tiled, one boundary more. */
  lemma TiledSplit(cells: seq<Cell>, k: nat, size: nat, page: nat, used: int)
    requires Tiled(cells, page, used) && used <= PAGE
    requires k < |cells| && Splittable(cells[k], size)
    requires !InPage(cells[k], page) ==> !InPage(Split(cells, k, size)[k + 1], page)
    ensures InPage(cells[k], page) ==> InPage(Split(cells, k, size)[k + 1], page)
    ensures Tiled(Split(cells, k, size), page, used)
  {
    var r := Split(cells, k, size);
    if InPage(cells[k], page) {
      EndOfCell(cells, page, used, k);
      assert InPage(r[k + 1], page);
    }
    SplitBytes(cells, k, size, page, |r|);
    assert r[..|r|] == r && cells[..|cells|] == cells;
    forall i | 0 <= i < |r| && InPage(r[i], page) ensures r[i].addr == page + Bytes(r[..i], page) {
      SplitCellTiled(cells, k, size, page, used, i);
    }
  }

  lemma SplitCellTiled(cells: seq<Cell>, k: nat, size: nat, page: nat, used: int, i: nat)
    requires Tiled(cells, page, used) && k < |cells| && Splittable(cells[k], size) && i <= |cells|
    requires InPage(cells[k], page) <==> InPage(Split(cells, k, size)[k + 1], page)
    requires InPage(Split(cells, k, size)[i], page)
    ensures Split(cells, k, size)[i].addr == page + Bytes(Split(cells, k, size)[..i], page)
  {
    var r := Split(cells, k, size);
    SplitCell(cells, k, size, i);
    if i <= k {
      assert r[..i] == cells[..i];
      assert InPage(cells[i], page);
    } else if i == k + 1 {
      BytesNext(r, page, k);
      assert r[..k] == cells[..k];
    } else {
      SplitBytes(cells, k, size, page, i);
      assert InPage(cells[i - 1], page);
    }
  }

  /** The two halves take the bytes of the whole. */
  lemma SplitBytes(cells: seq<Cell>, k: nat, size: nat, page: nat, i: nat)
    requires k < |cells| && Splittable(cells[k], size) && k + 2 <= i <= |cells| + 1
    requires InPage(cells[k], page) <==> InPage(Split(cells, k, size)[k + 1], page)
    ensures Bytes(Split(cells, k, size)[..i], page) == Bytes(cells[..i - 1], page)
  {
    var r := Split(cells, k, size);
    assert r[..i] == r[..k + 2] + cells[k + 1..i - 1];
    assert cells[..i - 1] == cells[..k + 1] + cells[k + 1..i - 1];
    BytesConcat(r[..k + 2], cells[k + 1..i - 1], page);
    BytesConcat(cells[..k + 1], cells[k + 1..i - 1], page);
    BytesNext(cells, page, k);
    BytesNext(r, page, k);
    BytesNext(r, page, k + 1);
    assert r[..k] == cells[..k];
  }

  lemma TiledTake(cells: seq<Cell>, k: nat, size: nat, page: nat, used: int)
    requires Tiled(cells, page, used) && used <= PAGE
    requires k < |cells|
    requires Splittable(cells[k], size) && !InPage(cells[k], page) ==> !InPage(Split(cells, k, size)[k + 1], page)
    ensures Tiled(Take(cells, k, size), page, used)
    ensures Splittable(cells[k], size) && InPage(cells[k], page) ==> InPage(Split(cells, k, size)[k + 1], page)
  {
    if Splittable(cells[k], size) {
      TiledSplit(cells, k, size, page, used);
      TiledIgnoresFlags(Split(cells, k, size), Take(cells, k, size), page, used);
    } else {
      TiledIgnoresFlags(cells, Take(cells, k, size), page, used);
    }
  }

  lemma PagesApart(p: nat, q: nat)
    requires p % PAGE == 0 && q % PAGE == 0 && p != q
    ensures p + PAGE <= q || q + PAGE <= p
  {
  }

  lemma PageOfIs(addr: nat, page: nat)
    requires page % PAGE == 0 && page <= addr < page + PAGE
    ensures PageOf(addr) == page
  {
  }

  /** No block lies in both pages. */
  lemma OnePageOnly(h: Heap, c: Cell)
    requires Inv(h)
    ensures !(OnPage(c, h.slots[0]) && OnPage(c, h.slots[1]))
  {
    hide SlotTiled;
    if h.slots[0].page != NULL && h.slots[1].page != NULL {
      PagesApart(h.slots[0].page, h.slots[1].page);
    }
  }

  /** The block cut off by a split lies in the page of the block that was split, and in no other. */
  lemma RestInPage(h: Heap, k: nat, size: nat, s: Slot)
    requires Inv(h) && s in h.slots && k < |h.cells| && Splittable(h.cells[k], size)
    ensures OnPage(Split(h.cells, k, size)[k + 1], s) <==> OnPage(h.cells[k], s)
  {
    hide Tiled, Bytes, Split;
    var c := h.cells[k];
    SplitCell(h.cells, k, size, k + 1);
    var rest := Split(h.cells, k, size)[k + 1];
    var own := if OnPage(c, h.slots[0]) then h.slots[0] else h.slots[1];
    EndOfCell(h.cells, own.page, own.used, k);
    assert OnPage(rest, own);
    OnePageOnly(h, c);
    OnePageOnly(h, rest);
  }

  lemma TakeKeepsInv(h: Heap, k: nat, size: nat)
    requires Inv(h) && k < |h.cells|
    ensures Inv(h.(cells := Take(h.cells, k, size)))
  {
    hide Tiled, Bytes, Split;
    var taken := Take(h.cells, k, size);
    forall s | s in h.slots ensures SlotTiled(taken, s) {
      if s.page != NULL {
        if Splittable(h.cells[k], size) { RestInPage(h, k, size, s); }
        TiledTake(h.cells, k, size, s.page, s.used);
      }
    }
    if Splittable(h.cells[k], size) {
      SplitCell(h.cells, k, size, k);
      RestInPage(h, k, size, h.slots[0]);
      RestInPage(h, k, size, h.slots[1]);
      forall i | 0 <= i < |taken| ensures OnPage(taken[i], h.slots[0]) || OnPage(taken[i], h.slots[1]) {
        SplitCell(h.cells, k, size, i);
      }
    }
  }

  lemma {:induction false} NoBytes(cells: seq<Cell>, page: nat)
    requires forall i :: 0 <= i < |cells| ==> !InPage(cells[i], page)
    ensures Bytes(cells, page) == 0
  {
    if cells != [] {
      NoBytes(cells[..|cells| - 1], page);
    }
  }

  /** Whether a slot can take `sum` more bytes; an empty one needs a page for that. */
  predicate HasRoom(s: Slot, sum: nat, grant: nat) {
    if s.page == NULL then grant != NULL else PAGE - s.used >= sum
  }

  /** Which of the two slots mmap settles on: the second only if the first has a page without room. */
  function Server(slots: seq<Slot>, sum: nat): (cur: nat)
    requires |slots| == 2
    ensures cur < 2
  {
    if slots[0].page == NULL || PAGE - slots[0].used >= sum then 0 else 1
  }

  predicate Serves(slots: seq<Slot>, sum: nat, grant: nat)
    requires |slots| == 2
  {
    HasRoom(slots[Server(slots, sum)], sum, grant)
  }

  /** mmap succeeds exactly if the request fits a page and the slot it settles on has room; it then answers the end of the
    used part of that slot, which grows over it. */
  lemma MmapExtends(slots: seq<Slot>, size: nat, grant: nat)
    requires |slots| == 2 && SlotOk(slots[0]) && SlotOk(slots[1]) && Grantable(slots, grant)
    ensures var (slots', r) := AfterMmap(slots, size, grant);
            && (r != NULL <==> size <= PAGE && Serves(slots, size, grant))
            && (r == NULL ==> slots' == slots)
            && (r != NULL ==> Extended(slots, slots', Server(slots, size), size, grant, r))
  {
    var (slots', r) := AfterMmap(slots, size, grant);
    if size <= PAGE {
      assert MmapFrom(slots, 2, size, grant) == (slots, NULL);
      if Server(slots, size) == 1 {
        assert (slots', r) == MmapFrom(slots, 1, size, grant);
      }
    }
  }

  predicate Extended(slots: seq<Slot>, slots': seq<Slot>, cur: nat, size: nat, grant: nat, r: nat)
    requires |slots| == 2 && cur < 2
  {
    var page := if slots[cur].page == NULL then grant else slots[cur].page;
    && page != NULL && slots[cur].used + size <= PAGE
    && r == page + slots[cur].used
    && slots' == slots[cur := Slot(page, slots[cur].used + size)]
  }

  lemma AppendKeepsInv(h: Heap, slots': seq<Slot>, cur: nat, size: nat, grant: nat, r: nat)
    requires Inv(h) && Grantable(h.slots, grant) && cur < 2
    requires Extended(h.slots, slots', cur, HEADER + size, grant, r)
    ensures Inv(Heap(h.cells + [Cell(r, size, false)], slots', r + HEADER))
  {
    hide Tiled, Bytes;
    var c := Cell(r, size, false);
    var s, other := h.slots[cur], h.slots[1 - cur];
    var page := slots'[cur].page;
    if s.page == NULL {
      NothingThere(h, page);
    }
    TiledAppend(h.cells, c, page, s.used);
    if other.page != NULL {
      PagesApart(page, other.page);
      TiledAppend(h.cells, c, other.page, other.used);
    }
    var h' := Heap(h.cells + [c], slots', r + HEADER);
    assert SlotTiled(h'.cells, slots'[cur]) && SlotTiled(h'.cells, slots'[1 - cur]);
    assert OnPage(c, slots'[cur]);
    forall i | 0 <= i < |h'.cells| ensures OnPage(h'.cells[i], slots'[0]) || OnPage(h'.cells[i], slots'[1]) {
      if i < |h.cells| { assert h'.cells[i] == h.cells[i]; }
    }
  }

  /** A page that is new to the process holds no block. */
  lemma NothingThere(h: Heap, page: nat)
    requires Inv(h) && page % PAGE == 0 && page != h.slots[0].page && page != h.slots[1].page
    ensures Tiled(h.cells, page, 0)
  {
    hide SlotTiled;
    forall i | 0 <= i < |h.cells| ensures !InPage(h.cells[i], page) {
      if h.slots[0].page != NULL { PagesApart(page, h.slots[0].page); }
      if h.slots[1].page != NULL { PagesApart(page, h.slots[1].page); }
    }
    NoBytes(h.cells, page);
  }

  /** The invariant survives malloc of every size for which header and size do not overflow. */
  lemma MallocKeepsInv(h: Heap, size: nat, grant: nat)
    requires Inv(h) && Grantable(h.slots, grant)
    requires HEADER + size < TWO64
    ensures Inv(AfterMalloc(h, size, grant).0)
  {
    hide Inv, AfterMmap;
    var k := FirstFit(h.cells, size);
    if k < |h.cells| {
      TakeKeepsInv(h, k, size);
    } else {
      assert |h.slots| == 2 && SlotOk(h.slots[0]) && SlotOk(h.slots[1]) by { InvSlots(h); }
      MmapExtends(h.slots, HEADER + size, grant);
      var (slots', r) := AfterMmap(h.slots, HEADER + size, grant);
      if r != NULL {
        AppendKeepsInv(h, slots', Server(h.slots, HEADER + size), size, grant, r);
      }
    }
  }

  lemma MunmapKeepsInv(h: Heap)
    requires Inv(h) && h.cells != []
    ensures var c := h.cells[|h.cells| - 1];
            Inv(h.(cells := h.cells[..|h.cells| - 1], slots := AfterMunmap(h.slots, c.addr, c.size + HEADER)))
    ensures var c := h.cells[|h.cells| - 1];
            exists cur :: 0 <= cur < 2 && OnPage(c, h.slots[cur])
              && c.addr + HEADER + c.size == h.slots[cur].page + h.slots[cur].used
  {
    hide Tiled, Bytes, AfterMunmap;
    var n := |h.cells| - 1;
    var c, rest := h.cells[n], h.cells[..n];
    var cur := if OnPage(c, h.slots[0]) then 0 else 1;
    var s, other := h.slots[cur], h.slots[1 - cur];
    OnePageOnly(h, c);
    PageOfIs(c.addr, s.page);
    TiledDropLast(h.cells, s.page, s.used);
    if other.page != NULL {
      TiledDropLast(h.cells, other.page, other.used);
    }
    MunmapSlots(h.slots, c.addr, c.size + HEADER, cur);
    if s.used == c.size + HEADER {
      forall i | 0 <= i < |rest| ensures !InPage(rest[i], s.page) {
        if InPage(rest[i], s.page) { EndOfCell(rest, s.page, 0, i); }
      }
    } else {
      UsedNonNegative(rest, s.page, s.used - (c.size + HEADER));
    }
  }

  lemma UsedNonNegative(cells: seq<Cell>, page: nat, used: int)
    requires Tiled(cells, page, used)
    ensures used >= 0
  {
  }

  lemma MunmapSlots(slots: seq<Slot>, addr: nat, size: nat, cur: nat)
    requires |slots| == 2 && cur < 2 && slots[cur].page == PageOf(addr) != slots[1 - cur].page
    ensures AfterMunmap(slots, addr, size)
            == slots[cur := if slots[cur].used == size then Slot(NULL, 0) else slots[cur].(used := slots[cur].used - size)]
  {
  }

  lemma InvSlots(h: Heap)
    requires Inv(h)
    ensures |h.slots| == 2 && SlotOk(h.slots[0]) && SlotOk(h.slots[1])
  {
  }

  lemma InvIgnoresLast(h: Heap, g: Heap)
    requires Inv(h) && g.cells == h.cells && g.slots == h.slots
    ensures Inv(g)
  {
  }

  /** The invariant survives free of every address, whatever it points to. */
  lemma FreeKeepsInv(h: Heap, address: nat)
    requires Inv(h)
    ensures Inv(AfterFree(h, address))
  {
    hide Tiled, AfterMunmap;
    var k := IndexOf(h.cells, address);
    if ValidAddress(h, address) && k < |h.cells| {
      if k < |h.cells| - 1 {
        var cells' := h.cells[k := h.cells[k].(free := true)];
        forall s | s in h.slots ensures SlotTiled(cells', s) {
          if s.page != NULL { TiledIgnoresFlags(h.cells, cells', s.page, s.used); }
        }
      } else {
        MunmapKeepsInv(h);
        InvIgnoresLast(h.(cells := h.cells[..k], slots := AfterMunmap(h.slots, h.cells[k].addr, h.cells[k].size + HEADER)), AfterFree(h, address));
      }
    }
  }

  /** Any two blocks of the list, headers and payloads, are apart. */
  lemma BlocksApart(h: Heap, i: nat, j: nat)
    requires Inv(h) && i < j < |h.cells|
    ensures Apart(h.cells[i], h.cells[j])
  {
    hide Tiled, Bytes;
    var c, d := h.cells[i], h.cells[j];
    var s := if OnPage(c, h.slots[0]) then h.slots[0] else h.slots[1];
    var t := if OnPage(d, h.slots[0]) then h.slots[0] else h.slots[1];
    EndOfCell(h.cells, s.page, s.used, i);
    EndOfCell(h.cells, t.page, t.used, j);
    if s.page == t.page {
      InOrder(h.cells, s.page, s.used, i, j);
    } else {
      PagesApart(s.page, t.page);
    }
  }

  lemma InvDisjoint(h: Heap)
    requires Inv(h)
    ensures Disjoint(h.cells)
  {
    hide Inv;
    forall i, j | 0 <= i < j < |h.cells| ensures Apart(h.cells[i], h.cells[j]) {
      BlocksApart(h, i, j);
    }
  }

  /** No block is larger than what fits in a page. */
  lemma SizeBound(h: Heap, i: nat)
    requires Inv(h) && i < |h.cells|
    ensures HEADER + h.cells[i].size <= PAGE && h.cells[i].addr >= MMAP_BASE
  {
    hide Tiled, Bytes;
    var s := if OnPage(h.cells[i], h.slots[0]) then h.slots[0] else h.slots[1];
    EndOfCell(h.cells, s.page, s.used, i);
  }

  /** malloc answers NULL exactly if no listed block fits and mmap refuses the sum. */
  lemma MallocAnswersIff(h: Heap, size: nat, grant: nat)
    requires Inv(h) && Grantable(h.slots, grant)
    ensures |h.slots| == 2
    ensures AfterMalloc(h, size, grant).1 != NULL <==>
            FirstFit(h.cells, size) < |h.cells| || (WithHeader(size) <= PAGE && Serves(h.slots, WithHeader(size), grant))
    ensures AfterMalloc(h, size, grant).1 == NULL ==> AfterMalloc(h, size, grant).0 == h
  {
    hide Inv, Serves, WithHeader, Grantable, AfterMmap;
    InvSlots(h);
    MmapExtends(h.slots, WithHeader(size), grant);
  }

  /** No listed block is large enough for a request whose sum with the header overflows. */
  lemma NothingFits(h: Heap, size: nat)
    requires Inv(h) && HEADER + size >= TWO64
    ensures FirstFit(h.cells, size) == |h.cells|
  {
    hide Inv;
    var k := FirstFit(h.cells, size);
    if k < |h.cells| { SizeBound(h, k); }
  }

  lemma TooLarge(h: Heap, size: nat)
    requires Inv(h) && HEADER + size >= TWO64
    ensures forall i :: 0 <= i < |h.cells| ==> h.cells[i].size != size
  {
    hide Inv;
    forall i | 0 <= i < |h.cells| ensures h.cells[i].size != size {
      SizeBound(h, i);
    }
  }

  /** Exactly when malloc keeps the invariant: unless the 64-bit sum overflows and mmap has room for what remains of it. */
  lemma MallocKeepsInvIff(h: Heap, size: nat, grant: nat)
    requires Inv(h) && Grantable(h.slots, grant) && size < TWO64
    ensures |h.slots| == 2
    ensures Inv(AfterMalloc(h, size, grant).0) <==> HEADER + size < TWO64 || !Serves(h.slots, WithHeader(size), grant)
  {
    hide Inv, Serves, Grantable, AfterMmap, FirstFit, Take;
    MallocAnswersIff(h, size, grant);
    if HEADER + size < TWO64 {
      MallocKeepsInv(h, size, grant);
    } else {
      NothingFits(h, size);
      var h' := AfterMalloc(h, size, grant).0;
      if AfterMalloc(h, size, grant).1 != NULL {
        assert h'.cells[|h.cells|].size == size;
        hide AfterMalloc;
        if Inv(h') {
          TooLarge(h', size);
        }
      }
    }
  }

  /** The overflow is possible: the largest request on an empty heap is answered with a block of no bytes. */
  lemma OverflowExample()
    ensures var h := Heap([], [Slot(NULL, 0), Slot(NULL, 0)], 0);
            && Inv(h) && AfterMalloc(h, TWO64 - 1, MMAP_BASE).1 == MMAP_BASE + HEADER
            && !Inv(AfterMalloc(h, TWO64 - 1, MMAP_BASE).0)
  {
    var h := Heap([], [Slot(NULL, 0), Slot(NULL, 0)], 0);
    MallocKeepsInvIff(h, TWO64 - 1, MMAP_BASE);
  }

  /** A successful malloc hands out a block with enough room, apart from all live ones, which stay as they are. */
  lemma MallocIsFresh(h: Heap, size: nat, grant: nat)
    requires Inv(h) && Grantable(h.slots, grant) && HEADER + size < TWO64
    requires AfterMalloc(h, size, grant).1 != NULL
    ensures HandedOut(h.cells, AfterMalloc(h, size, grant).0.cells, AfterMalloc(h, size, grant).1, size)
  {
    hide Inv, Grantable, AfterMmap, HandedOut, Disjoint, Take;
    var (h', r) := AfterMalloc(h, size, grant);
    MallocKeepsInv(h, size, grant);
    InvDisjoint(h');
    var k := FirstFit(h.cells, size);
    if k < |h.cells| {
      TakeHandsOut(h.cells, k, size);
    } else {
      var result := AfterMmap(h.slots, WithHeader(size), grant).1;
      AppendHandsOut(h.cells, [Cell(result, size, false)], size);
    }
  }

  /** free of an address leaves every live block at another address where it was. */
  lemma FreeKeepsLive(h: Heap, address: nat, c: Cell)
    requires c in h.cells && !c.free && c.addr + HEADER != address
    ensures c in AfterFree(h, address).cells
  {
    var k := IndexOf(h.cells, address);
    hide IndexOf;
    if k < |h.cells| {
      ReleaseKeepsLive(h.cells, k, c);
    }
  }

  lemma MallocKeepsLive(h: Heap, size: nat, grant: nat, c: Cell)
    requires Inv(h) && Grantable(h.slots, grant) && HEADER + size < TWO64
    requires c in h.cells && !c.free
    ensures c in AfterMalloc(h, size, grant).0.cells
  {
    hide Inv, Serves, Grantable, AfterMalloc;
    MallocAnswersIff(h, size, grant);
    if AfterMalloc(h, size, grant).1 != NULL {
      MallocIsFresh(h, size, grant);
    }
  }

  /** free gives back the top of a page and nothing else: the last block ends where the used part of its page ends,
    and afterwards the used part ends where the block began; a page with nothing left is released. */
  lemma FreeReturnsTop(h: Heap, address: nat)
    requires Inv(h) && AfterFree(h, address).cells != h.cells && |AfterFree(h, address).cells| < |h.cells|
    ensures exists cur :: 0 <= cur < 2 && GivesBack(h, AfterFree(h, address), cur)
    ensures AfterFree(h, address).cells == h.cells[..|h.cells| - 1]
    ensures h.cells[|h.cells| - 1].addr + HEADER == address
  {
    hide Tiled, Bytes, AfterMunmap;
    var n := |h.cells| - 1;
    var c := h.cells[n];
    MunmapKeepsInv(h);
    var cur :| 0 <= cur < 2 && OnPage(c, h.slots[cur]) && c.addr + HEADER + c.size == h.slots[cur].page + h.slots[cur].used;
    OnePageOnly(h, c);
    PageOfIs(c.addr, h.slots[cur].page);
    MunmapSlots(h.slots, c.addr, c.size + HEADER, cur);
    assert GivesBack(h, AfterFree(h, address), cur);
  }

  predicate GivesBack(h: Heap, h': Heap, cur: nat)
    requires cur < |h.slots| && h.cells != []
  {
    var s, c := h.slots[cur], h.cells[|h.cells| - 1];
    && OnPage(c, s) && c.addr + HEADER + c.size == s.page + s.used
    && h'.slots == h.slots[cur := if c.addr == s.page then Slot(NULL, 0) else Slot(s.page, c.addr - s.page)]
  }

  // ---------------------------------------------------------------- what malloc and free do, on the heap before and after

  /** The kernel's answer to a request that nothing listed fits: a block behind the bytes used of the first page if that has room or
    is not there yet, else of the second; header and payload are added in 64 bits. */
  ghost predicate Extends(h: Heap, size: nat, grant: nat, h': Heap, addr: nat)
    requires |h.slots| == 2
  {
    var sum := (32 + size) % TWO64;
    var cur := if h.slots[0].page == NULL || h.slots[0].used + sum <= 4096 then 0 else 1;
    var s := h.slots[cur];
    var page := if s.page == NULL then grant else s.page;
    if page == NULL || s.used + sum > 4096 then addr == NULL && h' == h
    else
      && s.used >= 0 && addr == page + s.used + 32 && h'.cells == h.cells + [Cell(page + s.used, size, false)]
      && h'.slots == h.slots[cur := Slot(page, s.used + sum)] && h'.lastMmap == addr
  }

  /** malloc takes the lowest free block that is large enough, and leaves the kernel alone then; else it asks the kernel. */
  ghost predicate Allocates(h: Heap, size: nat, grant: nat, h': Heap, addr: nat)
    requires |h.slots| == 2
  {
    && (forall k: nat :: LowestFit(h.cells, k, size) ==>
          addr == h.cells[k].addr + 32 && Carved(h.cells, h'.cells, k, size) && h'.slots == h.slots && h'.lastMmap == h.lastMmap)
    && (NoFit(h.cells, size) ==> Extends(h, size, grant, h', addr))
  }

  lemma MallocAllocates(h: Heap, size: nat, grant: nat)
    requires Inv(h) && Grantable(h.slots, grant) && size < TWO64
    ensures |h.slots| == 2 && Allocates(h, size, grant, AfterMalloc(h, size, grant).0, AfterMalloc(h, size, grant).1)
  {
    hide Inv, Grantable, AfterMmap, Take, Carved;
    InvSlots(h);
    MmapExtends(h.slots, WithHeader(size), grant);
    var k := FirstFit(h.cells, size);
    if k < |h.cells| {
      TakeCarves(h.cells, k, size);
      assert h.cells[k].free && h.cells[k].size >= size;
      forall j: nat | LowestFit(h.cells, j, size) ensures j == k {
        FirstFitIs(h.cells, size, j);
      }
    }
  }

  /** The slot whose page the block is in ends where the block began; a page with nothing left is released. */
  ghost predicate GivenUp(slots: seq<Slot>, slots': seq<Slot>, c: Cell) {
    && |slots'| == |slots|
    && forall i :: 0 <= i < |slots| ==>
         slots'[i] == if slots[i].page == NULL || !(slots[i].page <= c.addr < slots[i].page + 4096) then slots[i]
                      else if c.addr == slots[i].page then Slot(NULL, 0) else Slot(slots[i].page, c.addr - slots[i].page)
  }

  /** What free does to listed block `k`: it becomes free where it is, or, as the last one, goes. */
  ghost predicate Freed(h: Heap, k: nat, h': Heap)
    requires k < |h.cells|
  {
    if k + 1 < |h.cells| then MarkedFree(h.cells, h'.cells, k) && h'.slots == h.slots && h'.lastMmap == h.lastMmap
    else
      && h'.cells == h.cells[..k] && GivenUp(h.slots, h'.slots, h.cells[k])
      && h'.lastMmap == h.lastMmap - h.cells[k].size - 32
  }

  /** free acts on the addresses of listed blocks from the first block up to the last header that mmap gave, less what was dropped
    since, and on no other. */
  ghost predicate Frees(h: Heap, address: nat, h': Heap) {
    && (forall k :: 0 <= k < |h.cells| && h.cells[k].addr + 32 == address && h.cells[0].addr <= address <= h.lastMmap ==> Freed(h, k, h'))
    && ((forall k :: 0 <= k < |h.cells| ==> h.cells[k].addr + 32 != address) || !(h.cells[0].addr <= address <= h.lastMmap) ==> h' == h)
  }

  lemma FreeFrees(h: Heap, address: nat)
    requires Inv(h)
    ensures Frees(h, address, AfterFree(h, address))
  {
    hide Inv, AfterMunmap, GivenUp;
    var h', k := AfterFree(h, address), IndexOf(h.cells, address);
    InvDisjoint(h);
    forall j | 0 <= j < |h.cells| && h.cells[j].addr + 32 == address ensures j == k {
      OneAddress(h.cells, j, k);
    }
    if k + 1 == |h.cells| && ValidAddress(h, address) {
      LastGivenUp(h, address);
    }
  }

  lemma LastGivenUp(h: Heap, address: nat)
    requires Inv(h) && h.cells != [] && ValidAddress(h, address) && IndexOf(h.cells, address) == |h.cells| - 1
    ensures GivenUp(h.slots, AfterFree(h, address).slots, h.cells[|h.cells| - 1])
  {
    hide Inv, AfterFree, GivenUp, OnPage, IndexOf;
    LastDropped(h, address);
    FreeReturnsTop(h, address);
    InvSlots(h);
    var c, h' := h.cells[|h.cells| - 1], AfterFree(h, address);
    OnePageOnly(h, c);
    var cur :| 0 <= cur < 2 && GivesBack(h, h', cur);
    OneGivenUp(h.slots, h'.slots, c, cur);
  }

  lemma LastDropped(h: Heap, address: nat)
    requires h.cells != [] && ValidAddress(h, address) && IndexOf(h.cells, address) == |h.cells| - 1
    ensures |AfterFree(h, address).cells| < |h.cells|
  {
  }

  lemma OneGivenUp(slots: seq<Slot>, slots': seq<Slot>, c: Cell, cur: nat)
    requires |slots| == 2 && cur < 2 && OnPage(c, slots[cur]) && !OnPage(c, slots[1 - cur])
    requires slots' == slots[cur := if c.addr == slots[cur].page then Slot(NULL, 0) else Slot(slots[cur].page, c.addr - slots[cur].page)]
    ensures GivenUp(slots, slots', c)
  {
  }

  /** A block in use is in use no more exactly if free acts on its address. */
  lemma FreeWorksIff(h: Heap, k: nat)
    requires Inv(h) && k < |h.cells| && !h.cells[k].free
    ensures var address := h.cells[k].addr + 32;
            (forall c :: c in AfterFree(h, address).cells && c.addr + 32 == address ==> c.free) <==>
            h.cells[0].addr <= address <= h.lastMmap
  {
    hide Inv, AfterFree, GivenUp;
    var address := h.cells[k].addr + 32;
    var h' := AfterFree(h, address);
    FreeFrees(h, address);
    if h.cells[0].addr <= address <= h.lastMmap {
      assert Freed(h, k, h');
      InvDisjoint(h);
      forall c | c in h'.cells && c.addr + 32 == address ensures c.free {
        var i :| 0 <= i < |h'.cells| && h'.cells[i] == c;
        OneAddress(h.cells, i, k);
      }
    } else {
      assert h' == h && h.cells[k] in h'.cells;
    }
  }

  /** A block freed that is not the last one serves the next request of at most its size, or a lower one does, without the kernel. */
  lemma FreedIsReused(h: Heap, k: nat, size: nat, grant: nat)
    requires Inv(h) && k + 1 < |h.cells| && size <= h.cells[k].size && size < TWO64 && Grantable(h.slots, grant)
    requires h.cells[0].addr <= h.cells[k].addr + 32 <= h.lastMmap
    ensures var h' := AfterFree(h, h.cells[k].addr + 32);
            var (h'', addr) := AfterMalloc(h', size, grant);
            && addr != NULL && h''.slots == h.slots && h''.lastMmap == h.lastMmap
            && exists i :: 0 <= i <= k && addr == h'.cells[i].addr + 32 && h'.cells[i].size >= size
  {
    hide Inv, AfterFree, GivenUp, Carved, Grantable;
    var address := h.cells[k].addr + 32;
    var h' := AfterFree(h, address);
    FreeFrees(h, address);
    assert Freed(h, k, h');
    var i := FirstFit(h'.cells, size);
    assert h'.cells[k].free && h'.cells[k].size >= size;
    assert i <= k;
  }

  /** The addresses that free acts on shrink when it drops the last block by more than that block took: after requests of 8 and of
    100 bytes and free of the second, free of the first does nothing. */
  lemma FreeIgnoredExample(h1: Heap, a: nat, h2: Heap, b: nat)
    requires (h1, a) == AfterMalloc(EMPTY, 8, MMAP_BASE) && (h2, b) == AfterMalloc(h1, 100, NULL)
    ensures var h3 := AfterFree(h2, b);
            && Inv(h3) && a != NULL && b != NULL && h3.cells == [Cell(a - 32, 8, false)] && AfterFree(h3, a) == h3
  {
    hide Inv, AfterMalloc, AfterFree, GivenUp;
    ExampleFirst(h1, a);
    ExampleSecond(h1, h2, b);
    FreeKeepsInv(h2, b);
    FreeFrees(h2, b);
    var h3 := AfterFree(h2, b);
    assert Freed(h2, 1, h3);
    FreeFrees(h3, a);
  }

  lemma ExampleFirst(h1: Heap, a: nat)
    requires (h1, a) == AfterMalloc(EMPTY, 8, MMAP_BASE)
    ensures Inv(h1) && a == MMAP_BASE + 32
    ensures h1 == Heap([Cell(MMAP_BASE, 8, false)], [Slot(MMAP_BASE, 40), Slot(NULL, 0)], MMAP_BASE + 32)
  {
    EmptyInv();
    hide Inv, AfterMalloc;
    MallocKeepsInv(EMPTY, 8, MMAP_BASE);
    MallocAllocates(EMPTY, 8, MMAP_BASE);
    assert NoFit(EMPTY.cells, 8);
  }

  lemma ExampleSecond(h1: Heap, h2: Heap, b: nat)
    requires Inv(h1) && h1 == Heap([Cell(MMAP_BASE, 8, false)], [Slot(MMAP_BASE, 40), Slot(NULL, 0)], MMAP_BASE + 32)
    requires (h2, b) == AfterMalloc(h1, 100, NULL)
    ensures Inv(h2) && b == MMAP_BASE + 72 && h2.lastMmap == MMAP_BASE + 72
    ensures h2.cells == [Cell(MMAP_BASE, 8, false), Cell(MMAP_BASE + 40, 100, false)]
  {
    hide Inv, AfterMalloc;
    MallocKeepsInv(h1, 100, NULL);
    MallocAllocates(h1, 100, NULL);
    assert NoFit(h1.cells, 100);
  }

  lemma EmptyInv()
    ensures Inv(EMPTY)
  {
  }

  // ---------------------------------------------------------------- runs

  datatype Call = DoMalloc(size: nat, grant: nat) | DoFree(address: nat)

  predicate Allowed(h: Heap, call: Call) {
    call.DoMalloc? ==> HEADER + call.size < TWO64 && Grantable(h.slots, call.grant)
  }

  function Step(h: Heap, call: Call): Heap {
    match call
    case DoMalloc(size, grant) => AfterMalloc(h, size, grant).0
    case DoFree(address) => AfterFree(h, address)
  }

  function Run(h: Heap, calls: seq<Call>): Heap
    decreases |calls|
  {
    if calls == [] then h else Run(Step(h, calls[0]), calls[1..])
  }

  predicate Legal(h: Heap, calls: seq<Call>)
    decreases |calls|
  {
    calls == [] || (Allowed(h, calls[0]) && Legal(Step(h, calls[0]), calls[1..]))
  }

  const EMPTY := Heap([], [Slot(NULL, 0), Slot(NULL, 0)], 0)

  /** In every run the two layers agree. */
  lemma {:induction false} RunKeepsInv(h: Heap, calls: seq<Call>)
    requires Inv(h) && Legal(h, calls)
    ensures Inv(Run(h, calls))
    decreases |calls|
  {
    hide Inv, AfterMalloc, AfterFree;
    if calls != [] {
      match calls[0] {
        case DoMalloc(size, grant) => MallocKeepsInv(h, size, grant);
        case DoFree(address) => FreeKeepsInv(h, address);
      }
      RunKeepsInv(Step(h, calls[0]), calls[1..]);
    }
  }

  /** A block handed out stays listed, as it was, until its own address is freed. */
  lemma {:induction false} RunKeepsLive(h: Heap, calls: seq<Call>, c: Cell)
    requires Inv(h) && Legal(h, calls) && c in h.cells && !c.free
    requires forall k :: 0 <= k < |calls| ==> calls[k] != DoFree(c.addr + HEADER)
    ensures c in Run(h, calls).cells
    decreases |calls|
  {
    hide Inv, AfterMalloc, AfterFree;
    if calls != [] {
      assert calls[0] != DoFree(c.addr + HEADER);
      match calls[0] {
        case DoMalloc(size, grant) => MallocKeepsInv(h, size, grant); MallocKeepsLive(h, size, grant, c);
        case DoFree(address) => FreeKeepsInv(h, address); FreeKeepsLive(h, address, c);
      }
      RunKeepsLive(Step(h, calls[0]), calls[1..], c);
    }
  }

  /** The blocks in each page tile it up to the kernel's count, and no two overlap. */
  ghost predicate TiledApart(h: Heap) {
    && (forall s :: s in h.slots && s.page != NULL ==> Tiled(h.cells, s.page, s.used) && 0 <= s.used <= PAGE)
    && Disjoint(h.cells)
  }

  lemma InvTiles(h: Heap)
    requires Inv(h)
    ensures TiledApart(h)
  {
    hide Tiled, Bytes, Disjoint;
    InvDisjoint(h);
  }

  /** After any run from the empty heap the blocks in each page tile it up to the kernel's count, and no two overlap. */
  lemma RunTiles(calls: seq<Call>)
    requires Legal(EMPTY, calls)
    ensures TiledApart(Run(EMPTY, calls))
  {
    assert Inv(EMPTY);
    hide *;
    RunKeepsInv(EMPTY, calls);
    InvTiles(Run(EMPTY, calls));
  }

  /** Two blocks handed out and not freed meanwhile are apart after any run. */
  lemma LiveBlocksApart(h: Heap, calls: seq<Call>, c: Cell, d: Cell)
    requires Inv(h) && Legal(h, calls) && c in h.cells && d in h.cells && c != d && !c.free && !d.free
    requires forall k :: 0 <= k < |calls| ==> calls[k] != DoFree(c.addr + HEADER) && calls[k] != DoFree(d.addr + HEADER)
    ensures c in Run(h, calls).cells && d in Run(h, calls).cells && Apart(c, d)
  {
    hide Inv, Run, Legal;
    RunKeepsLive(h, calls, c);
    RunKeepsLive(h, calls, d);
    InvDisjoint(h);
  }
}
