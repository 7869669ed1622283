/** The kernel heap (mmu_kmalloc, mmu_kfree): the same block list over whole frames of the physical memory manager.

  A request that no listed block satisfies takes a fresh frame, puts its block at the start and, if the remainder
  of the page size divided by the request is large enough, a free block behind it.  Frames never go back.
 */
module KernelHeap {
  import opened BlockList
  import PMM = Pmm

  const PAGE: nat := 4096

  /** The listed blocks and the addresses of all frames the heap ever took. */
  datatype Heap = Heap(cells: seq<Cell>, frames: set<nat>)

  /** The blocks that `expand_heap` puts into a fresh frame. */
  function FreshBlocks(frame: nat, size: nat): seq<Cell>
    requires size > 0
  {
    Blocks(frame, size, PAGE % size)
  }

  function Blocks(frame: nat, size: nat, freeBytes: nat): seq<Cell> {
    [Cell(frame, size, false)]
    + if freeBytes > HEADER + MIN_ALLOC then [Cell(frame + size + HEADER, freeBytes - HEADER, true)] else []
  }

  /** The new heap and the address returned; `frame` is what the physical memory manager hands out if asked.
    A request of no bytes that needs a frame divides by zero. */
  function AfterKmalloc(h: Heap, size: nat, frame: nat): (Heap, nat)
    requires FirstFit(h.cells, size) == |h.cells| ==> size > 0
  {
    var k := FirstFit(h.cells, size);
    if size > PAGE then (h, NULL)
    else if k < |h.cells| then (h.(cells := Take(h.cells, k, size)), h.cells[k].addr + HEADER)
    else (Heap(h.cells + FreshBlocks(frame, size), h.frames + {frame}), frame + HEADER)
  }

  function AfterKfree(h: Heap, address: nat): Heap
    requires IndexOf(h.cells, address) < |h.cells|
  {
    var k := IndexOf(h.cells, address);
    if k < |h.cells| - 1 then h.(cells := h.cells[k := h.cells[k].(free := true)])
    else h.(cells := h.cells[..k])
  }

  function FrameOf(c: Cell): nat {
    c.addr - c.addr % PAGE
  }

  /** The block, header and payload, lies in one frame of the heap. */
  predicate Inside(c: Cell, frames: set<nat>) {
    FrameOf(c) in frames && c.addr % PAGE + HEADER + c.size <= PAGE
  }

  ghost predicate Inv(h: Heap) {
    && (forall f :: f in h.frames ==> f % PAGE == 0 && f > 0)
    && (forall i :: 0 <= i < |h.cells| ==> Inside(h.cells[i], h.frames))
    && Disjoint(h.cells)
  }

  lemma InvDisjoint(h: Heap)
    requires Inv(h)
    ensures Disjoint(h.cells)
  {
  }

  /** The requests whose fresh blocks stay in their frame. */
  predicate FitsFrame(size: nat) {
    size <= 2048 || 4060 <= size <= 4064
  }

  lemma Remainder(size: nat)
    requires 0 < size <= 2048
    ensures 4096 % size + 2 * size <= 4096 && 4096 % size < size
  {
    var q, r := 4096 / size, 4096 % size;
    assert 4096 == q * size + r;
    if q == 0 {
      assert false;
    } else if q == 1 {
      assert false;
    }
    assert q * size >= 2 * size;
  }

  lemma RemainderAbove(size: nat)
    requires 2048 < size < 4096
    ensures 4096 % size == 4096 - size
  {
  }

  /** The end of the fresh blocks within the page, for all requests. */
  lemma RemainderDecides(size: nat)
    requires 0 < size <= 4096
    ensures HEADER + size <= PAGE && (4096 % size > HEADER + MIN_ALLOC ==> size + HEADER + 4096 % size <= PAGE) <==> FitsFrame(size)
    ensures 4096 % size > HEADER + MIN_ALLOC ==> size + HEADER < PAGE
  {
    if size <= 2048 {
      Remainder(size);
    } else if size < 4096 {
      RemainderAbove(size);
    }
  }

  lemma InsideAt(frame: nat, offset: nat, size: nat, free: bool)
    requires frame % PAGE == 0
    ensures Inside(Cell(frame + offset, size, free), {frame}) <==> offset + HEADER + size <= PAGE
  {
    if offset < PAGE {
      assert (frame + offset) % PAGE == offset;
    } else {
      assert FrameOf(Cell(frame + offset, size, free)) >= frame + PAGE;
    }
  }

  lemma BlocksInside(frame: nat, size: nat, freeBytes: nat)
    requires frame % PAGE == 0
    ensures (forall c :: c in Blocks(frame, size, freeBytes) ==> Inside(c, {frame})) <==>
            HEADER + size <= PAGE && (freeBytes > HEADER + MIN_ALLOC ==> size + HEADER + freeBytes <= PAGE)
  {
    var blocks := Blocks(frame, size, freeBytes);
    InsideAt(frame, 0, size, false);
    assert blocks[0] in blocks;
    if freeBytes > HEADER + MIN_ALLOC {
      InsideAt(frame, size + HEADER, freeBytes - HEADER, true);
      assert blocks[1] in blocks;
    }
    hide Inside;
  }

  /** Exactly these: from 2049 bytes on the remainder is the rest of the page, which the two headers exceed. */
  lemma FreshBlocksInside(frame: nat, size: nat)
    requires 0 < size <= PAGE && frame % PAGE == 0
    ensures (forall c :: c in FreshBlocks(frame, size) ==> Inside(c, {frame})) <==> FitsFrame(size)
  {
    BlocksInside(frame, size, PAGE % size);
    hide Inside, Blocks, FitsFrame;
    RemainderDecides(size);
  }

  lemma TakeCell(cells: seq<Cell>, k: nat, size: nat, i: nat)
    requires k < |cells| && cells[k].size >= size && i < |Take(cells, k, size)|
    ensures var c := Take(cells, k, size)[i];
            if !Splittable(cells[k], size) then i < |cells| && c.addr == cells[i].addr && c.size == cells[i].size
            else
              var was := cells[Before(k, i)];
              && was.addr <= c.addr && c.addr + HEADER + c.size <= was.addr + HEADER + was.size
              && (i == k ==> c.addr + HEADER + c.size == cells[k].addr + HEADER + size)
              && (i == k + 1 ==> c.addr == cells[k].addr + HEADER + size)
  {
    if Splittable(cells[k], size) {
      SplitCell(cells, k, size, i);
    }
  }

  lemma TakeKeepsInv(h: Heap, k: nat, size: nat)
    requires Inv(h) && k < |h.cells| && h.cells[k].size >= size
    ensures Inv(h.(cells := Take(h.cells, k, size)))
  {
    var cells := h.cells;
    var r := Take(cells, k, size);
    if Splittable(cells[k], size) { SplitCell(cells, k, size, k); }
    hide Take;
    forall i | 0 <= i < |r| ensures Inside(r[i], h.frames) {
      TakeCell(cells, k, size, i);
      WithinInside(if Splittable(cells[k], size) then cells[Before(k, i)] else cells[i], r[i], h.frames);
    }
    forall i, j | 0 <= i < j < |r| ensures Apart(r[i], r[j]) {
      TakeCell(cells, k, size, i);
      TakeCell(cells, k, size, j);
      if Splittable(cells[k], size) && !(i == k && j == k + 1) {
        assert Apart(cells[Before(k, i)], cells[Before(k, j)]);
      }
    }
  }

  lemma WithinInside(was: Cell, c: Cell, frames: set<nat>)
    requires Inside(was, frames) && was.addr <= c.addr && c.addr + HEADER + c.size <= was.addr + HEADER + was.size
    ensures Inside(c, frames)
  {
    var f := FrameOf(was);
    assert f <= c.addr < f + PAGE && f % PAGE == 0;
    assert c.addr % PAGE == c.addr - f;
  }

  /** Blocks in a fresh frame are apart from all others. */
  lemma FreshIsApart(h: Heap, frame: nat, c: Cell, d: Cell)
    requires Inside(c, h.frames) && Inside(d, {frame}) && frame !in h.frames
    ensures Apart(c, d)
  {
    var f := FrameOf(c);
    assert f % PAGE == 0 && FrameOf(d) == frame && frame % PAGE == 0;
    assert f + PAGE <= frame || frame + PAGE <= f;
  }

  /** Exactly when kmalloc keeps the invariant. */
  lemma KmallocKeepsInvIff(h: Heap, size: nat, frame: nat)
    requires Inv(h) && size <= PAGE && (FirstFit(h.cells, size) == |h.cells| ==> size > 0)
    requires frame % PAGE == 0 && frame > 0 && frame !in h.frames
    ensures Inv(AfterKmalloc(h, size, frame).0) <==> FirstFit(h.cells, size) < |h.cells| || FitsFrame(size)
  {
    hide Inv, Blocks, Inside, FitsFrame;
    var k := FirstFit(h.cells, size);
    if k < |h.cells| {
      TakeKeepsInv(h, k, size);
    } else {
      FreshBlocksInside(frame, size);
      RemainderDecides(size);
      ExpandKeepsInv(h, size, frame, PAGE % size);
    }
  }

  /** A first request of 2049 bytes puts a free block across the end of its frame. */
  lemma OutsideExample()
    ensures Inv(Heap([], {})) && AfterKmalloc(Heap([], {}), 2049, PAGE).1 == PAGE + HEADER
    ensures !Inv(AfterKmalloc(Heap([], {}), 2049, PAGE).0)
  {
    KmallocKeepsInvIff(Heap([], {}), 2049, PAGE);
  }

  lemma ExpandKeepsInv(h: Heap, size: nat, frame: nat, freeBytes: nat)
    requires Inv(h) && size <= PAGE && (freeBytes > HEADER + MIN_ALLOC ==> size + HEADER != PAGE)
    requires frame % PAGE == 0 && frame > 0 && frame !in h.frames
    ensures Inv(Heap(h.cells + Blocks(frame, size, freeBytes), h.frames + {frame})) <==>
            forall c :: c in Blocks(frame, size, freeBytes) ==> Inside(c, {frame})
  {
    var added := Blocks(frame, size, freeBytes);
    var h' := Heap(h.cells + added, h.frames + {frame});
    if forall c :: c in added ==> Inside(c, {frame}) {
      ExpandInside(h, added, frame);
    }
    if Inv(h') {
      forall c | c in added ensures Inside(c, {frame}) {
        var n := |h.cells|;
        var j :| 0 <= j < |added| && added[j] == c;
        assert h'.cells[n + j] == c && Inside(c, h'.frames);
        assert h'.cells[n] == added[0] && Inside(added[0], h'.frames);
        assert added[0].addr % PAGE == 0;
        FrameOfFresh(c, frame);
      }
    }
  }

  lemma ExpandInside(h: Heap, added: seq<Cell>, frame: nat)
    requires Inv(h) && Disjoint(added)
    requires frame % PAGE == 0 && frame > 0 && frame !in h.frames
    requires forall c :: c in added ==> Inside(c, {frame})
    ensures Inv(Heap(h.cells + added, h.frames + {frame}))
  {
    var n, cells' := |h.cells|, h.cells + added;
    forall i | 0 <= i < |cells'| ensures Inside(cells'[i], h.frames + {frame}) {
      assert i >= n ==> cells'[i] in added;
    }
    forall i, j | 0 <= i < j < |cells'| ensures Apart(cells'[i], cells'[j]) {
      if i < n && j >= n {
        assert cells'[j] in added;
        FreshIsApart(h, frame, cells'[i], cells'[j]);
      } else if i >= n {
        assert Apart(added[i - n], added[j - n]);
      } else {
        assert Apart(h.cells[i], h.cells[j]);
      }
    }
  }

  lemma FrameOfFresh(c: Cell, frame: nat)
    requires frame % PAGE == 0 && frame <= c.addr < frame + PAGE
    ensures FrameOf(c) == frame
  {
  }

  lemma KfreeKeepsInv(h: Heap, address: nat)
    requires Inv(h) && IndexOf(h.cells, address) < |h.cells|
    ensures Inv(AfterKfree(h, address))
  {
  }

  /** The block that kmalloc hands out is large enough and apart from all live ones, which stay as they are. */
  lemma KmallocIsFresh(h: Heap, size: nat, frame: nat)
    requires Inv(h) && size <= PAGE && (FirstFit(h.cells, size) == |h.cells| ==> FitsFrame(size) && size > 0)
    requires frame % PAGE == 0 && frame > 0 && frame !in h.frames
    ensures HandedOut(h.cells, AfterKmalloc(h, size, frame).0.cells, AfterKmalloc(h, size, frame).1, size)
  {
    hide Inv, FitsFrame, HandedOut, Disjoint, Take;
    KmallocKeepsInvIff(h, size, frame);
    InvDisjoint(AfterKmalloc(h, size, frame).0);
    var k := FirstFit(h.cells, size);
    if k < |h.cells| {
      TakeHandsOut(h.cells, k, size);
    } else {
      AppendHandsOut(h.cells, FreshBlocks(frame, size), size);
    }
  }

  /** kfree of an address leaves every live block at another address where it was. */
  lemma KfreeKeepsLive(h: Heap, address: nat, c: Cell)
    requires IndexOf(h.cells, address) < |h.cells|
    requires c in h.cells && !c.free && c.addr + HEADER != address
    ensures c in AfterKfree(h, address).cells
  {
    var k := IndexOf(h.cells, address);
    hide IndexOf;
    ReleaseKeepsLive(h.cells, k, c);
  }

  function Total(cells: seq<Cell>): nat {
    if cells == [] then 0 else Total(cells[..|cells| - 1]) + HEADER + cells[|cells| - 1].size
  }

  lemma {:induction false} TotalConcat(a: seq<Cell>, b: seq<Cell>)
    ensures Total(a + b) == Total(a) + Total(b)
  {
    if b == [] {
      assert a + b == a;
    } else {
      assert (a + b)[..|a + b| - 1] == a + b[..|b| - 1];
      TotalConcat(a, b[..|b| - 1]);
    }
  }

  /** A split neither loses nor invents bytes. */
  lemma SplitConserves(cells: seq<Cell>, k: nat, size: nat)
    requires k < |cells| && Splittable(cells[k], size)
    ensures Total(Split(cells, k, size)) == Total(cells)
  {
    var r := Split(cells, k, size);
    assert r == cells[..k] + [r[k]] + [r[k + 1]] + cells[k + 1..];
    assert cells == cells[..k] + [cells[k]] + cells[k + 1..];
    TotalConcat(cells[..k] + [r[k]] + [r[k + 1]], cells[k + 1..]);
    TotalConcat(cells[..k] + [r[k]], [r[k + 1]]);
    TotalConcat(cells[..k], [r[k]]);
    TotalConcat(cells[..k] + [cells[k]], cells[k + 1..]);
    TotalConcat(cells[..k], [cells[k]]);
    assert Total([r[k]]) == HEADER + size && Total([cells[k]]) == HEADER + cells[k].size;
  }

  // ---------------------------------------------------------------- what kmalloc and kfree do, on the heap before and after

  /** kmalloc takes the lowest free block that is large enough; else it starts a fresh frame with a block of the size requested, and
    a free one behind it of what dividing the page by the size leaves, less a header, if that is more than 4 bytes. */
  ghost predicate Allocates(h: Heap, size: nat, frame: nat, h': Heap, addr: nat) {
    && (size > 4096 ==> addr == NULL && h' == h)
    && (forall k: nat :: size <= 4096 && LowestFit(h.cells, k, size) ==>
          addr == h.cells[k].addr + 32 && Carved(h.cells, h'.cells, k, size) && h'.frames == h.frames)
    && (0 < size <= 4096 && NoFit(h.cells, size) ==>
          && addr == frame + 32 && h'.frames == h.frames + {frame}
          && var n, rest := |h.cells|, 4096 % size - 32;
             && |h'.cells| == (if rest > 4 then n + 2 else n + 1)
             && h'.cells[..n] == h.cells && h'.cells[n] == Cell(frame, size, false)
             && (rest > 4 ==> h'.cells[n + 1] == Cell(frame + 32 + size, rest, true)))
  }

  lemma KmallocAllocates(h: Heap, size: nat, frame: nat)
    requires FirstFit(h.cells, size) == |h.cells| ==> size > 0
    ensures Allocates(h, size, frame, AfterKmalloc(h, size, frame).0, AfterKmalloc(h, size, frame).1)
  {
    hide Take, Carved;
    var k := FirstFit(h.cells, size);
    if k < |h.cells| {
      TakeCarves(h.cells, k, size);
      assert h.cells[k].free && h.cells[k].size >= size;
      forall j: nat | LowestFit(h.cells, j, size) ensures j == k {
        FirstFitIs(h.cells, size, j);
      }
    }
  }

  /** kfree of listed block `k`: it becomes free where it is, or, as the last one, goes from the list. */
  ghost predicate Frees(h: Heap, k: nat, h': Heap) {
    && h'.frames == h.frames
    && if k + 1 < |h.cells| then MarkedFree(h.cells, h'.cells, k) else 0 < |h.cells| && h'.cells == h.cells[..|h.cells| - 1]
  }

  lemma KfreeFrees(h: Heap, k: nat)
    requires Inv(h) && k < |h.cells|
    ensures IndexOf(h.cells, h.cells[k].addr + 32) == k && Frees(h, k, AfterKfree(h, h.cells[k].addr + 32))
  {
    OneAddress(h.cells, IndexOf(h.cells, h.cells[k].addr + 32), k);
  }

  /** The rest of a fresh frame serves requests of at most its size without another frame. */
  lemma RestServes(h: Heap, size: nat, frame: nat, n: nat, other: nat)
    requires 0 < size <= PAGE && NoFit(h.cells, size) && 4096 % size > 36 && n <= 4096 % size - 32
    ensures var h' := AfterKmalloc(h, size, frame).0;
            && FirstFit(h'.cells, n) < |h'.cells| && AfterKmalloc(h', n, other).1 != NULL && AfterKmalloc(h', n, other).0.frames == h'.frames
  {
    KmallocAllocates(h, size, frame);
    var h' := AfterKmalloc(h, size, frame).0;
    assert h'.cells[|h.cells| + 1].free && h'.cells[|h.cells| + 1].size >= n;
    KmallocAllocates(h', n, other);
  }

  /** A block freed that is not the last one serves the next request of at most its size, or a lower one does. */
  lemma FreedIsReused(h: Heap, k: nat, n: nat, frame: nat)
    requires Inv(h) && k + 1 < |h.cells| && n <= h.cells[k].size && n <= PAGE
    ensures var h' := AfterKfree(h, h.cells[k].addr + 32);
            && FirstFit(h'.cells, n) <= k && AfterKmalloc(h', n, frame).0.frames == h.frames
  {
    KfreeFrees(h, k);
    var h' := AfterKfree(h, h.cells[k].addr + 32);
    hide Inv;
    assert h'.cells[k].free && h'.cells[k].size >= n;
  }

  // ---------------------------------------------------------------- runs

  datatype Call = Alloc(size: nat, frame: nat) | Release(address: nat)

  /** Requests of 1 to 2048 bytes with a frame that is new to the heap, and releases of listed blocks. */
  predicate Allowed(h: Heap, call: Call) {
    match call
    case Alloc(size, frame) => 0 < size <= 2048 && frame % PAGE == 0 && frame > 0 && frame !in h.frames
    case Release(address) => IndexOf(h.cells, address) < |h.cells|
  }

  function Step(h: Heap, call: Call): Heap
    requires Allowed(h, call)
  {
    match call
    case Alloc(size, frame) => AfterKmalloc(h, size, frame).0
    case Release(address) => AfterKfree(h, address)
  }

  predicate Legal(h: Heap, calls: seq<Call>)
    decreases |calls|
  {
    calls == [] || (Allowed(h, calls[0]) && Legal(Step(h, calls[0]), calls[1..]))
  }

  function Run(h: Heap, calls: seq<Call>): Heap
    requires Legal(h, calls)
    decreases |calls|
  {
    if calls == [] then h else Run(Step(h, calls[0]), calls[1..])
  }

  /** In every run from the empty heap the blocks are pairwise apart and each inside one frame of the heap. */
  lemma {:induction false} RunKeepsInv(h: Heap, calls: seq<Call>)
    requires Inv(h) && Legal(h, calls)
    ensures Inv(Run(h, calls))
    decreases |calls|
  {
    hide Inv, AfterKmalloc, AfterKfree;
    if calls != [] {
      match calls[0] {
        case Alloc(size, frame) => KmallocKeepsInvIff(h, size, frame);
        case Release(address) => KfreeKeepsInv(h, address);
      }
      RunKeepsInv(Step(h, calls[0]), calls[1..]);
    }
  }

  /** A block handed out stays listed, as it was, until its own address is freed. */
  lemma {:induction false} RunKeepsLive(h: Heap, calls: seq<Call>, c: Cell)
    requires Inv(h) && Legal(h, calls) && c in h.cells && !c.free
    requires forall k :: 0 <= k < |calls| ==> calls[k] != Release(c.addr + HEADER)
    ensures c in Run(h, calls).cells
    decreases |calls|
  {
    hide Inv, AfterKmalloc, AfterKfree, HandedOut;
    if calls != [] {
      assert calls[0] != Release(c.addr + HEADER);
      match calls[0] {
        case Alloc(size, frame) =>
          KmallocKeepsInvIff(h, size, frame);
          KmallocIsFresh(h, size, frame);
          StaysListed(h.cells, AfterKmalloc(h, size, frame).0.cells, AfterKmalloc(h, size, frame).1, size, c);
        case Release(address) =>
          KfreeKeepsInv(h, address);
          KfreeKeepsLive(h, address, c);
      }
      RunKeepsLive(Step(h, calls[0]), calls[1..], c);
    }
  }

  lemma StaysListed(before: seq<Cell>, after: seq<Cell>, address: nat, size: nat, c: Cell)
    requires HandedOut(before, after, address, size) && c in before && !c.free
    ensures c in after
  {
  }

  // ---------------------------------------------------------------- the kernel's form

  class KernelHeap {
    const pmm: PMM.Pmm
    const list: BlockList
    ghost var frames: set<nat>

    constructor (pmm: PMM.Pmm)
      requires pmm.Valid()
      ensures this.pmm == pmm && fresh(list) && Valid() && Abs() == Heap([], {})
    {
      this.pmm, frames := pmm, {};
      list := new BlockList();
    }

    ghost function Abs(): Heap
      reads this, list
    {
      Heap(list.cells, frames)
    }

    /** The list is linked and no frame of the heap is free for others. */
    ghost predicate Sound()
      reads this, list, pmm, pmm.map_, pmm.stack
    {
      && pmm.Valid() && list.Valid()
      && forall f :: f in frames ==> f / PAGE !in pmm.FreeSet()
    }

    ghost predicate Valid()
      reads this, list, pmm, pmm.map_, pmm.stack
    {
      Sound() && Inv(Abs())
    }

    method Kmalloc(size: nat) returns (addr: nat, ghost frame: nat)
      requires Valid() && (FirstFit(list.cells, size) == |list.cells| ==> size > 0)
      requires size <= PAGE && FirstFit(list.cells, size) == |list.cells| ==> pmm.FreeSet() != {}
      modifies this, list, pmm`free, pmm`frames, pmm.map_
      ensures Sound() && (Valid() <==> size > PAGE || FirstFit(old(list.cells), size) < |old(list.cells)| || FitsFrame(size))
      ensures (Abs(), addr) == AfterKmalloc(old(Abs()), size, frame) && Allocates(old(Abs()), size, frame, Abs(), addr)
      ensures if size <= PAGE && FirstFit(old(list.cells), size) == |old(list.cells)|
              then frame / PAGE in old(pmm.FreeSet()) && pmm.FreeSet() == old(pmm.FreeSet()) - {frame / PAGE}
              else pmm.FreeSet() == old(pmm.FreeSet())
    {
      hide Inv, PMM.Inv, PMM.FreeFrames, Linked, Split;
      hide Allocates;
      frame := 0;
      ghost var h := Abs();
      if size > PAGE {
        KmallocAllocates(h, size, 0);
        return NULL, 0;
      }
      ghost var k := FirstFit(h.cells, size);
      LinkedFacts(list.base, list.header, list.cells, k);
      if list.base != NULL {
        var block, last := list.FindBlock(list.base, size);
        if block != NULL {
          TakeKeepsInv(h, k, size);
          assert Disjoint(list.cells) by { InvDisjoint(h); }
          list.HandOut(block, size, k);
          addr := block + HEADER;
        } else {
          addr, frame := ExpandHeap(last, size);
        }
      } else {
        addr, frame := ExpandHeap(NULL, size);
      }
      KmallocAllocates(h, size, frame);
    }

    method ExpandHeap(last: nat, size: nat) returns (addr: nat, ghost frame: nat)
      requires Valid() && 0 < size <= PAGE && pmm.FreeSet() != {}
      requires FirstFit(list.cells, size) == |list.cells| && last == Addr(list.cells, |list.cells| - 1)
      modifies this, list, pmm`free, pmm`frames, pmm.map_
      ensures Sound() && (Valid() <==> FitsFrame(size))
      ensures (Abs(), addr) == AfterKmalloc(old(Abs()), size, frame) && Allocates(old(Abs()), size, frame, Abs(), addr)
      ensures frame / PAGE in old(pmm.FreeSet()) && pmm.FreeSet() == old(pmm.FreeSet()) - {frame / PAGE}
    {
      hide Inv, PMM.Inv, PMM.FreeFrames, Linked, Allocates;
      ghost var h := Abs();
      var result := pmm.GetBlock();
      frame := result;
      assert frame % PAGE == 0 && frame > 0 && frame !in h.frames;
      KmallocKeepsInvIff(h, size, frame);
      KmallocAllocates(h, size, frame);
      FreshUnused(h, size, frame);
      frames := frames + {frame};
      list.Append(result, size, false, last);
      var freeBytes := PAGE % size;
      if freeBytes > HEADER + MIN_ALLOC && freeBytes < 4096 {
        list.Append(result + size + HEADER, freeBytes - HEADER, true, result);
      }
      assert list.cells == h.cells + FreshBlocks(frame, size);
      addr := result + HEADER;
    }

    /** Of a block that the heap handed out: the kernel dereferences NULL for any other address. */
    method Kfree(address: nat)
      requires Valid() && IndexOf(list.cells, address) < |list.cells|
      modifies list
      ensures Valid() && Abs() == AfterKfree(old(Abs()), address)
      ensures forall k :: 0 <= k < |old(list.cells)| && old(list.cells)[k].addr + 32 == address ==> Frees(old(Abs()), k, Abs())
    {
      hide Inv, PMM.Inv, PMM.FreeFrames, Linked;
      ghost var h := Abs();
      KfreeKeepsInv(h, address);
      ghost var k := IndexOf(list.cells, address);
      forall j | 0 <= j < |h.cells| && h.cells[j].addr + 32 == address ensures Frees(h, j, AfterKfree(h, address)) {
        KfreeFrees(h, j);
      }
      hide Frees;
      LinkedFacts(list.base, list.header, list.cells, k);
      var block := list.GetBlock(address);
      list.SetFree(block, true, k);
      LinkedFacts(list.base, list.header, list.cells, k);
      if list.header[block].next == NULL {
        list.RemoveLast(block);
      }
    }
  }

  lemma FreshUnused(h: Heap, size: nat, frame: nat)
    requires Inv(h) && 0 < size <= PAGE && frame % PAGE == 0 && frame !in h.frames
    ensures forall i :: 0 <= i < |h.cells| ==> h.cells[i].addr != frame
    ensures PAGE % size > HEADER + MIN_ALLOC ==> forall i :: 0 <= i < |h.cells| ==> h.cells[i].addr != frame + size + HEADER
  {
    RemainderDecides(size);
    forall i | 0 <= i < |h.cells|
      ensures !(frame <= h.cells[i].addr < frame + PAGE) {
      assert Inside(h.cells[i], h.frames);
      if frame <= h.cells[i].addr < frame + PAGE { FrameOfFresh(h.cells[i], frame); }
    }
  }
}
