/** The doubly linked block list that both heaps keep in the memory they manage: a header of 32 bytes before
  every payload, searched first-fit and split in two when enough is left over.

  `Cell`s are the blocks in list order; `BlockList` is the list itself, headers in memory and links between them.
 */
module BlockList {
  const HEADER: nat := 32     // BLOCK_SIZE, sizeof(block)
  const MIN_ALLOC: nat := 4
  const NULL: nat := 0

  datatype Cell = Cell(addr: nat, size: nat, free: bool)

  /** The index of the first free block of at least `size` bytes, or the length of the list. */
  function FirstFit(cells: seq<Cell>, size: nat): (k: nat)
    ensures k <= |cells|
    ensures k < |cells| ==> cells[k].free && cells[k].size >= size
    ensures forall i :: 0 <= i < k ==> !(cells[i].free && cells[i].size >= size)
  {
    if cells == [] then 0
    else if cells[0].free && cells[0].size >= size then 0
    else 1 + FirstFit(cells[1..], size)
  }

  lemma FirstFitIs(cells: seq<Cell>, size: nat, k: nat)
    requires k <= |cells|
    requires k < |cells| ==> cells[k].free && cells[k].size >= size
    requires forall i :: 0 <= i < k ==> !(cells[i].free && cells[i].size >= size)
    ensures FirstFit(cells, size) == k
  {
  }

  /** The index of the block whose payload starts at `address`, or the length of the list. */
  function IndexOf(cells: seq<Cell>, address: nat): (k: nat)
    ensures k <= |cells|
    ensures k < |cells| ==> cells[k].addr + HEADER == address
    ensures forall i :: 0 <= i < k ==> cells[i].addr + HEADER != address
  {
    if cells == [] then 0
    else if cells[0].addr + HEADER == address then 0
    else 1 + IndexOf(cells[1..], address)
  }

  lemma IndexOfIs(cells: seq<Cell>, address: nat, k: nat)
    requires k <= |cells|
    requires k < |cells| ==> cells[k].addr + HEADER == address
    requires forall i :: 0 <= i < k ==> cells[i].addr + HEADER != address
    ensures IndexOf(cells, address) == k
  {
  }

  predicate Splittable(c: Cell, size: nat) {
    c.size >= size && c.size - size >= HEADER + MIN_ALLOC
  }

  /** The list after block `k` was cut to `size`, the rest becoming a free block behind it. */
  function Split(cells: seq<Cell>, k: nat, size: nat): seq<Cell>
    requires k < |cells| && Splittable(cells[k], size)
  {
    var c := cells[k];
    cells[..k] + [Cell(c.addr, size, c.free), Cell(c.addr + HEADER + size, c.size - size - HEADER, true)] + cells[k + 1..]
  }

  /** The list after block `k` was handed out for a request of `size` bytes. */
  function Take(cells: seq<Cell>, k: nat, size: nat): (r: seq<Cell>)
    requires k < |cells|
    ensures k < |r|
  {
    var cut := if Splittable(cells[k], size) then Split(cells, k, size) else cells;
    cut[k := cut[k].(free := false)]
  }

  datatype Block = Block(size: nat, next: nat, prev: nat, free: bool)

  /** The address of block `i`, NULL outside the list. */
  function Addr(cells: seq<Cell>, i: int): nat {
    if 0 <= i < |cells| then cells[i].addr else NULL
  }

  function BlockAt(cells: seq<Cell>, i: nat): Block
    requires i < |cells|
  {
    Block(cells[i].size, Addr(cells, i + 1), Addr(cells, i - 1), cells[i].free)
  }

  ghost predicate BlockOk(header: map<nat, Block>, cells: seq<Cell>, i: nat)
    requires i < |cells|
  {
    var a := cells[i].addr;
    a != NULL && a in header && header[a] == BlockAt(cells, i)
  }

  /** The headers in memory link exactly the blocks of `cells`, forwards and backwards. */
  ghost predicate Linked(base: nat, header: map<nat, Block>, cells: seq<Cell>) {
    && base == Addr(cells, 0)
    && (forall i :: 0 <= i < |cells| ==> BlockOk(header, cells, i))
    && (forall i, j :: 0 <= i < j < |cells| ==> cells[i].addr != cells[j].addr)
  }

  /** The index in the list before a split of the block at `i` after it. */
  function Before(k: nat, i: nat): nat {
    if i <= k then i else i - 1
  }

  lemma SplitCell(cells: seq<Cell>, k: nat, size: nat, i: nat)
    requires k < |cells| && Splittable(cells[k], size) && i <= |cells|
    ensures |Split(cells, k, size)| == |cells| + 1
    ensures Split(cells, k, size)[i]
            == if i == k then Cell(cells[k].addr, size, cells[k].free)
               else if i == k + 1 then Cell(cells[k].addr + HEADER + size, cells[k].size - size - HEADER, true)
               else cells[Before(k, i)]
  {
  }

  /** The headers after the writes of a split. */
  ghost predicate SplitHeaders(header: map<nat, Block>, header': map<nat, Block>, cells: seq<Cell>, k: nat, size: nat)
    requires k < |cells| && Splittable(cells[k], size)
  {
    var b, rest, next := cells[k].addr, cells[k].addr + HEADER + size, Addr(cells, k + 1);
    && header.Keys <= header'.Keys && b in header
    && rest in header' && header'[rest] == Block(cells[k].size - size - HEADER, next, b, true)
    && header'[b] == header[b].(next := rest, size := size)
    && (k + 1 < |cells| ==> next in header && header'[next] == header[next].(prev := rest))
    && forall a :: a in header && a != rest && a != b && a != next ==> header'[a] == header[a]
  }

  lemma SplitAddr(cells: seq<Cell>, k: nat, size: nat, i: int)
    requires k < |cells| && Splittable(cells[k], size)
    ensures Addr(Split(cells, k, size), i)
            == if i <= k then Addr(cells, i) else if i == k + 1 then cells[k].addr + HEADER + size else Addr(cells, i - 1)
  {
  }

  lemma SplitBlockOk(base: nat, header: map<nat, Block>, header': map<nat, Block>, cells: seq<Cell>, k: nat, size: nat, i: nat)
    requires Linked(base, header, cells) && k < |cells| && Splittable(cells[k], size) && i <= |cells|
    requires forall i :: 0 <= i < |cells| ==> cells[i].addr != cells[k].addr + HEADER + size
    requires SplitHeaders(header, header', cells, k, size)
    ensures BlockOk(header', Split(cells, k, size), i)
  {
    SplitCell(cells, k, size, i);
    SplitAddr(cells, k, size, i - 1);
    SplitAddr(cells, k, size, i + 1);
    hide Split;
    assert BlockOk(header, cells, k);
    if i < k {
      assert BlockOk(header, cells, i);
    } else if i > k + 1 {
      assert BlockOk(header, cells, i - 1);
    }
  }

  /** The four writes of a split leave the headers linked as the split list. */
  lemma SplitLinked(base: nat, header: map<nat, Block>, header': map<nat, Block>, cells: seq<Cell>, k: nat, size: nat)
    requires Linked(base, header, cells) && k < |cells| && Splittable(cells[k], size)
    requires forall i :: 0 <= i < |cells| ==> cells[i].addr != cells[k].addr + HEADER + size
    requires SplitHeaders(header, header', cells, k, size)
    ensures Linked(base, header', Split(cells, k, size))
  {
    var cells' := Split(cells, k, size);
    forall i | 0 <= i < |cells'| ensures BlockOk(header', cells', i) {
      SplitBlockOk(base, header, header', cells, k, size, i);
    }
    forall i, j | 0 <= i < j < |cells'| ensures cells'[i].addr != cells'[j].addr {
      hide Split, SplitHeaders;
      SplitCell(cells, k, size, i);
      SplitCell(cells, k, size, j);
    }
    SplitCell(cells, k, size, 0);
  }

  /** Two blocks, headers and payloads, do not overlap. */
  predicate Apart(c: Cell, d: Cell) {
    c.addr + HEADER + c.size <= d.addr || d.addr + HEADER + d.size <= c.addr
  }

  ghost predicate Disjoint(cells: seq<Cell>) {
    forall i, j :: 0 <= i < j < |cells| ==> Apart(cells[i], cells[j])
  }

  /** Two listed blocks have two addresses. */
  lemma OneAddress(cells: seq<Cell>, i: nat, j: nat)
    requires Disjoint(cells) && i < |cells| && j < |cells| && cells[i].addr == cells[j].addr
    ensures i == j
  {
    assert forall i, j :: 0 <= i < j < |cells| ==> Apart(cells[i], cells[j]);
  }

  /** The header of the block that a split cuts off does not fall on a header in use. */
  lemma RestUnused(cells: seq<Cell>, k: nat, size: nat)
    requires Disjoint(cells) && k < |cells| && Splittable(cells[k], size)
    ensures forall i :: 0 <= i < |cells| ==> cells[i].addr != cells[k].addr + HEADER + size
  {
    forall i | 0 <= i < |cells| ensures cells[i].addr != cells[k].addr + HEADER + size {
      assert i < k ==> Apart(cells[i], cells[k]);
      assert k < i ==> Apart(cells[k], cells[i]);
    }
  }

  lemma LinkedFacts(base: nat, header: map<nat, Block>, cells: seq<Cell>, k: nat)
    requires Linked(base, header, cells)
    ensures base == Addr(cells, 0) && (cells != [] ==> BlockOk(header, cells, 0))
    ensures k < |cells| ==> BlockOk(header, cells, k)
    ensures k + 1 < |cells| ==> BlockOk(header, cells, k + 1)
  {
  }

  lemma TakeLive(cells: seq<Cell>, k: nat, size: nat)
    requires k < |cells| && cells[k].size >= size
    ensures var c := Take(cells, k, size)[k]; c.addr == cells[k].addr && !c.free && c.size >= size
  {
    if Splittable(cells[k], size) {
      SplitCell(cells, k, size, k);
    }
  }

  /** Block `k` is the lowest free one of at least `size` bytes. */
  ghost predicate LowestFit(cells: seq<Cell>, k: nat, size: nat) {
    && k < |cells| && cells[k].free && cells[k].size >= size
    && forall i :: 0 <= i < k ==> !(cells[i].free && cells[i].size >= size)
  }

  /** No free block has as many bytes. */
  ghost predicate NoFit(cells: seq<Cell>, size: nat) {
    forall i :: 0 <= i < |cells| ==> !(cells[i].free && cells[i].size >= size)
  }

  /** Block `k` is in use for a request of `size` bytes: cut to exactly that size, with the rest less a header listed free right
    behind it, if that leaves 36 bytes or more, and else with the size it had.  No other block changed. */
  ghost predicate Carved(before: seq<Cell>, after: seq<Cell>, k: nat, size: nat) {
    && k < |before| && size <= before[k].size
    && var c, rest := before[k], before[k].size - size;
       && |after| == (if rest >= 36 then |before| + 1 else |before|)
       && after[k] == Cell(c.addr, if rest >= 36 then size else c.size, false)
       && (rest >= 36 ==> after[k + 1] == Cell(c.addr + 32 + size, rest - 32, true))
       && (forall i :: 0 <= i < k ==> after[i] == before[i])
       && (forall i :: k < i < |before| ==> after[if rest >= 36 then i + 1 else i] == before[i])
  }

  lemma TakeCarves(cells: seq<Cell>, k: nat, size: nat)
    requires k < |cells| && size <= cells[k].size
    ensures Carved(cells, Take(cells, k, size), k, size)
  {
    var r := Take(cells, k, size);
    if Splittable(cells[k], size) {
      forall i | 0 <= i < |cells| && i != k ensures r[if i < k then i else i + 1] == cells[i] {
        SplitCell(cells, k, size, if i < k then i else i + 1);
      }
      SplitCell(cells, k, size, k);
      SplitCell(cells, k, size, k + 1);
    }
  }

  /** Block `k` is free, as large as it was, and no other block changed. */
  ghost predicate MarkedFree(before: seq<Cell>, after: seq<Cell>, k: nat) {
    && k < |before| == |after| && after[k] == Cell(before[k].addr, before[k].size, true)
    && forall i :: 0 <= i < |before| && i != k ==> after[i] == before[i]
  }

  /** Handing out a free block leaves every block that was live where it was. */
  lemma TakeKeepsLive(cells: seq<Cell>, k: nat, size: nat, c: Cell)
    requires k < |cells| && cells[k].free && cells[k].size >= size
    requires c in cells && !c.free
    ensures exists i :: 0 <= i < |Take(cells, k, size)| && i != k && Take(cells, k, size)[i] == c
  {
    var i :| 0 <= i < |cells| && cells[i] == c;
    var r := Take(cells, k, size);
    if Splittable(cells[k], size) {
      SplitCell(cells, k, size, if i < k then i else i + 1);
    }
    assert r[if Splittable(cells[k], size) && i > k then i + 1 else i] == c;
  }

  /** What a request of `size` bytes gets: a listed block of that size or more, in use, apart from every block that was live;
    and all blocks that were live are still listed, as they were. */
  ghost predicate HandedOut(before: seq<Cell>, after: seq<Cell>, address: nat, size: nat) {
    exists k :: 0 <= k < |after| && after[k].addr + HEADER == address && !after[k].free && after[k].size >= size
      && forall c :: c in before && !c.free ==> c in after && Apart(c, after[k])
  }

  lemma TakeHandsOut(cells: seq<Cell>, k: nat, size: nat)
    requires k < |cells| && cells[k].free && cells[k].size >= size && Disjoint(Take(cells, k, size))
    ensures HandedOut(cells, Take(cells, k, size), cells[k].addr + HEADER, size)
  {
    var r := Take(cells, k, size);
    TakeLive(cells, k, size);
    hide Take;
    forall c | c in cells && !c.free ensures c in r && Apart(c, r[k]) {
      TakeKeepsLive(cells, k, size, c);
      var i :| 0 <= i < |r| && i != k && r[i] == c;
      assert Apart(r[if i < k then i else k], r[if i < k then k else i]);
    }
  }

  lemma AppendHandsOut(cells: seq<Cell>, added: seq<Cell>, size: nat)
    requires added != [] && !added[0].free && added[0].size >= size && Disjoint(cells + added)
    ensures HandedOut(cells, cells + added, added[0].addr + HEADER, size)
  {
    var r, k := cells + added, |cells|;
    assert r[k] == added[0];
    forall c | c in cells && !c.free ensures c in r && Apart(c, r[k]) {
      var i :| 0 <= i < |cells| && cells[i] == c;
      assert r[i] == c;
    }
  }

  /** Freeing a block, or dropping it as the last one, leaves every other live block where it was. */
  lemma ReleaseKeepsLive(cells: seq<Cell>, k: nat, c: Cell)
    requires k < |cells| && c in cells && !c.free && c.addr != cells[k].addr
    ensures c in cells[k := cells[k].(free := true)]
    ensures k == |cells| - 1 ==> c in cells[..k]
  {
    var i :| 0 <= i < |cells| && cells[i] == c;
    assert cells[k := cells[k].(free := true)][i] == c;
    assert k == |cells| - 1 ==> cells[..k][i] == c;
  }

  class BlockList {
    var base: nat                  // base_addr
    var header: map<nat, Block>    // the headers in memory, by address
    ghost var cells: seq<Cell>

    ghost predicate Valid()
      reads this
    {
      Linked(base, header, cells)
    }

    constructor ()
      ensures Valid() && cells == []
    {
      base, header, cells := NULL, map[], [];
    }

    /** The first block that fits, or NULL; and the block before it. */
    method FindBlock(last0: nat, size: nat) returns (block: nat, last: nat)
      requires Valid()
      ensures var k := FirstFit(cells, size);
              block == Addr(cells, k) && last == (if k == 0 then last0 else Addr(cells, k - 1))
    {
      block, last := base, last0;
      ghost var k := 0;
      while block != NULL && !(header[block].free && header[block].size >= size)
        invariant 0 <= k <= |cells| && (k < |cells| ==> BlockOk(header, cells, k))
        invariant block == Addr(cells, k) && last == (if k == 0 then last0 else Addr(cells, k - 1))
        invariant forall i :: 0 <= i < k ==> !(cells[i].free && cells[i].size >= size)
        decreases |cells| - k
      {
        assert BlockOk(header, cells, k);
        last := block;
        block := header[block].next;
        k := k + 1;
      }
      assert k < |cells| ==> BlockOk(header, cells, k);
      FirstFitIs(cells, size, k);
    }

    /** The block whose payload starts at `address`, or NULL. */
    method GetBlock(address: nat) returns (block: nat)
      requires Valid()
      ensures block == Addr(cells, IndexOf(cells, address))
    {
      block := base;
      ghost var k := 0;
      while block != NULL
        invariant 0 <= k <= |cells| && (k < |cells| ==> BlockOk(header, cells, k))
        invariant block == Addr(cells, k)
        invariant forall i :: 0 <= i < k ==> cells[i].addr + HEADER != address
        decreases |cells| - k
      {
        if block + HEADER == address {
          IndexOfIs(cells, address, k);
          return;
        }
        assert BlockOk(header, cells, k);
        block := header[block].next;
        k := k + 1;
      }
      IndexOfIs(cells, address, k);
    }

    /** Cuts block `k`; the header of the rest goes where no listed block is. */
    method SplitBlock(b: nat, size: nat, ghost k: nat)
      requires Valid() && k < |cells| && b == Addr(cells, k) && Splittable(cells[k], size)
      requires forall i :: 0 <= i < |cells| ==> cells[i].addr != b + HEADER + size
      modifies this
      ensures Valid() && cells == Split(old(cells), k, size)
    {
      hide Split;
      assert BlockOk(header, cells, k);
      ghost var header0 := header;
      var was, rest := header[b], b + HEADER + size;
      header := header[rest := Block(was.size - size - HEADER, was.next, b, true)];
      header := header[b := was.(next := rest, size := size)];
      assert k + 1 < |cells| ==> BlockOk(header0, cells, k + 1);
      if was.next != NULL {
        header := header[was.next := header[was.next].(prev := rest)];
      }
      assert SplitHeaders(header0, header, cells, k, size);
      SplitLinked(base, header0, header, cells, k, size);
      cells := Split(cells, k, size);
    }

    /** Takes the block that was found, cutting off what is not needed. */
    method HandOut(block: nat, size: nat, ghost k: nat)
      requires Valid() && Disjoint(cells) && k < |cells| && block == Addr(cells, k) && cells[k].size >= size
      modifies this
      ensures Valid() && cells == Take(old(cells), k, size)
    {
      hide Linked, Split, Disjoint;
      LinkedFacts(base, header, cells, k);
      if header[block].size - size >= HEADER + MIN_ALLOC {
        RestUnused(cells, k, size);
        SplitCell(cells, k, size, k);
        SplitBlock(block, size, k);
      }
      SetFree(block, false, k);
    }

    /** Marks block `k`. */
    method SetFree(b: nat, free: bool, ghost k: nat)
      requires Valid() && k < |cells| && b == Addr(cells, k)
      modifies this
      ensures Valid() && cells == old(cells)[k := old(cells)[k].(free := free)]
    {
      assert BlockOk(header, cells, k);
      header := header[b := header[b].(free := free)];
      cells := cells[k := cells[k].(free := free)];
      forall i | 0 <= i < |cells|
        ensures BlockOk(header, cells, i) {
        assert BlockOk(old(header), old(cells), i);
      }
    }

    /** A new block behind the last.  The list stays a list unless its header falls on the header of a listed block. */
    method Append(result: nat, size: nat, free: bool, last: nat)
      requires Valid() && result != NULL && last == Addr(cells, |cells| - 1)
      modifies this
      ensures cells == old(cells) + [Cell(result, size, free)]
      ensures Valid() <==> forall i :: 0 <= i < |old(cells)| ==> old(cells)[i].addr != result
    {
      assert cells != [] ==> BlockOk(header, cells, |cells| - 1);
      header := header[result := Block(size, NULL, last, free)];
      if last != NULL {
        assert BlockOk(old(header), cells, |cells| - 1);
        header := header[last := header[last].(next := result)];
      } else {
        base := result;
      }
      cells := cells + [Cell(result, size, free)];
      if forall i :: 0 <= i < |old(cells)| ==> old(cells)[i].addr != result {
        forall i | 0 <= i < |cells|
          ensures BlockOk(header, cells, i) {
          if i < |cells| - 1 { assert BlockOk(old(header), old(cells), i); }
        }
      } else {
        var i :| 0 <= i < |old(cells)| && old(cells)[i].addr == result;
        assert cells[i].addr == cells[|cells| - 1].addr;
      }
    }

    /** Drops the last block from the list. */
    method RemoveLast(b: nat)
      requires Valid() && cells != [] && b == Addr(cells, |cells| - 1)
      modifies this
      ensures Valid() && cells == old(cells)[..|old(cells)| - 1]
    {
      assert BlockOk(header, cells, |cells| - 1);
      assert |cells| > 1 ==> BlockOk(header, cells, |cells| - 2);
      var prev := header[b].prev;
      if prev != NULL {
        assert BlockOk(header, cells, |cells| - 2);
        header := header[prev := header[prev].(next := NULL)];
      } else {
        base := NULL;
      }
      cells := cells[..|cells| - 1];
      forall i | 0 <= i < |cells|
        ensures BlockOk(header, cells, i) {
        assert BlockOk(old(header), old(cells), i);
      }
    }
  }
}
