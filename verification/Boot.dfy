/** Starting the virtual memory manager: the first tables, and the bitmap of page tables without an absent page. */
module Boot {
  import opened Common
  import opened PageTables
  import opened Ranges
  import opened Ownership
  import opened IdentityMap
  import VMM = Vmm
  import PMM = Pmm

  /** The tables of the first `n` pages that are full. */
  lemma FullTables(mem: Memory, root: nat, n: nat, p: nat)
    requires n <= PAGES && p < TABLES
    requires forall q :: 0 <= q < PAGES ==> Translate(mem, root, q) == if q < n then Some(q) else None
    ensures Full(mem, root, p) <==> p < n / ENTRIES
  {
    hide Translate;
    if p >= n / ENTRIES {
      assert Translate(mem, root, (p + 1) * ENTRIES - 1) == None;
    }
  }

  /** Bits below 4096 are right after clearing and marking; those above are as they were found. */
  lemma BootAgreement(mem: Memory, root: nat, n: nat, found: set<nat>, bits: set<nat>)
    requires n <= PAGES
    requires forall q :: 0 <= q < PAGES ==> Translate(mem, root, q) == if q < n then Some(q) else None
    requires forall p: nat :: p in bits <==> (p in found && p >= 4096) || p < n / ENTRIES
    ensures Agreement(mem, root, bits) <==> forall p: nat :: p in found && 4096 <= p < TABLES ==> p < n / ENTRIES
  {
    hide Translate, Full;
    forall p: nat | p < TABLES ensures Full(mem, root, p) <==> p < n / ENTRIES {
      FullTables(mem, root, n, p);
    }
  }

  method MarkBits(v: VMM.Vmm, from: nat, to: nat)
    modifies v`bitmap
    ensures forall p: nat :: p in v.bitmap <==> p in old(v.bitmap) || from <= p < to
  {
    var i := from;
    while i < to
      invariant from <= i && (i <= to || i == from)
      invariant forall p: nat :: p in v.bitmap <==> p in old(v.bitmap) || from <= p < i
    {
      v.PtComplete(i);
      i := i + 1;
    }
  }

  /** The first tables, and a frame for the bitmap, in which the bits of `found` happen to be set.  The loop that clears it stops
    at bit 4096, so the bitmap agrees with the tables exactly if no bit above was set for a table that is not full.  From here
    on every frame that was free, but that of the bitmap, is free or a table. */
  method Initialize(v: VMM.Vmm, n: nat, found: set<nat>) returns (bitmapFrame: nat)
    requires v.pmm.Valid() && |v.mem| == v.pmm.total && 0 < n <= INT_MAX
    requires (n + 511) / 512 + (n + 262143) / 262144 + (n + 134217727) / 134217728 + 2 <= |v.pmm.FreeSet()|
    modifies v`mem, v`cr3, v`tree, v`bitmap, v.pmm`free, v.pmm`frames, v.pmm.map_
    ensures v.Valid() && bitmapFrame in old(v.pmm.FreeSet())
    ensures forall q :: 0 <= q < PAGES ==> Translate(v.mem, v.cr3, q) == if q < n then Some(q) else None
    ensures forall q :: 0 <= q < PAGES ==> (NamedFrame(v.mem, v.cr3, q).Some? <==> q - q % ENTRIES < n)
    ensures AllPlain(v.mem, v.tree)
    ensures v.Agrees() <==> forall p: nat :: p in found && 4096 <= p < TABLES ==> p < n / ENTRIES
    ensures Partition(v.cr3, v.Snap(), {}, old(v.pmm.FreeSet()) - {bitmapFrame})
    ensures |v.pmm.FreeSet()| + (n + 511) / 512 + (n + 262143) / 262144 + (n + 134217727) / 134217728 + 2 == |old(v.pmm.FreeSet())|
  {
    hide PMM.Inv, PMM.FreeFrames, Translate, NamedFrame, WellFormed, Agreement, Partition, AllPlain;
    ghost var free0 := v.pmm.FreeSet();
    MapIdentity(v, n);
    OneLeft(v.pmm.FreeSet());
    bitmapFrame := TakeFrame(v, free0);
    ghost var s := v.Snap();
    v.bitmap := found;
    ClearBits(v, 4096);
    MarkBits(v, 0, n / ENTRIES);
    BootAgreement(v.mem, v.cr3, n, found, v.bitmap);
    assert v.Snap() == s;
  }

  lemma OneLeft(free: set<nat>)
    ensures |free| >= 1 ==> free != {}
  {
  }

  method ClearBits(v: VMM.Vmm, to: nat)
    modifies v`bitmap
    ensures forall p: nat :: p in v.bitmap <==> p in old(v.bitmap) && p >= to
  {
    var i := 0;
    while i < to
      invariant 0 <= i <= to
      invariant forall p: nat :: p in v.bitmap <==> p in old(v.bitmap) && p >= i
    {
      v.PtIncomplete(i);
      i := i + 1;
    }
  }

  /** The bitmap's frame, after the tables have taken theirs. */
  method TakeFrame(v: VMM.Vmm, ghost free0: set<nat>) returns (frame: nat)
    requires v.Valid() && v.pmm.FreeSet() != {} && v.pmm.FreeSet() <= free0
    requires v.tree.Values == free0 - v.pmm.FreeSet()
    modifies v.pmm`free, v.pmm`frames, v.pmm.map_
    ensures v.Valid() && frame in free0 && |v.pmm.FreeSet()| == |old(v.pmm.FreeSet())| - 1
    ensures Partition(v.cr3, v.Snap(), {}, free0 - {frame})
  {
    hide PMM.Inv, PMM.FreeFrames, WellFormed, Partition;
    ghost var free1 := v.pmm.FreeSet();
    var addr := v.pmm.GetBlock();
    frame := addr / PMM.BLOCK_SIZE;
    FreeOrTable(free0, free1, v.pmm.FreeSet(), v.tree.Values, frame);
    PartitionAtStart(v.cr3, v.mem, v.tree.Keys, free0 - {frame}, v.pmm.FreeSet(), v.tree.Values);
  }

  lemma FreeOrTable(free0: set<nat>, free1: set<nat>, free: set<nat>, tables: set<nat>, frame: nat)
    requires free1 <= free0 && tables == free0 - free1 && frame in free1 && free == free1 - {frame}
    ensures free <= free0 - {frame} && tables == (free0 - {frame}) - free
  {
  }
}
