/** The tables with which the kernel starts: page i is mapped to frame i, for the first N pages. */
module IdentityMap {
  import opened Common
  import opened Pte
  import opened PageTables
  import opened Entries
  import PMM = Pmm
  import VMM = Vmm

  const INT_MAX: nat := 2147483647

  function Min(a: nat, b: nat): nat {
    if a <= b then a else b
  }

  /** The tables up to `level` that have a page in [base, hi). */
  predicate Covers(p: Place, level: int, base: nat, hi: nat) {
    p.level <= 3 && p.level <= level && base <= First(p) < hi
  }

  /** Present and writeable and nothing else, or all zero. */
  predicate Plain(e: Entry) {
    if Present(e) then e.attrs == 0x3 else e == Entry(0, 0)
  }

  ghost predicate EntryOk(mem: Memory, t: Tree, p: Place, i: nat, hi: nat)
    requires p in t && p.level <= 3 && t[p] < |mem| && i < ENTRIES
  {
    var e := mem[t[p]][i];
    && Plain(e)
    && if p.level > 0 then Linked(mem, t, p, i)
       else (Present(e) <==> First(p) + i < hi) && (Present(e) ==> e.frame == First(p) + i)
  }

  /** `t` holds exactly the tables that map the pages of [base, hi), each page to the frame of its own number. */
  ghost predicate Forest(mem: Memory, t: Tree, level: int, base: nat, hi: nat) {
    && (forall p :: p in t <==> Covers(p, level, base, hi))
    && (forall p :: p in t ==> 0 < t[p] < |mem|)
    && Injective(t)
    && (forall p, i :: p in t && 0 <= i < ENTRIES ==> EntryOk(mem, t, p, i, hi))
  }

  /** How many tables of a level it takes to map `m` pages from an aligned page on: m / 512^(level+1), rounded up. */
  function TablesOf(level: int, m: nat): nat
    requires 0 <= level <= 3
  {
    match level
    case 0 => (m + 511) / 512
    case 1 => (m + 262143) / 262144
    case 2 => (m + 134217727) / 134217728
    case _ => (m + 68719476735) / 68719476736
  }

  /** The same for all levels up to `level`. */
  function FrameCount(level: int, m: nat): nat
    requires -1 <= level <= 3
  {
    if level == -1 then 0 else FrameCount(level - 1, m) + TablesOf(level, m)
  }

  lemma TablesOfAdds(level: int, upto: int, n: nat, b: nat)
    requires 0 <= level <= upto <= 2
    ensures TablesOf(level, At(upto + 1, n) + b) == TablesOf(level, At(upto + 1, n)) + TablesOf(level, b)
  {
    if level == 0 {
      Add512(if upto == 0 then n else if upto == 1 then 512 * n else 262144 * n, b);
    } else if level == 1 {
      Add262144(if upto == 1 then n else 512 * n, b);
    } else {
      Add134217728(n, b);
    }
  }

  lemma Add134217728(k: nat, b: nat)
    ensures (134217728 * k + b + 134217727) / 134217728 == (134217728 * k + 134217727) / 134217728 + (b + 134217727) / 134217728
  {
  }

  lemma Add512(k: nat, b: nat)
    ensures (512 * k + b + 511) / 512 == (512 * k + 511) / 512 + (b + 511) / 512
  {
  }

  lemma Add262144(k: nat, b: nat)
    ensures (262144 * k + b + 262143) / 262144 == (262144 * k + 262143) / 262144 + (b + 262143) / 262144
  {
  }

  /** Whole blocks of 512^(level+1) pages need their tables beside those of the rest. */
  lemma {:induction false} FrameCountAdds(level: int, upto: int, n: nat, b: nat)
    requires -1 <= level <= upto <= 2
    ensures FrameCount(level, At(upto + 1, n) + b) == FrameCount(level, At(upto + 1, n)) + FrameCount(level, b)
  {
    if level >= 0 {
      FrameCountAdds(level - 1, upto, n, b);
      TablesOfAdds(level, upto, n, b);
    }
  }

  lemma {:induction false} FrameCountMonotone(level: int, a: nat, b: nat)
    requires -1 <= level <= 3 && a <= b
    ensures FrameCount(level, a) <= FrameCount(level, b)
  {
    if level >= 0 {
      FrameCountMonotone(level - 1, a, b);
    }
  }

  lemma Cut(n: nat, k: nat, c: nat)
    requires n * c < k * c
    ensures (n + 1) * c <= k * c
  {
    assert (k - n) * c == k * c - n * c;
    assert n + 1 <= k;
  }

  /** A table that starts before an aligned page ends at or before it. */
  lemma EndsBefore(p: Place, level: int, m: nat)
    requires p.level <= level <= 3 && First(p) < At(level + 1, m)
    ensures At(p.level + 1, p.number + 1) <= At(level + 1, m)
  {
    var n := p.number;
    if p.level == 0 {
      Cut(n, if level == 0 then m else if level == 1 then m * 512 else if level == 2 then m * 262144 else m * 134217728, 512);
    } else if p.level == 1 {
      Cut(n, if level == 1 then m else if level == 2 then m * 512 else m * 262144, 262144);
    } else if p.level == 2 {
      Cut(n, if level == 2 then m else m * 512, 134217728);
    }
  }

  lemma ChildWithin(p: Place, i: nat)
    requires 0 < p.level <= 3 && i < ENTRIES
    ensures First(p) <= First(Child(p, i)) < At(p.level + 1, p.number + 1)
  {
  }

  lemma EntryOkJoins(mem1: Memory, mem2: Memory, t1: Tree, t2: Tree, level: int, base: nat, m: nat, hi: nat, p: Place, i: nat)
    requires -1 <= level <= 2 && base <= At(level + 1, m) <= hi && i < ENTRIES
    requires forall q :: q in t1 <==> Covers(q, level, base, At(level + 1, m))
    requires forall q :: q in t2 <==> Covers(q, level, At(level + 1, m), hi)
    requires p in t1 ==> p.level <= 3 && t1[p] < |mem1| && t1[p] < |mem2| && mem2[t1[p]] == mem1[t1[p]] && EntryOk(mem1, t1, p, i, At(level + 1, m))
    requires p in t2 ==> p.level <= 3 && t2[p] < |mem2| && EntryOk(mem2, t2, p, i, hi)
    requires p in t1 || p in t2
    ensures EntryOk(mem2, t1 + t2, p, i, hi)
  {
    if p in t1 {
      assert p !in t2;
      EndsBefore(p, level, m);
    }
    if p.level > 0 {
      ChildWithin(p, i);
    }
  }

  /** Two forests side by side, the first of them complete, are one. */
  lemma ForestJoins(mem1: Memory, mem2: Memory, t1: Tree, t2: Tree, level: int, base: nat, m: nat, hi: nat)
    requires -1 <= level <= 2 && base <= At(level + 1, m) <= hi
    requires Forest(mem1, t1, level, base, At(level + 1, m)) && Forest(mem2, t2, level, At(level + 1, m), hi)
    requires forall f :: f in t1.Values ==> f < |mem1| && f < |mem2| && mem2[f] == mem1[f]
    requires t1.Values !! t2.Values
    ensures Forest(mem2, t1 + t2, level, base, hi)
    ensures (t1 + t2).Values == t1.Values + t2.Values
  {
    hide EntryOk, At;
    var t := t1 + t2;
    TreesApart(t1, t2);
    UnionOfTrees(t1, t2);
    CoversJoin(level, base, At(level + 1, m), hi);
    forall p | p in t ensures 0 < t[p] < |mem2| && p.level <= 3 {
      assert p in t1 ==> t1[p] in t1.Values;
      assert Covers(p, level, base, hi);
    }
    forall p, i | p in t && 0 <= i < ENTRIES ensures EntryOk(mem2, t, p, i, hi) {
      assert p in t1 ==> t1[p] in t1.Values;
      EntryOkJoins(mem1, mem2, t1, t2, level, base, m, hi, p, i);
    }
  }

  lemma CoversJoin(level: int, base: nat, mid: nat, hi: nat)
    requires base <= mid <= hi
    ensures forall p :: Covers(p, level, base, hi) <==> Covers(p, level, base, mid) || Covers(p, level, mid, hi)
  {
    hide First;
  }

  lemma TreesApart(t1: Tree, t2: Tree)
    requires t1.Values !! t2.Values && forall p :: p in t1 ==> p !in t2
    requires Injective(t1) && Injective(t2)
    ensures Injective(t1 + t2)
  {
    var t := t1 + t2;
    forall p | p in t1 ensures t[p] == t1[p] && t1[p] in t1.Values {
    }
    forall p | p in t2 ensures t[p] == t2[p] && t2[p] in t2.Values {
    }
  }

  lemma UnionOfTrees(t1: Tree, t2: Tree)
    requires forall p :: p in t1 ==> p !in t2
    ensures (t1 + t2).Values == t1.Values + t2.Values
  {
    var t := t1 + t2;
    forall f | f in t1.Values + t2.Values ensures f in t.Values {
      if f in t1.Values { var p :| p in t1 && t1[p] == f; assert p in t && t[p] == f; }
      else { var p :| p in t2 && t2[p] == f; assert p in t && t[p] == f; }
    }
  }

  /** Entry `j` of the table `f` under construction: those before page `cur` point to their tables or pages. */
  ghost predicate RootEntry(e: Entry, t: Tree, level: nat, number: nat, j: nat, cur: nat)
    requires level <= 3
  {
    var n := number * ENTRIES + j;
    && Plain(e)
    && if At(level, n) < cur then
         && Present(e)
         && (if level == 0 then e.frame == n else Place(level - 1, n) in t && e.frame == t[Place(level - 1, n)])
       else !Present(e)
  }

  ghost predicate RootEntries(mem: Memory, t: Tree, f: nat, level: nat, number: nat, cur: nat)
    requires level <= 3 && f < |mem|
  {
    forall j :: 0 <= j < ENTRIES ==> RootEntry(mem[f][j], t, level, number, j, cur)
  }

  ghost predicate UnderConstruction(mem: Memory, t: Tree, f: nat, level: nat, number: nat, cur: nat) {
    && level <= 3 && 0 < f < |mem| && f !in t.Values
    && Forest(mem, t, level - 1, At(level + 1, number), cur)
    && RootEntries(mem, t, f, level, number, cur)
  }

  /** Another subtree and the entry that points to it. */
  lemma EntryAdded(mem1: Memory, mem2: Memory, t1: Tree, t2: Tree, f: nat, level: nat, number: nat, i: nat, cur: nat, e: Entry)
    requires level <= 3 && i < ENTRIES
    requires UnderConstruction(mem1, t1, f, level, number, At(level, number * ENTRIES + i))
    requires At(level, number * ENTRIES + i) < cur <= At(level, number * ENTRIES + i + 1)
    requires |mem2| == |mem1| && mem2[f] == mem1[f] && f !in t2.Values
    requires Forest(mem2, t2, level - 1, At(level, number * ENTRIES + i), cur)
    requires forall g :: g in t1.Values ==> g < |mem1| && mem2[g] == mem1[g]
    requires t1.Values !! t2.Values
    requires Present(e) && Plain(e)
    requires if level == 0 then e.frame == number * ENTRIES + i
             else Place(level - 1, number * ENTRIES + i) in t2 && e.frame == t2[Place(level - 1, number * ENTRIES + i)]
    ensures UnderConstruction(WriteEntry(mem2, f, i, e), t1 + t2, f, level, number, cur)
    ensures (t1 + t2).Values == t1.Values + t2.Values
  {
    hide At, Forest, RootEntries;
    var base := At(level + 1, number);
    var m := number * ENTRIES + i;
    StartsBefore(level, number, i);
    ForestJoins(mem1, mem2, t1, t2, level - 1, base, m, cur);
    ForestsApart(mem1, mem2, t1, t2, level - 1, base, At(level, m), cur);
    OtherFrames(mem2, WriteEntry(mem2, f, i, e), t1 + t2, level - 1, base, cur);
    RootEntryAdded(mem1, mem2, t1, t2, f, level, number, i, cur, e);
  }

  lemma StartsBefore(level: nat, number: nat, i: nat)
    requires level <= 3
    ensures At(level + 1, number) <= At(level, number * ENTRIES + i)
  {
  }

  lemma ForestsApart(mem1: Memory, mem2: Memory, t1: Tree, t2: Tree, level: int, base: nat, mid: nat, hi: nat)
    requires Forest(mem1, t1, level, base, mid) && Forest(mem2, t2, level, mid, hi)
    ensures forall p :: p in t1 ==> p !in t2
    ensures forall f :: f in t1.Values + t2.Values ==> f < |mem1| || f < |mem2|
  {
    hide EntryOk, First, Injective;
  }

  lemma RootEntryAdded(mem1: Memory, mem2: Memory, t1: Tree, t2: Tree, f: nat, level: nat, number: nat, i: nat, cur: nat, e: Entry)
    requires level <= 3 && f < |mem1| == |mem2| && mem2[f] == mem1[f] && i < ENTRIES
    requires RootEntries(mem1, t1, f, level, number, At(level, number * ENTRIES + i))
    requires At(level, number * ENTRIES + i) < cur <= At(level, number * ENTRIES + i + 1)
    requires forall p :: p in t1 ==> p !in t2
    requires Present(e) && Plain(e)
    requires if level == 0 then e.frame == number * ENTRIES + i
             else Place(level - 1, number * ENTRIES + i) in t2 && e.frame == t2[Place(level - 1, number * ENTRIES + i)]
    ensures RootEntries(WriteEntry(mem2, f, i, e), t1 + t2, f, level, number, cur)
  {
    var mem', t' := WriteEntry(mem2, f, i, e), t1 + t2;
    forall j | 0 <= j < ENTRIES ensures RootEntry(mem'[f][j], t', level, number, j, cur) {
      Order(level, number * ENTRIES + j, number * ENTRIES + i);
      Order(level, number * ENTRIES + i, number * ENTRIES + j);
      assert RootEntry(mem1[f][j], t1, level, number, j, At(level, number * ENTRIES + i));
    }
  }

  lemma Order(level: nat, a: nat, b: nat)
    requires level <= 4
    ensures a < b <==> At(level, a) < At(level, b)
    ensures b < a ==> At(level, b + 1) <= At(level, a)
  {
  }

  /** A forest does not notice changes in frames that are not its tables. */
  lemma OtherFrames(mem1: Memory, mem2: Memory, t: Tree, level: int, base: nat, hi: nat)
    requires Forest(mem1, t, level, base, hi) && |mem2| == |mem1|
    requires forall f :: f in t.Values ==> f < |mem1| && mem2[f] == mem1[f]
    ensures Forest(mem2, t, level, base, hi)
  {
    forall p | p in t ensures mem2[t[p]] == mem1[t[p]] {
      assert t[p] in t.Values;
    }
    forall p, i | p in t && 0 <= i < ENTRIES ensures EntryOk(mem2, t, p, i, hi) {
      assert EntryOk(mem1, t, p, i, hi);
    }
  }

  /** The finished table on top of its subtrees. */
  lemma TableDone(mem: Memory, t: Tree, f: nat, level: nat, number: nat, cur: nat)
    requires UnderConstruction(mem, t, f, level, number, cur)
    requires At(level + 1, number) < cur <= At(level + 1, number + 1)
    ensures Forest(mem, t[Place(level, number) := f], level, At(level + 1, number), cur)
  {
    hide At, First, EntryOk, RootEntry;
    var root := Place(level, number);
    var t' := t[root := f];
    CoversTable(level, level - 1, number, At(level + 1, number), cur);
    assert root !in t;
    forall p | p in t ensures t[p] in t.Values {
    }
    forall p, i | p in t' && 0 <= i < ENTRIES ensures EntryOk(mem, t', p, i, cur) {
      if p in t {
        assert EntryOk(mem, t, p, i, cur);
        OldEntryOk(mem, t, root, f, p, i, cur);
      } else {
        assert RootEntry(mem[f][i], t, level, number, i, cur);
        RootEntryOk(mem, t, root, f, i, cur);
      }
    }
  }

  /** What a table covers is the table itself and what is below it. */
  lemma CoversTable(level: nat, below: int, number: nat, base: nat, cur: nat)
    requires level <= 3 && below == level - 1 && base == At(level + 1, number) < cur <= At(level + 1, number + 1)
    ensures forall p :: Covers(p, level, base, cur) <==> p == Place(level, number) || Covers(p, below, base, cur)
  {
    forall p: Place | p.level == level ensures Covers(p, level, base, cur) <==> p.number == number {
      Order(level + 1, p.number, number);
      Order(level + 1, number, p.number);
    }
  }

  lemma OldEntryOk(mem: Memory, t: Tree, root: Place, f: nat, p: Place, i: nat, cur: nat)
    requires p in t && p.level < root.level <= 3 && t[p] < |mem| && f < |mem| && i < ENTRIES && EntryOk(mem, t, p, i, cur)
    ensures EntryOk(mem, t[root := f], p, i, cur)
  {
    hide First;
  }

  lemma RootEntryOk(mem: Memory, t: Tree, root: Place, f: nat, i: nat, cur: nat)
    requires root.level <= 3 && f < |mem| && i < ENTRIES && root !in t
    requires RootEntry(mem[f][i], t, root.level, root.number, i, cur)
    requires root.level > 0 ==> (Child(root, i) in t <==> Covers(Child(root, i), root.level - 1, At(root.level + 1, root.number), cur))
    ensures EntryOk(mem, t[root := f], root, i, cur)
  {
  }

  // ---------------------------------------------------------------- the kernel's recursion

  /** Memory, free frames and tables after part of the work: the tables are exactly the frames taken, nothing else changed. */
  ghost predicate TablesTaken(mem0: Memory, mem: Memory, free0: set<nat>, free: set<nat>, tables: set<nat>) {
    && |mem| == |mem0| && free <= free0 && tables == free0 - free
    && forall f :: 0 <= f < |mem| && f !in free0 ==> mem[f] == mem0[f]
  }

  /** Entry `i` of the `number`-th table of a level, counted over all tables of the level. */
  function Block(number: nat, i: nat): nat {
    number * 512 + i
  }

  /** The end of the block of pages that the table covers, or of the pages wanted. */
  function End(level: int, number: nat, needed: nat): nat
    requires -1 <= level <= 3
  {
    Min(needed, At(level + 1, number + 1))
  }

  /** The tables up to `level` that the pages of [base, cur) take. */
  function Used(level: int, base: nat, cur: nat): nat
    requires -1 <= level <= 3 && base <= cur
  {
    FrameCount(level, cur - base)
  }

  method IdentityPaging(v: VMM.Vmm, level: int, cur0: nat, needed: nat, ghost number: nat)
    returns (ok: bool, cur: nat, frame: nat, ghost t: Tree)
    requires -1 <= level <= 3 && v.pmm.Valid() && |v.mem| == v.pmm.total
    requires cur0 == At(level + 1, number) < needed <= INT_MAX
    requires cur0 <= End(level, number, needed) && Used(level, cur0, End(level, number, needed)) <= |v.pmm.FreeSet()|
    modifies v`mem, v.pmm`free, v.pmm`frames, v.pmm.map_
    ensures v.pmm.Valid() && |v.mem| == v.pmm.total && ok
    ensures cur == End(level, number, needed)
    ensures Forest(v.mem, t, level, cur0, cur)
    ensures if level == -1 then frame == cur0 else Place(level, number) in t && frame == t[Place(level, number)]
    ensures TablesTaken(old(v.mem), v.mem, old(v.pmm.FreeSet()), v.pmm.FreeSet(), t.Values)
    ensures cur0 < cur && |v.pmm.FreeSet()| == |old(v.pmm.FreeSet())| - Used(level, cur0, cur)
    decreases level + 1, 1
  {
    hide PMM.Inv, PMM.FreeFrames, Forest, Progress, Used, TablesTaken, At, End, Block;
    ghost var mem0, free0 := v.mem, v.pmm.FreeSet();
    AtBottom(level, number, needed);
    if level == -1 {
      NoTables(v.mem, cur0, cur0 + 1, v.pmm.FreeSet());
      t := map[];
      assert t.Values == {};
      return true, cur0 + 1, cur0, t;
    }
    TableNeeds(level, number, needed);
    var addr := v.pmm.GetBlock();
    var table := addr / PMM.BLOCK_SIZE;
    v.mem := v.mem[table := ZeroTable()];
    cur, t := cur0, map[];
    EmptyTable(mem0, v.mem, table, level, number, free0, v.pmm.FreeSet());
    var entry := 0;
    while entry < ENTRIES && cur < needed
      invariant entry <= ENTRIES && cur == Min(needed, At(level, Block(number, entry)))
      invariant v.pmm.Valid() && |v.mem| == v.pmm.total
      invariant Progress(mem0, v.mem, free0, v.pmm.FreeSet(), t, table, level, number, cur)
    {
      cur, t := AddEntry(v, level, cur, needed, number, entry, table, t, mem0, free0);
      entry := entry + 1;
    }
    LoopDone(level, number, entry, cur, needed);
    assert !(level == 3 && cur < needed);
    Finished(mem0, v.mem, free0, v.pmm.FreeSet(), t, table, level, number, cur, needed);
    t := t[Place(level, number) := table];
    return true, cur, table, t;
  }

  /** The body of the loop: one subtree, and the entry for it. */
  method AddEntry(v: VMM.Vmm, level: int, cur0: nat, needed: nat, ghost number: nat, entry: nat, table: nat, ghost t0: Tree,
                  ghost mem0: Memory, ghost free0: set<nat>)
    returns (cur: nat, ghost t: Tree)
    requires 0 <= level <= 3 && v.pmm.Valid() && |v.mem| == v.pmm.total
    requires entry < ENTRIES && cur0 < needed <= INT_MAX && cur0 == At(level, Block(number, entry))
    requires Progress(mem0, v.mem, free0, v.pmm.FreeSet(), t0, table, level, number, cur0)
    requires At(level + 1, number) <= End(level, number, needed)
    requires Used(level, At(level + 1, number), End(level, number, needed)) <= |free0|
    modifies v`mem, v.pmm`free, v.pmm`frames, v.pmm.map_
    ensures v.pmm.Valid() && |v.mem| == v.pmm.total
    ensures cur == Min(needed, At(level, Block(number, entry + 1)))
    ensures Progress(mem0, v.mem, free0, v.pmm.FreeSet(), t, table, level, number, cur)
    decreases level, 2
  {
    hide PMM.Inv, PMM.FreeFrames, Forest, Used, TablesTaken, At, Progress;
    ghost var mem1, free1 := v.mem, v.pmm.FreeSet();
    Budget(level, number, entry, needed);
    NextBlock(level, number, entry);
    ProgressFacts(mem0, mem1, free0, free1, t0, table, level, number, cur0);
    var ok, frame;
    ghost var t1;
    ok, cur, frame, t1 := IdentityPaging(v, level - 1, cur0, needed, Block(number, entry));
    var e := Entry(frame, MASK_PRESENT | 0x2);
    ProgressGrows(mem0, mem1, v.mem, free0, free1, v.pmm.FreeSet(), t0, t1, table, level, number, entry, cur, e);
    v.mem := WriteEntry(v.mem, table, entry, e);
    t := t0 + t1;
  }

  /** A table under construction, the tables below it so far, and the frames all of them took. */
  ghost predicate Progress(mem0: Memory, mem: Memory, free0: set<nat>, free: set<nat>, t: Tree, table: nat,
                           level: nat, number: nat, cur: nat) {
    && UnderConstruction(mem, t, table, level, number, cur)
    && TablesTaken(mem0, mem, free0, free, t.Values + {table})
    && At(level + 1, number) <= cur
    && |free| == |free0| - 1 - Used(level - 1, At(level + 1, number), cur)
  }

  lemma NextBlock(level: nat, number: nat, entry: nat)
    requires level <= 3
    ensures Block(number, entry) + 1 == Block(number, entry + 1)
    ensures At(0, Block(number, entry)) == Block(number, entry)
  {
  }

  lemma ProgressFacts(mem0: Memory, mem: Memory, free0: set<nat>, free: set<nat>, t: Tree, table: nat,
                      level: nat, number: nat, cur: nat)
    requires Progress(mem0, mem, free0, free, t, table, level, number, cur)
    ensures table < |mem| == |mem0| && At(level + 1, number) <= cur
    ensures |free| == |free0| - 1 - Used(level - 1, At(level + 1, number), cur)
  {
  }

  lemma ProgressGrows(mem0: Memory, mem1: Memory, mem2: Memory, free0: set<nat>, free1: set<nat>, free: set<nat>,
                      t0: Tree, t1: Tree, table: nat, level: nat, number: nat, entry: nat, cur: nat, e: Entry)
    requires level <= 3 && entry < ENTRIES && At(level, Block(number, entry)) < cur <= At(level, Block(number, entry + 1))
    requires Progress(mem0, mem1, free0, free1, t0, table, level, number, At(level, Block(number, entry)))
    requires Forest(mem2, t1, level - 1, At(level, Block(number, entry)), cur)
    requires TablesTaken(mem1, mem2, free1, free, t1.Values)
    requires |free| == |free1| - Used(level - 1, At(level, Block(number, entry)), cur)
    requires Present(e) && Plain(e)
    requires if level == 0 then e.frame == Block(number, entry)
             else Place(level - 1, Block(number, entry)) in t1 && e.frame == t1[Place(level - 1, Block(number, entry))]
    requires table < |mem2|
    ensures Progress(mem0, WriteEntry(mem2, table, entry, e), free0, free, t0 + t1, table, level, number, cur)
  {
    hide Forest, Used, TablesTaken, At, UnderConstruction;
    var cur0 := At(level, Block(number, entry));
    TakenSeparates(mem0, mem1, mem2, free0, free1, free, t0, t1, table, level, number, cur0);
    EntryAdded(mem1, mem2, t0, t1, table, level, number, entry, cur, e);
    TakenTogether(mem0, mem1, mem2, WriteEntry(mem2, table, entry, e), free0, free1, free, t0.Values, t1.Values, (t0 + t1).Values, table);
    BudgetUsed(level, number, entry, cur, cur0);
  }

  lemma NoTables(mem: Memory, base: nat, hi: nat, free: set<nat>)
    requires base <= hi
    ensures Forest(mem, map[], -1, base, hi)
    ensures TablesTaken(mem, mem, free, free, {})
    ensures Used(-1, base, hi) == 0
  {
  }

  lemma EmptyTable(mem0: Memory, mem: Memory, table: nat, level: nat, number: nat, free0: set<nat>, free: set<nat>)
    requires level <= 3 && 0 < table < |mem0| && mem == mem0[table := ZeroTable()]
    requires table in free0 && free == free0 - {table}
    ensures Progress(mem0, mem, free0, free, map[], table, level, number, At(level + 1, number))
  {
    var none: Tree := map[];
    assert none.Values == {} && none.Values + {table} == {table};
    FrameCountZero(level - 1);
  }

  lemma {:induction false} FrameCountZero(level: int)
    requires -1 <= level <= 3
    ensures FrameCount(level, 0) == 0
  {
    if level >= 0 { FrameCountZero(level - 1); }
  }

  lemma AtSplits(level: nat, number: nat, entry: nat)
    requires level <= 3 && entry < ENTRIES
    ensures At(level, Block(number, entry)) == At(level + 1, number) + At(level, entry)
    ensures At(level, Block(number, entry + 1)) <= At(level + 1, number + 1)
    ensures At(level, Block(number, entry)) < At(level, Block(number, entry + 1))
    ensures At(level + 1, number + 1) == At(level + 1, number) + At(level + 1, 1)
    ensures At(level, Block(number, 0)) == At(level + 1, number)
    ensures At(level, Block(number, ENTRIES)) == At(level + 1, number + 1)
  {
  }

  /** The frames that a table and its next subtree need are within those counted for the table. */
  lemma Budget(level: nat, number: nat, entry: nat, needed: nat)
    requires level <= 3 && entry < ENTRIES && At(level, Block(number, entry)) < needed
    ensures var base, start := At(level + 1, number), At(level, Block(number, entry));
            && base <= start
            && start <= End(level - 1, Block(number, entry), needed) <= End(level, number, needed)
            && Used(level, base, End(level, number, needed))
               >= 1 + Used(level - 1, base, start) + Used(level - 1, start, End(level - 1, Block(number, entry), needed))
  {
    AtSplits(level, number, entry);
    NextBlock(level, number, entry);
    BudgetOf(level, entry, At(level + 1, number), At(level, Block(number, entry)),
             End(level - 1, Block(number, entry), needed), End(level, number, needed));
  }

  lemma BudgetOf(level: nat, entry: nat, base: nat, start: nat, childEnd: nat, end: nat)
    requires level <= 3 && start == base + At(level, entry) && start < childEnd <= end <= base + At(level + 1, 1)
    ensures Used(level, base, end) >= 1 + Used(level - 1, base, start) + Used(level - 1, start, childEnd)
  {
    hide At, FrameCount;
    OneTable(level, end - base);
    FrameCountAdds(level - 1, level - 1, entry, childEnd - start);
    FrameCountMonotone(level - 1, childEnd - base, end - base);
    assert At(level, entry) + (childEnd - start) == childEnd - base;
    assert At(level, entry) == start - base;
  }

  lemma AtBottom(level: int, number: nat, needed: nat)
    requires -1 <= level <= 3 && At(level + 1, number) < needed
    ensures At(level + 1, number) < End(level, number, needed)
    ensures level == -1 ==> At(level + 1, number) + 1 == End(level, number, needed)
  {
  }

  /** A table of any level takes one frame beside those of the levels below. */
  lemma TableNeeds(level: nat, number: nat, needed: nat)
    requires level <= 3 && At(level + 1, number) < needed
    ensures At(level, Block(number, 0)) == At(level + 1, number) < End(level, number, needed)
    ensures Used(level, At(level + 1, number), End(level, number, needed))
            == 1 + Used(level - 1, At(level + 1, number), End(level, number, needed))
  {
    AtSplits(level, number, 0);
    hide At, FrameCount;
    OneTable(level, End(level, number, needed) - At(level + 1, number));
  }

  /** After the loop the block is finished; for the top level that is everything, so one PML4 is always enough. */
  lemma LoopDone(level: nat, number: nat, entry: nat, cur: nat, needed: nat)
    requires level <= 3 && entry <= ENTRIES && cur == Min(needed, At(level, Block(number, entry)))
    requires entry == ENTRIES || cur == needed
    requires needed <= INT_MAX
    ensures cur == End(level, number, needed)
    ensures level == 3 ==> cur == needed
  {
    if entry < ENTRIES { AtSplits(level, number, entry); } else { AtSplits(level, number, 0); }
    assert At(4, number + 1) > INT_MAX;
  }

  lemma OneTable(level: nat, m: nat)
    requires level <= 3 && 0 < m <= At(level + 1, 1)
    ensures FrameCount(level, m) == 1 + FrameCount(level - 1, m)
  {
  }

  lemma BudgetUsed(level: nat, number: nat, entry: nat, cur: nat, cur0: nat)
    requires level <= 3 && entry < ENTRIES && cur0 == At(level, Block(number, entry)) <= cur
    ensures At(level + 1, number) <= cur0
    ensures Used(level - 1, At(level + 1, number), cur) == Used(level - 1, At(level + 1, number), cur0) + Used(level - 1, cur0, cur)
  {
    AtSplits(level, number, entry);
    hide At, FrameCount;
    FrameCountAdds(level - 1, level - 1, entry, cur - cur0);
  }

  /** What one subtree takes is apart from what the table and its earlier subtrees took. */
  lemma TakenSeparates(mem0: Memory, mem1: Memory, mem2: Memory, free0: set<nat>, free1: set<nat>, free2: set<nat>,
                       t0: Tree, t1: Tree, table: nat, level: nat, number: nat, cur: nat)
    requires TablesTaken(mem0, mem1, free0, free1, t0.Values + {table}) && TablesTaken(mem1, mem2, free1, free2, t1.Values)
    requires UnderConstruction(mem1, t0, table, level, number, cur)
    ensures |mem2| == |mem1| && table < |mem1| && mem2[table] == mem1[table] && table !in t1.Values
    ensures forall g :: g in t0.Values ==> g < |mem1| && mem2[g] == mem1[g]
    ensures t0.Values !! t1.Values
  {
    forall g | g in t0.Values ensures g < |mem1| && g !in free1 {
      var p :| p in t0 && t0[p] == g;
    }
  }

  lemma TakenTogether(mem0: Memory, mem1: Memory, mem2: Memory, mem: Memory, free0: set<nat>, free1: set<nat>, free: set<nat>,
                      v0: set<nat>, v1: set<nat>, v: set<nat>, table: nat)
    requires TablesTaken(mem0, mem1, free0, free1, v0 + {table}) && TablesTaken(mem1, mem2, free1, free, v1)
    requires |mem| == |mem2| && v == v0 + v1
    requires forall f :: 0 <= f < |mem| && f != table ==> mem[f] == mem2[f]
    ensures TablesTaken(mem0, mem, free0, free, v + {table})
  {
    assert free0 - free == (free0 - free1) + (free1 - free);
  }

  lemma Finished(mem0: Memory, mem: Memory, free0: set<nat>, free: set<nat>, t: Tree, table: nat,
                 level: nat, number: nat, cur: nat, needed: nat)
    requires level <= 3 && At(level + 1, number) < needed && cur == End(level, number, needed)
    requires Progress(mem0, mem, free0, free, t, table, level, number, cur)
    ensures Forest(mem, t[Place(level, number) := table], level, At(level + 1, number), cur)
    ensures TablesTaken(mem0, mem, free0, free, t[Place(level, number) := table].Values)
    ensures At(level + 1, number) < cur && |free| == |free0| - Used(level, At(level + 1, number), cur) && |mem| == |mem0|
  {
    TableNeeds(level, number, needed);
    TableDone(mem, t, table, level, number, cur);
    assert Place(level, number) !in t;
    AddValue(t, Place(level, number), table);
  }

  ghost predicate AllPlain(mem: Memory, t: Tree) {
    forall p, i :: p in t && 0 <= i < ENTRIES ==> Plain(EntryAt(mem, t, p, i))
  }

  /** The finished four-level tree: page i goes to frame i below `n`, nowhere from `n` on. */
  lemma ForestTranslates(mem: Memory, t: Tree, n: nat)
    requires 0 < n <= PAGES && Forest(mem, t, 3, 0, n)
    ensures ROOT in t && WellFormed(mem, t[ROOT], t)
    ensures forall q :: 0 <= q < PAGES ==> Translate(mem, t[ROOT], q) == if q < n then Some(q) else None
    ensures forall q :: 0 <= q < PAGES ==> (NamedFrame(mem, t[ROOT], q).Some? <==> q - q % ENTRIES < n)
  {
    assert Covers(ROOT, 3, 0, n);
    forall p | p in t ensures (p.level == 3 ==> p == ROOT) && (p.level < 3 ==> Parent(p) in t) {
      assert Covers(p, 3, 0, n);
      if p.level < 3 { ParentFirst(p); }
    }
    forall p, i | p in t && 0 < p.level && 0 <= i < ENTRIES ensures Linked(mem, t, p, i) {
      assert EntryOk(mem, t, p, i, n);
    }
    assert WellFormed(mem, t[ROOT], t);
    forall q | 0 <= q < PAGES
      ensures Translate(mem, t[ROOT], q) == if q < n then Some(q) else None
      ensures NamedFrame(mem, t[ROOT], q).Some? <==> q - q % ENTRIES < n
    {
      LeafTranslates(mem, t, n, q);
    }
  }

  lemma ForestPlain(mem: Memory, t: Tree, n: nat)
    requires Forest(mem, t, 3, 0, n)
    ensures AllPlain(mem, t)
  {
    hide First, Plain;
    forall p, i | p in t && 0 <= i < ENTRIES ensures Plain(EntryAt(mem, t, p, i)) {
      assert Covers(p, 3, 0, n) && EntryOk(mem, t, p, i, n);
    }
  }

  lemma LeafTranslates(mem: Memory, t: Tree, n: nat, q: nat)
    requires 0 < n <= PAGES && q < PAGES && Forest(mem, t, 3, 0, n)
    requires ROOT in t && WellFormed(mem, t[ROOT], t)
    ensures Translate(mem, t[ROOT], q) == if q < n then Some(q) else None
    ensures NamedFrame(mem, t[ROOT], q).Some? <==> q - q % ENTRIES < n
  {
    TranslateMeans(mem, t[ROOT], t, q);
    var leaf := On(q, 0);
    assert leaf in t <==> Covers(leaf, 3, 0, n);
    assert First(leaf) + q % ENTRIES == q;
    if leaf in t {
      assert EntryOk(mem, t, leaf, q % ENTRIES, n);
    }
  }

  lemma ParentFirst(p: Place)
    requires p.level < 3
    ensures First(Parent(p)) <= First(p)
  {
  }

  /** All levels together. */
  lemma AllTables(n: nat)
    requires 0 < n <= INT_MAX
    ensures FrameCount(3, n) == (n + 511) / 512 + (n + 262143) / 262144 + (n + 134217727) / 134217728 + 1
    ensures End(3, 0, n) == n && Used(3, 0, n) == FrameCount(3, n) && At(4, 0) == 0
  {
    assert FrameCount(0, n) == TablesOf(0, n);
    assert FrameCount(1, n) == TablesOf(0, n) + TablesOf(1, n);
    assert FrameCount(2, n) == FrameCount(1, n) + TablesOf(2, n);
  }

  /** `vmm_initialize` up to the new CR3: after it pages below `n` translate to themselves and no other page is mapped, nor has a
    page table unless it shares one with them.
    It takes one root, and one table of each lower level for every 512^k pages begun. */
  method MapIdentity(v: VMM.Vmm, n: nat)
    requires v.pmm.Valid() && |v.mem| == v.pmm.total && 0 < n <= INT_MAX
    requires (n + 511) / 512 + (n + 262143) / 262144 + (n + 134217727) / 134217728 + 1 <= |v.pmm.FreeSet()|
    modifies v`mem, v`cr3, v`tree, v.pmm`free, v.pmm`frames, v.pmm.map_
    ensures v.Valid()
    ensures forall q :: 0 <= q < PAGES ==> Translate(v.mem, v.cr3, q) == if q < n then Some(q) else None
    ensures forall q :: 0 <= q < PAGES ==> (NamedFrame(v.mem, v.cr3, q).Some? <==> q - q % ENTRIES < n)
    ensures AllPlain(v.mem, v.tree)
    ensures v.pmm.FreeSet() <= old(v.pmm.FreeSet()) && v.tree.Values == old(v.pmm.FreeSet()) - v.pmm.FreeSet()
    ensures |v.pmm.FreeSet()| + (n + 511) / 512 + (n + 262143) / 262144 + (n + 134217727) / 134217728 + 1
            == |old(v.pmm.FreeSet())|
  {
    AllTables(n);
    hide PMM.Inv, PMM.FreeFrames, Forest, Translate, NamedFrame, WellFormed, AllPlain, FrameCount, Used, End, At, TablesOf;
    var ok, cur, root;
    ghost var t;
    ok, cur, root, t := IdentityPaging(v, 3, 0, n, 0);
    v.cr3, v.tree := root, t;
    ForestTranslates(v.mem, t, n);
    ForestPlain(v.mem, t, n);
  }
}
