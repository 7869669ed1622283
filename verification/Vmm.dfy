/** The virtual memory manager: mapping single pages, searching and mapping ranges, freeing them, and the
  bitmap of page tables without an absent page.

  Virtual addresses are page numbers except where a caller passes bytes.
 */
module Vmm {
  import opened Common
  import opened Pte
  import opened PageTables
  import opened Entries
  import opened Budget
  import opened Ranges
  import opened Search
  import PMM = Pmm

  function NeededPages(size: nat): nat {
    if size % PAGE_SIZE == 0 then size / PAGE_SIZE else size / PAGE_SIZE + 1
  }

  lemma TranslatesBy(mem: Memory, root: nat, t: Tree, page: nat)
    requires WellFormed(mem, root, t) && page < PAGES
    ensures On(page, 3) == ROOT && Index(page, 0) == page % ENTRIES
    ensures On(page, 0) in t ==> t[On(page, 0)] < |mem|
    ensures Translate(mem, root, page) ==
            if On(page, 0) in t && Present(mem[t[On(page, 0)]][page % ENTRIES])
            then Some(mem[t[On(page, 0)]][page % ENTRIES].frame) else None
  {
    WellFormedFacts(mem, root, t, On(page, 0));
    TranslateMeans(mem, root, t, page);
    hide WellFormed, Walk;
  }

  class Vmm {
    const pmm: PMM.Pmm
    var mem: Memory
    var cr3: nat              // the frame of the current PML4
    var bitmap: set<nat>      // cur_bitmap, the page tables whose bit is set
    ghost var tree: Tree

    /** Before any table is built: the memory as it is, no root, no bit set. */
    constructor (pmm: PMM.Pmm, mem: Memory)
      ensures this.pmm == pmm && this.mem == mem && cr3 == 0 && bitmap == {} && tree == map[]
    {
      this.pmm, this.mem := pmm, mem;
      cr3, bitmap, tree := 0, {}, map[];
    }

    /** The tables form a tree, and the frame manager's bitmap and stack agree. */
    ghost predicate Sound()
      reads this, pmm, pmm.map_, pmm.stack
    {
      pmm.Sound() && |mem| == pmm.total && WellFormed(mem, cr3, tree)
    }

    /** And no table and no reserved frame is free. */
    ghost predicate Valid()
      reads this, pmm, pmm.map_, pmm.stack
    {
      && Sound() && pmm.Valid()
      && tree.Values !! pmm.FreeSet()
      && forall f :: f in tree.Values ==> pmm.reserved <= f
    }

    lemma ValidIff()
      ensures Valid() <==>
              Sound() && Harmless(pmm.FreeSet(), pmm.reserved, tree.Values) && forall f :: f in tree.Values ==> pmm.reserved <= f
    {
      hide WellFormed, PMM.Inv, PMM.FreeFrames;
      pmm.ValidIff();
    }

    ghost function Snap(): Space
      reads this, pmm, pmm.map_
    {
      Space(mem, tree.Keys, pmm.FreeSet(), tree.Values)
    }

    /** Bit p is set exactly if all 512 pages of table p are present. */
    ghost predicate Agrees()
      reads this`mem, this`cr3, this`bitmap
    {
      Agreement(mem, cr3, bitmap)
    }

    /** The entry of the page in its page table, if all tables above it are there. */
    method GetEntry(page: nat) returns (found: bool, table: nat, pos: nat)
      requires Sound() && page < PAGES
      ensures found <==> On(page, 0) in tree
      ensures found ==> table == tree[On(page, 0)] && pos == page % ENTRIES && table < |mem|
      ensures Translate(mem, cr3, page) == if found && Present(mem[table][pos]) then Some(mem[table][pos].frame) else None
    {
      TranslatesBy(mem, cr3, tree, page);
      hide WellFormed, PMM.Inv, PMM.FreeFrames, Translate, Present, On, Index;
      WellFormedFacts(mem, cr3, tree, On(page, 3));
      table, pos := cr3, 0;
      var level := 3;
      while level > 0
        invariant level <= 3 && On(page, level) in tree && table == tree[On(page, level)] && table < |mem|
      {
        EntryOnWay(mem, cr3, tree, page, level);
        pos := Index(page, level);
        if Present(mem[table][pos]) {
          table := mem[table][pos].frame;
          WellFormedFacts(mem, cr3, tree, On(page, level - 1));
        } else {
          return false, table, pos;
        }
        level := level - 1;
      }
      return true, table, Index(page, 0);
    }

    /** Points the page at the frame, creating the tables that are missing on the way. */
    method MapPage(phys: nat, page: nat, attributes: Attributes) returns (ok: bool)
      requires Valid() && page < PAGES
      requires Missing(tree, page, 3) <= |pmm.FreeSet()|
      modifies this`mem, this`tree, pmm`free, pmm`frames, pmm.map_
      ensures Valid() && ok
      ensures Translate(mem, cr3, page) == Some(phys)
      ensures SameOutside(old(mem), mem, cr3, page, page + 1) && NamesKept(old(mem), mem, cr3, page, page + 1)
      ensures Written(old(mem), old(tree), mem, tree, Path(page), attributes)
      ensures TablesMade(old(tree), tree, old(pmm.FreeSet()), pmm.FreeSet(), page)
    {
      hide WellFormed, PMM.Inv, PMM.FreeFrames, Missing, TablesMade, Translate, NamedFrame, Written, PathAbove;
      var table := ReachTable(page, attributes);
      var pos := Index(page, 0);
      var e := PointTo(mem[table][pos], phys, attributes);
      WriteLeaf(mem, cr3, tree, page, e);
      LeafWritten(mem, cr3, tree, page, phys, attributes);
      ghost var mem1 := mem;
      mem := WriteEntry(mem, table, pos, e);
      WrittenTogether(old(mem), old(tree), mem1, tree, mem, tree, PathAbove(page, 0), {(On(page, 0), Index(page, 0))}, attributes);
      PathStep(page, 0);
      return true;
    }

    /** The loop of `MapPage`: walks down to the page table, creating the tables that are missing. */
    method ReachTable(page: nat, attributes: Attributes) returns (table: nat)
      requires Valid() && page < PAGES
      requires Missing(tree, page, 3) <= |pmm.FreeSet()|
      modifies this`mem, this`tree, pmm`free, pmm`frames, pmm.map_
      ensures Valid() && On(page, 0) in tree && table == tree[On(page, 0)] && table < |mem|
      ensures SameOutside(old(mem), mem, cr3, 0, 0) && NamesKept(old(mem), mem, cr3, 0, 0)
      ensures Written(old(mem), old(tree), mem, tree, PathAbove(page, 0), attributes)
      ensures TablesMade(old(tree), tree, old(pmm.FreeSet()), pmm.FreeSet(), page)
    {
      hide WellFormed, PMM.Inv, PMM.FreeFrames, Missing, MadeDownTo, TablesMade, OneMade, Translate, NamedFrame, Written, PathAbove;
      table := cr3;
      var level := 3;
      WellFormedFacts(mem, cr3, tree, ROOT);
      MadeNone(tree, pmm.FreeSet(), page);
      NothingWritten(mem, tree, attributes);
      PathStep(page, 3);
      while level > 0
        invariant level <= 3 && Valid()
        invariant On(page, level) in tree && table == tree[On(page, level)] && table < |mem|
        invariant SameOutside(old(mem), mem, cr3, 0, 0) && NamesKept(old(mem), mem, cr3, 0, 0)
        invariant MadeDownTo(old(tree), tree, old(pmm.FreeSet()), pmm.FreeSet(), page, level)
        invariant Written(old(mem), old(tree), mem, tree, PathAbove(page, level), attributes)
      {
        ghost var mem1, t, free := mem, tree, pmm.FreeSet();
        MadeEnough(old(tree), t, old(pmm.FreeSet()), free, page, level);
        table := Descend(table, page, level, attributes);
        WrittenTogether(old(mem), old(tree), mem1, t, mem, tree, PathAbove(page, level), {(On(page, level), Index(page, level))}, attributes);
        PathStep(page, level);
        MadeOneMore(old(tree), t, tree, old(pmm.FreeSet()), free, pmm.FreeSet(), page, level);
        level := level - 1;
      }
      MadeAll(old(tree), tree, old(pmm.FreeSet()), pmm.FreeSet(), page);
    }

    /** One round of that loop: the next table, created if its entry is absent. */
    method Descend(table: nat, page: nat, level: nat, attributes: Attributes) returns (next: nat)
      requires Valid() && page < PAGES && 0 < level <= 3
      requires On(page, level) in tree && table == tree[On(page, level)]
      requires Missing(tree, page, level) <= |pmm.FreeSet()|
      modifies this`mem, this`tree, pmm`free, pmm`frames, pmm.map_
      ensures Valid()
      ensures On(page, level - 1) in tree && next == tree[On(page, level - 1)] && next < |mem|
      ensures OneMade(old(tree), tree, old(pmm.FreeSet()), pmm.FreeSet(), page, level)
      ensures SameOutside(old(mem), mem, cr3, 0, 0) && NamesKept(old(mem), mem, cr3, 0, 0)
      ensures Written(old(mem), old(tree), mem, tree, {(On(page, level), Index(page, level))}, attributes)
    {
      hide WellFormed, PMM.Inv, PMM.FreeFrames, Translate, NamedFrame, Missing, OneMade, Written;
      var pos := Index(page, level);
      ghost var p, c := On(page, level), On(page, level - 1);
      OnIsChild(page, level);
      WellFormedFacts(mem, cr3, tree, p);
      assert Linked(mem, tree, p, pos);
      if Present(mem[table][pos]) {
        MadeBefore(tree, pmm.FreeSet(), page, level);
        PresentLeftAlone(mem, tree, p, pos, attributes);
      } else {
        MissingStep(tree, page, level);
        assert pmm.FreeSet() != {};
        ghost var free := pmm.FreeSet();
        var addr := pmm.GetBlock();
        var frame := addr / PMM.BLOCK_SIZE;
        assert frame !in tree.Values;
        var e := PointTo(mem[table][pos], frame, attributes);
        LinkTable(mem, cr3, tree, p, pos, frame, e);
        LinkWritten(mem, cr3, tree, p, pos, frame, attributes);
        MadeNow(tree, free, page, level, frame);
        AddValue(tree, c, frame);
        mem := WriteEntry(mem[frame := ZeroTable()], table, pos, e);
        tree := tree[c := frame];
      }
      next := mem[table][pos].frame;
      WellFormedFacts(mem, cr3, tree, c);
    }

    /** A fresh frame for the page. */
    method AllocPage(page: nat, attributes: Attributes) returns (ok: bool)
      requires Valid() && page < PAGES
      requires 1 + Missing(tree, page, 3) <= |pmm.FreeSet()|
      modifies this`mem, this`tree, pmm`free, pmm`frames, pmm.map_
      ensures Valid() && ok
      ensures |pmm.FreeSet()| == |old(pmm.FreeSet())| - 1 - Missing(old(tree), page, 3)
      ensures tree.Keys == old(tree.Keys) + OnWay(page, 3)
      ensures RangeMapped(old(mem), mem, cr3, page, page + 1,
                          old(pmm.FreeSet()), pmm.FreeSet(), old(tree.Values), tree.Values)
      ensures Written(old(mem), old(tree), mem, tree, Path(page), attributes)
    {
      hide Written, PathAbove;
      hide WellFormed, PMM.Inv, PMM.FreeFrames, Missing, OnWay, Translate, SameOutside, NamesKept, RangeMapped;
      ghost var mem0, free0, tables0 := mem, pmm.FreeSet(), tree.Values;
      assert free0 != {};
      var addr := pmm.GetBlock();
      ghost var free1 := pmm.FreeSet();
      ok := MapPage(addr / PMM.BLOCK_SIZE, page, attributes);
      RangeMappedOne(mem0, mem, cr3, page, addr / PMM.BLOCK_SIZE, free0, free1, pmm.FreeSet(), tables0, tree.Values);
    }

    /** The first absent page from `start` on, or `max`. */
    method GetFreePageInPt(start: nat, max: nat) returns (page: nat)
      requires Valid() && start <= max <= PAGES
      ensures start <= page <= max && Mapped(mem, cr3, start, page)
      ensures page < max ==> Translate(mem, cr3, page) == None
      decreases max - start
    {
      hide WellFormed, PMM.Inv, Translate;
      if start == max {
        return max;
      }
      var found, table, pos := GetEntry(start);
      if !found || !Present(mem[table][pos]) {
        return start;
      }
      page := GetFreePageInPt(start + 1, max);
    }

    /** Maps all of [cur, max) or nothing, and reports how far the absent run reaches. */
    method MappableFrom(cur: nat, max: nat, attributes: Attributes, last0: nat) returns (ok: bool, last: nat)
      requires Valid() && cur <= max <= PAGES
      requires Absent(mem, cr3, cur, max) ==> Needed(tree.Keys, cur, max) <= |pmm.FreeSet()|
      modifies this`mem, this`tree, pmm`free, pmm`frames, pmm.map_
      ensures Valid()
      ensures ok <==> Absent(old(mem), cr3, cur, max)
      ensures ok ==> last == max && Taken(cr3, old(Snap()), Snap(), cur, max)
      ensures ok ==> Written(old(mem), old(tree), mem, tree, Paths(cur, max), attributes)
      ensures !ok ==> mem == old(mem) && tree == old(tree) && pmm.Abs() == old(pmm.Abs())
      ensures !ok ==> if Translate(old(mem), cr3, cur).Some? then last == last0
                      else cur <= last < max - 1 && Absent(old(mem), cr3, cur, last + 1) && Translate(old(mem), cr3, last + 1).Some?
      decreases max - cur
    {
      hide WellFormed, PMM.Inv, PMM.FreeFrames, Translate, RangeMapped, Taken, Absent, Needed, Missing, OnWay, Way;
      hide Written, PathAbove, Paths;
      AbsentStep(mem, cr3, cur, max);
      PathsStep(cur, max);
      if cur == max {
        NothingWritten(mem, tree, attributes);
        TakenNothing(cr3, Snap(), cur);
        return true, max;
      }
      last := last0;
      var found, table, pos := GetEntry(cur);
      if !found || !Present(mem[table][pos]) {
        last := cur;
        ghost var s0 := Snap();
        NeededStep(tree.Keys, tree, cur, max);
        ok, last := MappableFrom(cur + 1, max, attributes, last);
        if last == max {
          ghost var s1, t1, mem1 := Snap(), tree, mem;
          EnoughForFirst(s0, s1, t1, cur, max);
          ok := AllocPage(cur, attributes);
          TakenGrows(cr3, s0, s1, Snap(), t1, cur, max);
          WrittenTogether(old(mem), old(tree), mem1, t1, mem, tree, Paths(cur + 1, max), Path(cur), attributes);
          return;
        }
        AbsentStep(s0.mem, cr3, cur, last + 1);
        AbsentStep(s0.mem, cr3, cur + 1, last + 1);
      }
      return false, last;
    }

    lemma EnoughForFirst(s0: Space, s1: Space, t1: Tree, lo: nat, hi: nat)
      requires lo < hi && Taken(cr3, s0, s1, lo + 1, hi) && s1.places == t1.Keys && Needed(s0.places, lo, hi) <= |s0.free|
      ensures 1 + Missing(t1, lo, 3) <= |s1.free|
    {
      hide RangeMapped, Absent, Missing, OnWay, Way, Needed;
      NeededStep(s0.places, t1, lo, hi);
    }

    method PtComplete(bit: nat)
      modifies this`bitmap
      ensures bitmap == old(bitmap) + {bit}
    {
      bitmap := bitmap + {bit};
    }

    method PtIncomplete(bit: nat)
      modifies this`bitmap
      ensures bitmap == old(bitmap) - {bit}
    {
      bitmap := bitmap - {bit};
    }

    method IsPtRangeIncomplete(from: nat, finish: nat) returns (incomplete: bool)
      requires Valid() && from <= finish <= PAGES
      ensures incomplete <==> !Mapped(mem, cr3, from, finish)
      decreases finish - from
    {
      hide WellFormed, PMM.Inv, Translate;
      if from == finish {
        return false;
      }
      var found, table, pos := GetEntry(from);
      if !found || !Present(mem[table][pos]) {
        return true;
      }
      incomplete := IsPtRangeIncomplete(from + 1, finish);
    }

    /** After mapping [start, finish): the tables of the range are taken for complete, the last is examined. */
    method UpdateBitmap(start: nat, finish: nat, incomplete: bool)
      requires Valid() && start <= finish && finish / ENTRIES < TABLES
      modifies this`bitmap
      ensures Updated(mem, cr3, old(bitmap), bitmap, start / ENTRIES, finish / ENTRIES, incomplete)
    {
      hide WellFormed, PMM.Inv, Translate, Mapped;
      var from, to := start / ENTRIES, finish / ENTRIES;
      var bit := from;
      while bit <= to
        invariant from <= bit <= to + 1
        invariant forall p :: p in bitmap <==> p in old(bitmap) || from <= p < bit
      {
        PtComplete(bit);
        bit := bit + 1;
      }
      if incomplete {
        PtIncomplete(from);
      }
      var lastIncomplete := IsPtRangeIncomplete(to * ENTRIES, (to + 1) * ENTRIES);
      if lastIncomplete {
        PtIncomplete(to);
      }
    }

    /** The search from table `pt`, entry `offset`, for `n` consecutive absent pages, which it maps.

      The kernel's search has no budget; `fuel` counts the pages and tables it may try. */
    method AllocPages(pt: nat, offset: nat, n: nat, attributes: Attributes, fuel: nat) returns (out: Outcome)
      requires Valid() && Agrees()
      requires offset < ENTRIES && n <= MAX_REQUEST
      requires Enough(mem, cr3, tree.Keys, pt * ENTRIES + offset, n, |pmm.FreeSet()|)
      modifies this`mem, this`tree, this`bitmap, pmm`free, pmm`frames, pmm.map_
      ensures Valid()
      ensures Answers(old(mem), cr3, pt * ENTRIES + offset, n, out)
      ensures out.Found? ==> Taken(cr3, old(Snap()), Snap(), out.page, out.page + n)
      ensures out.Found? ==> Written(old(mem), old(tree), mem, tree, Paths(out.page, out.page + n), attributes)
      ensures !out.Found? ==> Snap() == old(Snap()) && bitmap == old(bitmap)
      ensures Agrees() <==> (out.Found? ==> BitmapStaysRight(old(mem), cr3, pt * ENTRIES + offset, n))
      ensures fuel + pt > TOTAL_PTS + 1 && out.Spinning? ==> Blocked(old(mem), cr3, pt * ENTRIES + offset, n)
      decreases fuel, 0
    {
      hide WellFormed, PMM.Inv, PMM.FreeFrames, Translate, Taken, Absent, Mapped;
      hide FirstAbsent, Blocks, Blocked, NoRoom, Answers, Agreement, Enough, Needed, BitmapStaysRight, Written, Paths;
      ghost var s0, places := pt * ENTRIES + offset, tree.Keys;
      if pt > TOTAL_PTS {
        NothingThere(mem, cr3, s0, n);
        return NoSpace;
      }
      if fuel == 0 {
        SpinningAnswers(mem, cr3, s0, n);
        return Spinning;
      }
      var nextPt := (pt + 1) * ENTRIES;
      if pt in bitmap {
        FullTable(mem, cr3, bitmap, pt, s0);
        out := FromNextTable(pt, s0, n, attributes, fuel - 1);
        return;
      }
      var cur := pt * ENTRIES + offset;
      var incomplete := false;
      var budget := fuel;
      while budget > 0
        invariant mem == old(mem) && tree == old(tree) && bitmap == old(bitmap) && pmm.Abs() == old(pmm.Abs())
        invariant Valid() && s0 <= cur < nextPt
        invariant budget <= fuel && (!incomplete ==> budget == fuel && cur == s0)
        invariant incomplete ==> Blocked(mem, cr3, s0, n)
        invariant incomplete ==> Translate(mem, cr3, cur) == None && Blocks(mem, cr3, cur, n) && !Absent(mem, cr3, cur, cur + n)
      {
        ghost var from := cur;
        cur := GetFreePageInPt(cur, nextPt);
        if incomplete {
          StartsAt(mem, cr3, from, cur);
        }
        if cur == nextPt {
          out := FromNextTable(pt, s0, n, attributes, budget - 1);
          return;
        }
        Candidate(mem, cr3, places, s0, cur, n, |pmm.FreeSet()|, incomplete);
        var finish := cur + n;
        ghost var s := Snap();
        var found, last := MappableFrom(cur, finish, attributes, cur);
        if found {
          UpdateBitmap(cur, finish, incomplete);
          FoundAtCandidate(cr3, s, Snap(), old(bitmap), bitmap, s0, cur, n);
          return Found(cur);
        }
        CutShort(mem, cr3, cur, n, last);
        if pt != last / ENTRIES {
          EnoughForNothing(mem, cr3, places, last, n, |pmm.FreeSet()|);
          out := AllocPages(last / ENTRIES, last % ENTRIES, n, attributes, budget - 1);
          AnswersAfterCut(old(mem), cr3, s0, n, last, out);
          return;
        }
        cur := last;
        incomplete := true;
        budget := budget - 1;
      }
      SpinningAnswers(mem, cr3, s0, n);
      return Spinning;
    }

    /** The search goes on with the table behind `pt`, everything from `s0` to the end of which is mapped. */
    method FromNextTable(pt: nat, ghost s0: nat, n: nat, attributes: Attributes, fuel: nat) returns (out: Outcome)
      requires Valid() && Agrees() && pt <= TOTAL_PTS && n <= MAX_REQUEST
      requires pt * ENTRIES <= s0 < (pt + 1) * ENTRIES && Mapped(mem, cr3, s0, (pt + 1) * ENTRIES)
      requires Enough(mem, cr3, tree.Keys, s0, n, |pmm.FreeSet()|)
      modifies this`mem, this`tree, this`bitmap, pmm`free, pmm`frames, pmm.map_
      ensures Valid() && Agrees() && BitmapStaysRight(old(mem), cr3, s0, n)
      ensures Answers(old(mem), cr3, s0, n, out)
      ensures out.Found? ==> Taken(cr3, old(Snap()), Snap(), out.page, out.page + n)
      ensures out.Found? ==> Written(old(mem), old(tree), mem, tree, Paths(out.page, out.page + n), attributes)
      ensures !out.Found? ==> Snap() == old(Snap()) && bitmap == old(bitmap)
      ensures fuel + pt > TOTAL_PTS && out.Spinning? ==> Blocked(old(mem), cr3, s0, n)
      decreases fuel, 1
    {
      hide WellFormed, PMM.Inv, PMM.FreeFrames, Translate, Taken, Absent, Mapped;
      hide FirstAbsent, Blocks, Blocked, NoRoom, Answers, Agreement, Enough, Needed, BitmapStaysRight, Written, Paths;
      ghost var mem0, next := mem, (pt + 1) * ENTRIES;
      EnoughAfterSkip(mem, cr3, tree.Keys, s0, next, n, |pmm.FreeSet()|);
      NothingLeftInTable(mem, cr3, s0, next, n);
      NothingBeforeStart(mem, cr3, next, n);
      out := AllocPages(pt + 1, 0, n, attributes, fuel);
      AnswersAfterSkip(mem0, cr3, s0, next, n, out);
    }

    /** `vmm_alloc_pages`: the lowest run anywhere.  The bitmap agrees afterwards, however many tables it crosses. */
    method AllocAnywhere(size: nat, attributes: Attributes, fuel: nat) returns (out: Outcome)
      requires Valid() && Agrees()
      requires NeededPages(size) <= MAX_REQUEST
      requires Enough(mem, cr3, tree.Keys, 0, NeededPages(size), |pmm.FreeSet()|)
      requires fuel > TOTAL_PTS + 1
      modifies this`mem, this`tree, this`bitmap, pmm`free, pmm`frames, pmm.map_
      ensures Valid() && Agrees()
      ensures Answers(old(mem), cr3, 0, NeededPages(size), out)
      ensures out.Found? ==> Taken(cr3, old(Snap()), Snap(), out.page, out.page + NeededPages(size))
      ensures out.Found? ==> Written(old(mem), old(tree), mem, tree, Paths(out.page, out.page + NeededPages(size)), attributes)
      ensures !out.Found? ==> Snap() == old(Snap()) && bitmap == old(bitmap)
      ensures out.Spinning? <==> Blocked(old(mem), cr3, 0, NeededPages(size))
      ensures NeededPages(size) <= 1 ==> !out.Spinning?
    {
      out := AllocFrom(0, size, attributes, fuel);
    }

    /** `vmm_alloc_pages_from`: the lowest run at or after a byte address. */
    method AllocFrom(from: nat, size: nat, attributes: Attributes, fuel: nat) returns (out: Outcome)
      requires Valid() && Agrees()
      requires NeededPages(size) <= MAX_REQUEST
      requires Enough(mem, cr3, tree.Keys, from / PAGE_SIZE, NeededPages(size), |pmm.FreeSet()|)
      requires fuel > TOTAL_PTS + 1
      modifies this`mem, this`tree, this`bitmap, pmm`free, pmm`frames, pmm.map_
      ensures Valid()
      ensures Answers(old(mem), cr3, from / PAGE_SIZE, NeededPages(size), out)
      ensures out.Found? ==> Taken(cr3, old(Snap()), Snap(), out.page, out.page + NeededPages(size))
      ensures out.Found? ==> Written(old(mem), old(tree), mem, tree, Paths(out.page, out.page + NeededPages(size)), attributes)
      ensures !out.Found? ==> Snap() == old(Snap()) && bitmap == old(bitmap)
      ensures Agrees() <==> (out.Found? ==> BitmapStaysRight(old(mem), cr3, from / PAGE_SIZE, NeededPages(size)))
      ensures from % PT_SIZE == 0 ==> Agrees()
      ensures out.Spinning? <==> Blocked(old(mem), cr3, from / PAGE_SIZE, NeededPages(size))
      ensures NeededPages(size) <= 1 ==> !out.Spinning?
    {
      hide WellFormed, PMM.Inv, PMM.FreeFrames, Translate, Taken, Absent, Mapped;
      hide FirstAbsent, Blocked, NoRoom, Agreement, Enough, Needed, BitmapStaysRight, Written, Paths;
      var pt, offset := from / PT_SIZE, from / PAGE_SIZE % ENTRIES;
      assert pt * ENTRIES + offset == from / PAGE_SIZE;
      ShortRequestNeverBlocked(mem, cr3, from / PAGE_SIZE, NeededPages(size));
      if from % PT_SIZE == 0 { NothingBeforeStart(mem, cr3, from / PAGE_SIZE, NeededPages(size)); }
      out := AllocPages(pt, offset, NeededPages(size), attributes, fuel);
    }

    /** Gives back the frame that the page's entry names and marks the entry absent.  That is right for no frame that is a
      table or is never handed out. */
    method FreePage(page: nat, table: nat, pos: nat)
      requires Sound() && page < PAGES && On(page, 0) in tree
      requires table == tree[On(page, 0)] && pos == page % ENTRIES && table < |mem|
      requires mem[table][pos].frame < pmm.total && |pmm.FreeSet() + {mem[table][pos].frame}| < pmm.total
      modifies this`mem, pmm`free, pmm`frames, pmm.map_, pmm.stack
      ensures Sound()
      ensures Valid() <==> old(Valid()) && pmm.reserved <= old(mem[table][pos]).frame && old(mem[table][pos]).frame !in tree.Values
      ensures SameNames(old(mem), mem, cr3) && EntriesCleared(old(mem), mem, tree, page, page + 1)
      ensures Translate(mem, cr3, page) == None && SameOutside(old(mem), mem, cr3, page, page + 1)
      ensures pmm.FreeSet() == old(pmm.FreeSet()) + {old(mem[table][pos]).frame}
    {
      hide WellFormed, PMM.Inv, PMM.FreeFrames, Translate, NamedFrame;
      var e := mem[table][pos];
      NameOfEntry(mem, cr3, tree, page);
      var r := pmm.FreeBlock(e.frame * PMM.BLOCK_SIZE);
      WriteLeaf(mem, cr3, tree, page, MarkAbsent(e));
      LeafCleared(mem, cr3, tree, page);
      hide EntriesCleared;
      mem := WriteEntry(mem, table, pos, MarkAbsent(e));
    }

    /** Frees the pages of a byte range, one for every 4096 bytes from the start on.  Pages without a table are passed over; for
      an absent page with one, the frame that its entry still names is given back too: frame 0 if the page never was mapped.
      The frames must be frames of the memory, and not all frames of the memory may get free. */
    method FreePages(start: nat, size: nat)
      requires Sound() && Agrees() && start + size <= PAGES * PAGE_SIZE
      requires Freeable(NamedFrames(mem, cr3, start / PAGE_SIZE, PagesEnd(start, size)), pmm.FreeSet(), pmm.total)
      modifies this`mem, this`bitmap, pmm`free, pmm`frames, pmm.map_, pmm.stack
      ensures Sound()
      ensures var lo, hi := start / PAGE_SIZE, PagesEnd(start, size);
              && Absent(mem, cr3, lo, hi) && SameOutside(old(mem), mem, cr3, lo, hi)
              && pmm.FreeSet() == old(pmm.FreeSet()) + NamedFrames(old(mem), cr3, lo, hi)
              && (Valid() <==> old(Valid()) && Harmless(NamedFrames(old(mem), cr3, lo, hi), pmm.reserved, tree.Values))
              && SameNames(old(mem), mem, cr3) && EntriesCleared(old(mem), mem, tree, lo, hi)
              && (Mapped(old(mem), cr3, lo, hi) ==> Released(cr3, old(Snap()), Snap(), lo, hi))
      ensures Agrees() <==> !ClearsTooMuch(old(bitmap), start, size)
    {
      hide WellFormed, PMM.Inv, PMM.FreeFrames, Translate, SameOutside, Absent, Mapped, FramesOf, NamedFrames, Agreement;
      hide ClearsTooMuch, SameNames, Freeable, Harmless, EntriesCleared;
      MarkIncomplete(start, start + size);
      ghost var lo, hi, mem0 := start / PAGE_SIZE, PagesEnd(start, size), mem;
      MappedNames(mem, cr3, lo, hi);
      BothHarmless(pmm.FreeSet(), NamedFrames(mem, cr3, lo, hi), pmm.reserved, tree.Values);
      ValidIff();
      FreeLoop(start, start + size, lo, hi);
      ValidIff();
      AgreementAfterFreeing(mem0, mem, cr3, old(bitmap), bitmap, start, size);
    }

    /** Clears the bits of the tables that [start, end) touches. */
    method MarkIncomplete(start: nat, end: nat)
      modifies this`bitmap
      ensures Cleared(old(bitmap), bitmap, start / PT_SIZE, end / PT_SIZE, end % PT_SIZE != 0)
    {
      var pt, endPt := start / PT_SIZE, end / PT_SIZE;
      while pt < endPt
        invariant start / PT_SIZE <= pt && (pt <= endPt || pt == start / PT_SIZE)
        invariant forall p :: p in bitmap <==> p in old(bitmap) && !(start / PT_SIZE <= p < pt)
      {
        PtIncomplete(pt);
        pt := pt + 1;
      }
      if end % PT_SIZE != 0 {
        PtIncomplete(endPt);
      }
    }

    /** The loop of `FreePages` over the pages. */
    method FreeLoop(start: nat, end: nat, ghost lo: nat, ghost hi: nat)
      requires Sound() && start <= end <= PAGES * PAGE_SIZE && lo == start / PAGE_SIZE && hi == PagesEnd(start, end - start)
      requires Freeable(NamedFrames(mem, cr3, lo, hi), pmm.FreeSet(), pmm.total)
      modifies this`mem, pmm`free, pmm`frames, pmm.map_, pmm.stack
      ensures Sound() && Absent(mem, cr3, lo, hi) && SameOutside(old(mem), mem, cr3, lo, hi) && SameNames(old(mem), mem, cr3)
      ensures EntriesCleared(old(mem), mem, tree, lo, hi)
      ensures pmm.FreeSet() == old(pmm.FreeSet()) + NamedFrames(old(mem), cr3, lo, hi)
    {
      hide WellFormed, PMM.Inv, PMM.FreeFrames, Translate, SameOutside, Absent, NamedFrames, SameNames, Freeable;
      hide EntriesCleared;
      var curPage := start;
      ghost var q, mem0 := lo, mem;
      NothingFreed(mem, cr3, lo);
      NothingCleared(mem, tree, lo);
      while curPage < end
        invariant lo <= q <= hi && curPage == start + (q - lo) * PAGE_SIZE
        invariant Sound() && Absent(mem, cr3, lo, q) && SameOutside(mem0, mem, cr3, lo, q) && SameNames(mem0, mem, cr3)
        invariant EntriesCleared(mem0, mem, tree, lo, q)
        invariant pmm.FreeSet() == old(pmm.FreeSet()) + NamedFrames(mem0, cr3, lo, q)
      {
        ghost var mem1 := mem;
        assert curPage / PAGE_SIZE == q;
        NamesSplit(mem0, mem, cr3, lo, q, hi);
        NextFreeable(NamedFrames(mem0, cr3, lo, hi), NamedFrames(mem0, cr3, lo, q), NamedFrames(mem, cr3, q, q + 1),
                     old(pmm.FreeSet()), pmm.total);
        FreeEntry(curPage / PAGE_SIZE);
        ClearedOneMore(mem0, mem1, mem, tree, lo, q);
        FreedOneMore(mem0, mem1, mem, cr3, lo, q);
        curPage := curPage + PAGE_SIZE;
        q := q + 1;
      }
    }

    /** One round of that loop: the page's entry, if there is one. */
    method FreeEntry(page: nat)
      requires Sound() && page < PAGES && Freeable(NamedFrames(mem, cr3, page, page + 1), pmm.FreeSet(), pmm.total)
      modifies this`mem, pmm`free, pmm`frames, pmm.map_, pmm.stack
      ensures Sound() && Absent(mem, cr3, page, page + 1) && SameOutside(old(mem), mem, cr3, page, page + 1)
      ensures SameNames(old(mem), mem, cr3) && EntriesCleared(old(mem), mem, tree, page, page + 1)
      ensures pmm.FreeSet() == old(pmm.FreeSet()) + NamedFrames(old(mem), cr3, page, page + 1)
    {
      hide WellFormed, PMM.Inv, PMM.FreeFrames, Translate, SameOutside, NamedFrames, NamedFrame, SameNames;
      NothingFreed(mem, cr3, page);
      NothingCleared(mem, tree, page);
      hide EntriesCleared;
      NameOfEntry(mem, cr3, tree, page);
      ghost var names := NamedFrames(mem, cr3, page, page + 1);
      var found, table, pos := GetEntry(page);
      if found {
        assert names == {mem[table][pos].frame};
        FreePage(page, table, pos);
      } else {
        NothingChanged(mem, cr3, page);
      }
    }
  }
}
