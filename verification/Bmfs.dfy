/** The BMFS utility's commands on the directory buffer, in the form of the program: scans over 64 records, a sorted
  copy, and records overwritten in place. */
module Bmfs {
  import opened Common
  import opened Directory

  class Disk {
    const directory: array<Record>
    const diskSize: nat             // MiB

    constructor (records: seq<Record>, diskSize: nat)
      requires |records| == SLOTS
      ensures fresh(directory) && directory[..] == records && this.diskSize == diskSize && Valid()
    {
      directory := new Record[SLOTS](i requires 0 <= i < SLOTS => records[i]);
      this.diskSize := diskSize;
    }

    predicate Valid() {
      directory.Length == SLOTS
    }

    /** The number of whole 2 MiB blocks. */
    function Blocks(): (n: nat)
      ensures 2 * n <= diskSize < 2 * n + 2
    {
      diskSize / 2
    }

    /** The slot of the file, or 64. */
    method FindFile(name: string) returns (found: bool, slot: nat)
      requires Valid()
      ensures FoundAt(directory[..], name, slot) && (found <==> slot < SLOTS)
    {
      var tint := 0;
      while tint < SLOTS
        invariant tint <= SLOTS
        invariant forall j :: 0 <= j < tint ==> !IsEnd(directory[j]) && !(IsLive(directory[j]) && directory[j].name == name)
      {
        var entry := directory[tint];
        if IsEnd(entry) {
          UsedIs(directory[..], tint);
          return false, SLOTS;
        } else if IsDeleted(entry) {
        } else if entry.name == name {
          UsedAbove(directory[..], tint);
          return true, tint;
        }
        tint := tint + 1;
      }
      UsedIs(directory[..], SLOTS);
      return false, SLOTS;
    }

    /** The position of the end marker (0 if there is none) and the first record a new file may take (64 if there is none). */
    method ScanSlots() returns (numUsed: nat, firstFree: nat)
      requires Valid()
      ensures numUsed == NumUsed(directory[..]) && FirstFree(directory[..], firstFree) && firstFree <= SLOTS
    {
      numUsed := 0;
      firstFree := SLOTS;
      var tint := 0;
      while tint < SLOTS
        invariant tint <= SLOTS && numUsed == 0
        invariant forall j :: 0 <= j < tint ==> !IsEnd(directory[j])
        invariant firstFree < tint || firstFree == SLOTS
        invariant firstFree < SLOTS ==> !IsLive(directory[firstFree])
        invariant forall j :: 0 <= j < tint && j < firstFree ==> IsLive(directory[j])
      {
        var entry := directory[tint];
        if IsEnd(entry) {
          UsedIs(directory[..], tint);
          numUsed := tint;
          if firstFree == SLOTS {
            firstFree := tint;
          }
          return;
        } else if IsDeleted(entry) {
          if firstFree == SLOTS {
            firstFree := tint;
          }
        }
        tint := tint + 1;
      }
      UsedIs(directory[..], SLOTS);
    }

    /** Stands for the C library's qsort with the program's comparison: some order with live records first, by start. */
    method Qsort(records: seq<Record>) returns (sorted: seq<Record>)
      ensures IsSortOf(sorted, records)
    {
      sorted := [];
      var i := 0;
      while i < |records|
        invariant i <= |records| && Sorted(sorted) && multiset(sorted) == multiset(records[..i])
      {
        var k := 0;
        while k < |sorted| && InOrder(sorted[k], records[i])
          invariant k <= |sorted| && forall j :: 0 <= j < k ==> InOrder(sorted[j], records[i])
        {
          k := k + 1;
        }
        InsertSorted(sorted, k, records[i]);
        assert records[..i + 1] == records[..i] + [records[i]];
        sorted := sorted[..k] + [records[i]] + sorted[k..];
        i := i + 1;
      }
      assert records[..|records|] == records;
    }

    /** The loop over the sorted copy. */
    method FindGap(sorted: seq<Record>, requested: nat) returns (start: nat)
      ensures start == GapFrom(sorted, 0, 1, Blocks(), requested)
    {
      var prevFileEnd: nat := 1;
      var tint := 0;
      while tint < |sorted| + 1
        invariant tint <= |sorted| + 1
        invariant GapFrom(sorted, 0, 1, Blocks(), requested)
                  == if tint <= |sorted| then GapFrom(sorted, tint, prevFileEnd, Blocks(), requested) else 0
      {
        var thisFileStart := if tint == |sorted| || IsDeleted(sorted[tint]) then Blocks() - 1 else sorted[tint].start;
        if Sub64(thisFileStart, prevFileEnd) >= requested {
          return prevFileEnd;
        }
        if tint < |sorted| {
          prevFileEnd := Sum64(sorted[tint].start, sorted[tint].reserved);
        }
        tint := tint + 1;
      }
      return 0;
    }

    /** `create`, as a step of the model of runs, and what it creates. */
    method CreateFile(name: string, maxsize: nat) returns (outcome: Outcome, ghost slot: nat)
      requires Valid() && |name| < NAME_SIZE && maxsize < TWO64
      modifies directory
      ensures outcome.Created? && maxsize < TWO64 - 1 ==>
                && slot < SLOTS && directory[slot].name == name && directory[slot].start == outcome.start && directory[slot].size == 0
                && 2 * directory[slot].reserved - 1 <= maxsize <= 2 * directory[slot].reserved
      ensures MarkedAndApart(old(directory[..]), Blocks()) && ValidName(name) && 1 <= maxsize < TWO64 - 1 && 2 <= Blocks() < TWO64 ==>
                CreatesLeast(old(directory[..]), Blocks(), name, maxsize, outcome, slot, directory[..])
      ensures UniqueNames(Head(old(directory[..]))) ==>
                Step(old(directory[..]), Blocks(), DoCreate(name, Requested(maxsize)), directory[..])
    {
      hide Used, GapFrom, Sorted, UniqueNames, Step, Head;
      ghost var dir := directory[..];
      ghost var sorted;
      outcome, slot, sorted := Create(name, maxsize);
      if MarkedAndApart(dir, Blocks()) && ValidName(name) && 1 <= maxsize < TWO64 - 1 && 2 <= Blocks() < TWO64 {
        CreatedLeast(dir, Blocks(), name, maxsize, sorted, slot, outcome, directory[..]);
      }
      if UniqueNames(Head(dir)) {
        CreateIsStep(dir, directory[..], Blocks(), name, Requested(maxsize), outcome, slot, sorted);
      }
    }

    /** `delete`, as a step of the model of runs. */
    method DeleteFile(name: string) returns (deleted: bool)
      requires Valid()
      modifies directory
      ensures UniqueNames(Head(old(directory[..]))) ==>
                Step(old(directory[..]), Blocks(), DoDelete(name), directory[..])
    {
      hide Used, UniqueNames, Step, Head;
      ghost var dir := directory[..];
      ghost var slot;
      deleted, slot := Delete(name);
      if UniqueNames(Head(dir)) {
        DeleteIsStep(dir, directory[..], Blocks(), name, slot);
      }
    }

    /** `create`: the new directory is that of `AfterCreate` for the first free slot and a sorted copy. */
    method Create(name: string, maxsize: nat) returns (outcome: Outcome, ghost slot: nat, ghost sorted: seq<Record>)
      requires Valid() && |name| < NAME_SIZE && maxsize < TWO64
      modifies directory
      ensures outcome.Created? && maxsize < TWO64 - 1 ==>
                && slot < SLOTS && directory[slot].name == name && directory[slot].start == outcome.start && directory[slot].size == 0
                && 2 * directory[slot].reserved - 1 <= maxsize <= 2 * directory[slot].reserved
      ensures outcome == Exists <==> !FoundAt(old(directory[..]), name, SLOTS)
      ensures outcome == Exists ==> exists i: nat :: i < SLOTS && FoundAt(old(directory[..]), name, i)
      ensures outcome != Exists ==>
                FirstFree(old(directory[..]), slot) && slot <= SLOTS && (outcome == NoSlot <==> slot == SLOTS)
      ensures outcome.Created? || outcome.NoSpace? ==>
                && slot < SLOTS && IsSortOf(sorted, old(directory[..])[..NumUsed(old(directory[..]))])
                && var start := GapFrom(sorted, 0, 1, Blocks(), Requested(maxsize));
                   outcome == (if start == 0 then NoSpace else Created(start))
                   && directory[..] == AfterCreate(old(directory[..]), slot, name, start, Requested(maxsize))
      ensures outcome.Exists? || outcome.NoSlot? ==> directory[..] == old(directory[..])
    {
      hide Used, GapFrom, Sorted;
      slot, sorted := 0, [];
      var found, at := FindFile(name);
      FoundOnce(directory[..], name, at);
      if found {
        return Exists, 0, [];
      }
      var numUsed, firstFree := ScanSlots();
      slot := firstFree;
      if firstFree == SLOTS {
        return NoSlot, slot, [];
      }
      var requested := (if maxsize % 2 != 0 then Sum64(maxsize, 1) else maxsize) / 2;
      var copy := Qsort(directory[..numUsed]);
      sorted := copy;
      assert directory[..numUsed] == directory[..][..numUsed];
      var start := FindGap(copy, requested);
      if start == 0 {
        return NoSpace, slot, sorted;
      }
      directory[firstFree] := Record(name, start, requested, 0);
      if firstFree == numUsed && numUsed + 1 < SLOTS {
        directory[numUsed + 1] := directory[numUsed + 1].(name := "");
      }
      assert directory[..] == Placed(old(directory[..]), slot, name, start, requested);
      return Created(start), slot, sorted;
    }

    /** `delete`: false when there is no such file. */
    method Delete(name: string) returns (deleted: bool, ghost slot: nat)
      requires Valid()
      modifies directory
      ensures FoundAt(old(directory[..]), name, slot) && (deleted <==> slot < SLOTS)
      ensures directory[..] == if deleted then Deleted(old(directory[..]), slot) else old(directory[..])
    {
      hide Used;
      var found, i := FindFile(name);
      slot := i;
      if !found {
        return false, slot;
      }
      directory[i] := directory[i].(name := [DELETED] + directory[i].name[1..]);
      return true, slot;
    }
  }

  /** The command that was run, with the outcomes of `Create`, is a step of the model of runs. */
  lemma CreateIsStep(dir: seq<Record>, after: seq<Record>, blocks: nat, name: string, requested: nat,
                     outcome: Outcome, slot: nat, sorted: seq<Record>)
    requires |dir| == SLOTS && UniqueNames(Head(dir))
    requires outcome == Exists <==> !FoundAt(dir, name, SLOTS)
    requires outcome == Exists ==> exists i: nat :: i < SLOTS && FoundAt(dir, name, i)
    requires outcome != Exists ==> FirstFree(dir, slot) && (outcome == NoSlot <==> slot == SLOTS) && slot <= SLOTS
    requires outcome.Created? || outcome.NoSpace? ==>
               && slot < SLOTS && IsSortOf(sorted, dir[..NumUsed(dir)])
               && after == AfterCreate(dir, slot, name, GapFrom(sorted, 0, 1, blocks, requested), requested)
    requires outcome.Exists? || outcome.NoSlot? ==> after == dir
    ensures Step(dir, blocks, DoCreate(name, requested), after)
  {
    hide Used, GapFrom, Sorted, FileMap, Head, AfterCreate;
    if outcome == Exists {
      var i: nat :| i < SLOTS && FoundAt(dir, name, i);
      FindRefines(dir, name, i);
    } else {
      FindRefines(dir, name, SLOTS);
      assert CreateStep(dir, blocks, name, requested, slot, sorted, after);
    }
  }

  ghost predicate MarkedAndApart(dir: seq<Record>, blocks: nat) {
    Used(dir) < |dir| && Bounded(Head(dir), blocks) && Disjoint(Head(dir))
  }

  lemma CreatedLeast(dir: seq<Record>, blocks: nat, name: string, size: nat, sorted: seq<Record>, slot: nat, outcome: Outcome, after: seq<Record>)
    requires |dir| == SLOTS && MarkedAndApart(dir, blocks) && ValidName(name) && 2 <= blocks < TWO64 && 1 <= size < TWO64 - 1
    requires outcome.Created? || outcome.NoSpace? ==>
               && FirstFree(dir, slot) && slot < SLOTS && IsSortOf(sorted, dir[..NumUsed(dir)])
               && var start := GapFrom(sorted, 0, 1, blocks, Requested(size));
                  && outcome == (if start == 0 then NoSpace else Created(start))
                  && after == AfterCreate(dir, slot, name, start, Requested(size))
    ensures CreatesLeast(dir, blocks, name, size, outcome, slot, after)
  {
    if outcome.Created? || outcome.NoSpace? {
      HeadIsUsed(dir);
      CreateCreatesLeast(dir, blocks, name, size, sorted, slot, outcome, after);
    }
  }

  lemma DeleteIsStep(dir: seq<Record>, after: seq<Record>, blocks: nat, name: string, slot: nat)
    requires |dir| == SLOTS && UniqueNames(Head(dir)) && FoundAt(dir, name, slot)
    requires after == if slot < SLOTS then Deleted(dir, slot) else dir
    ensures Step(dir, blocks, DoDelete(name), after)
  {
    hide Used, FileMap, Head;
    FindRefines(dir, name, slot);
    assert slot < SLOTS ==> DeleteStep(dir, slot, after);
  }

  lemma UsedAbove(dir: seq<Record>, n: nat)
    requires n < |dir| && forall j :: 0 <= j <= n ==> !IsEnd(dir[j])
    ensures n < Used(dir)
  {
  }

  lemma FoundOnce(dir: seq<Record>, name: string, i: nat)
    requires FoundAt(dir, name, i)
    ensures i == |dir| <==> FoundAt(dir, name, |dir|)
  {
  }

  lemma InsertSorted(sorted: seq<Record>, k: nat, r: Record)
    requires Sorted(sorted) && k <= |sorted|
    requires forall j :: 0 <= j < k ==> InOrder(sorted[j], r)
    requires k < |sorted| ==> !InOrder(sorted[k], r)
    ensures Sorted(Inserted(sorted, k, r)) && multiset(Inserted(sorted, k, r)) == multiset(sorted) + multiset{r}
  {
    assert sorted == sorted[..k] + sorted[k..];
    forall i, j | 0 <= i < j < |sorted| + 1 ensures InOrder(Inserted(sorted, k, r)[i], Inserted(sorted, k, r)[j]) {
      InsertedInOrder(sorted, k, r, i, j);
    }
  }

  function Inserted(sorted: seq<Record>, k: nat, r: Record): (s: seq<Record>)
    requires k <= |sorted|
    ensures |s| == |sorted| + 1
  {
    sorted[..k] + [r] + sorted[k..]
  }

  lemma InsertedInOrder(sorted: seq<Record>, k: nat, r: Record, i: nat, j: nat)
    requires Sorted(sorted) && k <= |sorted| && i < j <= |sorted|
    requires forall j :: 0 <= j < k ==> InOrder(sorted[j], r)
    requires k < |sorted| ==> !InOrder(sorted[k], r)
    ensures InOrder(Inserted(sorted, k, r)[i], Inserted(sorted, k, r)[j])
  {
    var a := if i < k then i else i - 1;
    var b := if j < k then j else j - 1;
    if i == k {
      assert b == k || InOrder(sorted[k], sorted[b]);
    } else if j != k {
      assert InOrder(sorted[a], sorted[b]);
    }
  }
}
