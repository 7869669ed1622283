/** The directory of a BMFS disk as a value: 64 records, ended by the first record with an empty name.

  A file's extent is the run of blocks it reserves.  `Create` searches the gaps between the extents, in a sorted
  copy of the directory, in unsigned arithmetic.
 */
module Directory {
  import opened Common
  const SLOTS: nat := 64
  const NAME_SIZE: nat := 32
  const DELETED: char := 1 as char

  /** `name` is the file name up to its terminating zero; empty: end of the directory. */
  datatype Record = Record(name: string, start: nat, reserved: nat, size: nat)

  predicate IsEnd(r: Record) {
    r.name == ""
  }

  predicate IsDeleted(r: Record) {
    r.name != "" && r.name[0] == DELETED
  }

  predicate IsLive(r: Record) {
    !IsEnd(r) && !IsDeleted(r)
  }

  /** The names that a record can hold and that are neither marker. */
  predicate ValidName(name: string) {
    0 < |name| < NAME_SIZE && name[0] != DELETED
  }

  /** How many records are before the end marker. */
  function Used(dir: seq<Record>): (n: nat)
    ensures n <= |dir| && (forall i :: 0 <= i < n ==> !IsEnd(dir[i])) && (n < |dir| ==> IsEnd(dir[n]))
  {
    if dir == [] || IsEnd(dir[0]) then 0 else 1 + Used(dir[1..])
  }

  lemma UsedIs(dir: seq<Record>, n: nat)
    requires n <= |dir| && (forall i :: 0 <= i < n ==> !IsEnd(dir[i])) && (n < |dir| ==> IsEnd(dir[n]))
    ensures Used(dir) == n
  {
  }

  /** The slot of the live record with this name before the end marker, or the length of the directory. */
  ghost predicate FoundAt(dir: seq<Record>, name: string, i: nat) {
    if i < |dir| then
      i < Used(dir) && IsLive(dir[i]) && dir[i].name == name
      && forall j :: 0 <= j < i ==> !(IsLive(dir[j]) && dir[j].name == name)
    else i == |dir| && forall j :: 0 <= j < Used(dir) ==> !(IsLive(dir[j]) && dir[j].name == name)
  }

  /** The first record that a new file may take: deleted, or the end marker. */
  ghost predicate FirstFree(dir: seq<Record>, slot: nat) {
    && slot <= Used(dir)
    && (slot < |dir| ==> !IsLive(dir[slot]))
    && forall j :: 0 <= j < slot ==> IsLive(dir[j])
  }

  // ---------------------------------------------------------------- the gap search

  function Sub64(a: int, b: int): nat {
    (a - b) % TWO64
  }

  function EndOf(r: Record): nat {
    r.start + r.reserved
  }

  /** The search from record `k` of the sorted copy on: the start of the new extent, 0 if there is none. */
  function GapFrom(sorted: seq<Record>, k: nat, prev: nat, blocks: nat, requested: nat): nat
    requires k <= |sorted|
    decreases |sorted| - k
  {
    var thisStart := if k == |sorted| || IsDeleted(sorted[k]) then blocks - 1 else sorted[k].start;
    if Sub64(thisStart, prev) >= requested then prev
    else if k < |sorted| then GapFrom(sorted, k + 1, Sum64(sorted[k].start, sorted[k].reserved), blocks, requested)
    else 0
  }

  /** Live records first, by starting block; the deleted ones behind them in any order. */
  predicate InOrder(a: Record, b: Record) {
    IsDeleted(b) || (!IsDeleted(a) && a.start <= b.start)
  }

  ghost predicate Sorted(s: seq<Record>) {
    forall i, j :: 0 <= i < j < |s| ==> InOrder(s[i], s[j])
  }

  ghost predicate IsSortOf(s: seq<Record>, records: seq<Record>) {
    Sorted(s) && multiset(s) == multiset(records)
  }

  datatype Outcome = Exists | NoSlot | NoSpace | Created(start: nat)

  /** `num_used_entries`: the position of the end marker, but 0 if there is none. */
  function NumUsed(dir: seq<Record>): (n: nat)
    ensures n <= |dir|
  {
    if Used(dir) < |dir| then Used(dir) else 0
  }

  /** What `create` does when the name is new, `slot` is free and the search answers `start`. */
  function Placed(dir: seq<Record>, slot: nat, name: string, start: nat, requested: nat): (r: seq<Record>)
    requires slot <= Used(dir) && slot < |dir|
    ensures |r| == |dir|
  {
    var placed := dir[slot := Record(name, start, requested, 0)];
    if slot == NumUsed(dir) && slot + 1 < |dir| then placed[slot + 1 := placed[slot + 1].(name := "")] else placed
  }

  /** `n` is the least number of blocks of 2 MiB that hold `size` MiB. */
  predicate HoldsLeast(n: nat, size: nat) {
    2 * n - 1 <= size <= 2 * n
  }

  /** The blocks to reserve: the size is made even in 64 bits, so the largest size of all needs none. */
  function Requested(maxsize: nat): (n: nat)
    ensures maxsize < TWO64 - 1 ==> HoldsLeast(n, maxsize) && forall m: nat :: HoldsLeast(m, maxsize) ==> m == n
    ensures maxsize == TWO64 - 1 ==> n == 0
  {
    (if maxsize % 2 != 0 then Sum64(maxsize, 1) else maxsize) / 2
  }

  // ---------------------------------------------------------------- extents

  predicate InBounds(r: Record, blocks: nat) {
    1 <= r.start && 1 <= r.reserved && EndOf(r) <= blocks - 1
  }

  predicate Apart(start: nat, length: nat, r: Record) {
    start + length <= r.start || EndOf(r) <= start
  }

  /** The extents of all records, deleted ones too, are blocks of the disk. */
  ghost predicate Bounded(records: seq<Record>, blocks: nat) {
    forall i :: 0 <= i < |records| ==> InBounds(records[i], blocks)
  }

  /** No two files share a block. */
  ghost predicate Disjoint(records: seq<Record>) {
    forall i, j :: 0 <= i < j < |records| && IsLive(records[i]) && IsLive(records[j]) ==>
      Apart(records[i].start, records[i].reserved, records[j])
  }

  /** `length` blocks from `start` on are on the disk and belong to no file. */
  ghost predicate FreeExtent(records: seq<Record>, blocks: nat, start: nat, length: nat) {
    && 1 <= start && start + length <= blocks - 1
    && forall r :: r in records && IsLive(r) ==> Apart(start, length, r)
  }

  /** A deleted record whose old end leaves room for the request. */
  ghost predicate DeletedEndFits(records: seq<Record>, blocks: nat, requested: nat) {
    exists r :: r in records && IsDeleted(r) && EndOf(r) + requested <= blocks - 1
  }

  ghost predicate Files(records: seq<Record>) {
    forall i :: 0 <= i < |records| ==> !IsEnd(records[i])
  }

  lemma Sub64NoWrap(a: int, b: int)
    requires 0 <= b <= a < TWO64
    ensures Sub64(a, b) == a - b
  {
  }

  lemma EndFits(r: Record, blocks: nat)
    requires InBounds(r, blocks) && blocks < TWO64
    ensures Sum64(r.start, r.reserved) == EndOf(r)
  {
  }

  /** While live records are searched: nothing free below `prev`, no underflow, and the extents behind start at or after it. */
  ghost predicate Searching(s: seq<Record>, k: nat, prev: nat, blocks: nat, requested: nat)
    requires k <= |s|
  {
    && (forall i :: 0 <= i < k ==> IsLive(s[i]) && EndOf(s[i]) <= prev)
    && (forall i :: k <= i < |s| && IsLive(s[i]) ==> prev <= s[i].start)
    && 1 <= prev <= blocks - 1
    && forall p: nat :: p < prev ==> !FreeExtent(s, blocks, p, requested)
  }

  /** The search among the live records finds the lowest free extent; if there is none it goes on to the ends of deleted ones. */
  lemma {:induction false} GapIsLowest(s: seq<Record>, k: nat, prev: nat, blocks: nat, requested: nat)
    requires k <= |s| && Sorted(s) && Files(s) && Bounded(s, blocks) && Disjoint(s)
    requires requested >= 1 && blocks < TWO64
    requires Searching(s, k, prev, blocks, requested)
    ensures var r := GapFrom(s, k, prev, blocks, requested);
            if exists p: nat :: FreeExtent(s, blocks, p, requested) then
              FreeExtent(s, blocks, r, requested) && forall p: nat :: p < r ==> !FreeExtent(s, blocks, p, requested)
            else
              (r != 0 <==> DeletedEndFits(s, blocks, requested)) && (r != 0 ==> r + requested <= blocks - 1)
    decreases |s| - k
  {
    if k < |s| && !IsDeleted(s[k]) {
      Sub64NoWrap(s[k].start, prev);
      if s[k].start - prev >= requested {
        FitsBefore(s, k, prev, blocks, requested);
      } else {
        NextRecord(s, k, prev, blocks, requested);
        EndFits(s[k], blocks);
        GapIsLowest(s, k + 1, EndOf(s[k]), blocks, requested);
      }
    } else {
      Sub64NoWrap(blocks - 1, prev);
      if blocks - 1 - prev >= requested {
        FitsBefore(s, k, prev, blocks, requested);
      } else {
        NothingFree(s, k, prev, blocks, requested);
        DeletedRest(s, k);
        if k < |s| {
          EndFits(s[k], blocks);
          DeletedEnds(s, k, blocks, requested);
        } else {
          assert forall r :: r in s ==> IsLive(r);
        }
      }
    }
  }

  lemma FitsBefore(s: seq<Record>, k: nat, prev: nat, blocks: nat, requested: nat)
    requires k <= |s| && Sorted(s) && Files(s) && Bounded(s, blocks) && Searching(s, k, prev, blocks, requested)
    requires if k < |s| && !IsDeleted(s[k]) then prev + requested <= s[k].start else prev + requested <= blocks - 1
    ensures FreeExtent(s, blocks, prev, requested)
  {
    forall r | r in s && IsLive(r) ensures Apart(prev, requested, r) {
      var i :| 0 <= i < |s| && s[i] == r;
      if i > k { assert InOrder(s[k], s[i]); }
    }
    if k < |s| { assert InBounds(s[k], blocks); }
  }

  lemma NextRecord(s: seq<Record>, k: nat, prev: nat, blocks: nat, requested: nat)
    requires k < |s| && Sorted(s) && Files(s) && Bounded(s, blocks) && Disjoint(s) && requested >= 1
    requires Searching(s, k, prev, blocks, requested) && !IsDeleted(s[k]) && s[k].start - prev < requested
    ensures Searching(s, k + 1, EndOf(s[k]), blocks, requested)
  {
    assert InBounds(s[k], blocks) && IsLive(s[k]);
    forall i | k + 1 <= i < |s| && IsLive(s[i]) ensures EndOf(s[k]) <= s[i].start {
      assert InOrder(s[k], s[i]) && Apart(s[k].start, s[k].reserved, s[i]) && InBounds(s[i], blocks);
    }
    forall p: nat | p < EndOf(s[k]) ensures !FreeExtent(s, blocks, p, requested) {
      assert s[k] in s;
      assert p >= prev ==> !Apart(p, requested, s[k]);
    }
  }

  lemma NothingFree(s: seq<Record>, k: nat, prev: nat, blocks: nat, requested: nat)
    requires k <= |s| && Searching(s, k, prev, blocks, requested) && blocks - 1 - prev < requested
    ensures forall p: nat :: !FreeExtent(s, blocks, p, requested)
  {
  }

  lemma DeletedRest(s: seq<Record>, k: nat)
    requires k <= |s| && Sorted(s) && (k < |s| ==> IsDeleted(s[k]))
    ensures forall i :: k <= i < |s| ==> IsDeleted(s[i])
  {
    forall i | k < i < |s| ensures IsDeleted(s[i]) {
      assert InOrder(s[k], s[i]);
    }
  }

  /** Among deleted records the search looks at the ends of their old extents, one after the other. */
  lemma {:induction false} DeletedEnds(s: seq<Record>, k: nat, blocks: nat, requested: nat)
    requires k < |s| && Bounded(s, blocks) && blocks < TWO64 && requested >= 1
    requires forall i :: k <= i < |s| ==> IsDeleted(s[i])
    ensures var r := GapFrom(s, k + 1, EndOf(s[k]), blocks, requested);
            && (r != 0 <==> exists i :: k <= i < |s| && EndOf(s[i]) + requested <= blocks - 1)
            && (r != 0 ==> r + requested <= blocks - 1)
    decreases |s| - k
  {
    assert InBounds(s[k], blocks);
    Sub64NoWrap(blocks - 1, EndOf(s[k]));
    if k + 1 < |s| {
      EndFits(s[k + 1], blocks);
      DeletedEnds(s, k + 1, blocks, requested);
    }
  }

  // ---------------------------------------------------------------- sorting changes nothing

  lemma {:induction false} TwoIndices(s: seq<Record>, x: Record) returns (i: nat, j: nat)
    requires multiset(s)[x] >= 2
    ensures i < j < |s| && s[i] == x && s[j] == x
  {
    var rest, n := s[..|s| - 1], |s| - 1;
    assert s == rest + [s[n]];
    if s[n] == x {
      assert multiset(rest)[x] >= 1;
      assert x in rest;
      i :| 0 <= i < |rest| && rest[i] == x;
      j := n;
    } else {
      assert multiset(rest)[x] >= 2;
      i, j := TwoIndices(rest, x);
    }
  }

  lemma Repeated(s: seq<Record>, i: nat, j: nat)
    requires i < j < |s| && s[i] == s[j]
    ensures multiset(s)[s[i]] >= 2
  {
    assert s == s[..j] + s[j..];
    assert s[i] in s[..j] && s[j] in s[j..];
    assert multiset(s) == multiset(s[..j]) + multiset(s[j..]);
  }

  lemma SortKeeps(s: seq<Record>, records: seq<Record>, blocks: nat)
    requires multiset(s) == multiset(records)
    requires Bounded(records, blocks) && Disjoint(records) && Files(records)
    ensures Bounded(s, blocks) && Disjoint(s) && Files(s)
    ensures forall r :: r in s <==> r in records
  {
    forall r ensures r in s <==> r in records {
      assert r in multiset(s) <==> r in multiset(records);
    }
    forall i | 0 <= i < |s| ensures InBounds(s[i], blocks) && !IsEnd(s[i]) {
      assert s[i] in s;
      var j :| 0 <= j < |records| && records[j] == s[i];
      assert InBounds(records[j], blocks);
    }
    forall i, j | 0 <= i < j < |s| && IsLive(s[i]) && IsLive(s[j]) ensures Apart(s[i].start, s[i].reserved, s[j]) {
      var i', j': nat;
      if s[i] == s[j] {
        Repeated(s, i, j);
        i', j' := TwoIndices(records, s[i]);
      } else {
        assert s[i] in s && s[j] in s;
        i' :| 0 <= i' < |records| && records[i'] == s[i];
        j' :| 0 <= j' < |records| && records[j'] == s[j];
      }
      assert if i' < j' then Apart(records[i'].start, records[i'].reserved, records[j'])
             else Apart(records[j'].start, records[j'].reserved, records[i']);
    }
  }

  lemma FreeExtentKeeps(s: seq<Record>, records: seq<Record>, blocks: nat, requested: nat)
    requires forall r :: r in s <==> r in records
    ensures forall p: nat :: FreeExtent(s, blocks, p, requested) <==> FreeExtent(records, blocks, p, requested)
    ensures DeletedEndFits(s, blocks, requested) <==> DeletedEndFits(records, blocks, requested)
  {
  }

  // ---------------------------------------------------------------- create, delete and the extents

  /** The records before the end marker. */
  function Head(dir: seq<Record>): (r: seq<Record>)
    ensures |r| == Used(dir) <= |dir|
  {
    dir[..Used(dir)]
  }

  lemma PlacedHead(dir: seq<Record>, slot: nat, name: string, start: nat, requested: nat)
    requires slot <= Used(dir) < |dir| && ValidName(name)
    ensures var new_ := Record(name, start, requested, 0);
            Head(Placed(dir, slot, name, start, requested))
            == if slot < Used(dir) then Head(dir)[slot := new_] else Head(dir) + [new_]
  {
    hide Used;
    var n, r, new_ := Used(dir), Placed(dir, slot, name, start, requested), Record(name, start, requested, 0);
    if slot < n {
      assert r == dir[slot := new_];
      hide Placed;
      PlacedWithin(dir, r, slot, new_, n);
    } else {
      hide ValidName, IsLive;
      PlacedBehind(dir, r, new_, n);
    }
  }

  lemma PlacedWithin(dir: seq<Record>, r: seq<Record>, slot: nat, new_: Record, n: nat)
    requires slot < n <= |dir| && !IsEnd(new_) && r == dir[slot := new_]
    requires (forall i :: 0 <= i < n ==> !IsEnd(dir[i])) && (n < |dir| ==> IsEnd(dir[n]))
    ensures Head(r) == dir[..n][slot := new_]
  {
    UsedIs(r, n);
  }

  lemma PlacedBehind(dir: seq<Record>, r: seq<Record>, new_: Record, n: nat)
    requires n < |dir| == |r| && !IsEnd(new_) && r[n] == new_ && (n + 1 < |dir| ==> IsEnd(r[n + 1]))
    requires forall i :: 0 <= i < n ==> !IsEnd(dir[i]) && r[i] == dir[i]
    ensures Head(r) == dir[..n] + [new_]
  {
    UsedIs(r, n + 1);
  }

  /** A new file keeps the files apart exactly if its blocks were free. */
  lemma PlacedDisjoint(head: seq<Record>, slot: nat, blocks: nat, new_: Record)
    requires Disjoint(head) && Bounded(head, blocks) && slot <= |head| && (slot < |head| ==> !IsLive(head[slot]))
    requires InBounds(new_, blocks) && IsLive(new_)
    ensures var after := if slot < |head| then head[slot := new_] else head + [new_];
            && Bounded(after, blocks)
            && (Disjoint(after) <==> FreeExtent(head, blocks, new_.start, new_.reserved))
  {
    var after := if slot < |head| then head[slot := new_] else head + [new_];
    if FreeExtent(head, blocks, new_.start, new_.reserved) {
      forall i, j | 0 <= i < j < |after| && IsLive(after[i]) && IsLive(after[j])
        ensures Apart(after[i].start, after[i].reserved, after[j]) {
        if i == slot { assert after[j] in head; }
        else if j == slot { assert after[i] in head; }
        else { assert Apart(head[i].start, head[i].reserved, head[j]); }
      }
    }
    if Disjoint(after) {
      forall r | r in head && IsLive(r) ensures Apart(new_.start, new_.reserved, r) {
        var i :| 0 <= i < |head| && head[i] == r;
        assert i != slot && after[i] == r && after[slot] == new_;
        assert if i < slot then Apart(after[i].start, after[i].reserved, after[slot])
               else Apart(after[slot].start, after[slot].reserved, after[i]);
      }
    }
  }

  ghost predicate Room(records: seq<Record>, blocks: nat, requested: nat) {
    exists p: nat :: FreeExtent(records, blocks, p, requested)
  }

  /** The new directory of `create`, given what the search answers. */
  function AfterCreate(dir: seq<Record>, slot: nat, name: string, start: nat, requested: nat): seq<Record>
    requires slot <= Used(dir) && slot < |dir|
  {
    if start == 0 then dir else Placed(dir, slot, name, start, requested)
  }

  /** `create` on an end-marked directory: it takes the lowest free extent if there is one.  If there is none it leaves the
    directory alone, unless the old end of a deleted record leaves room: then, and only then, files overlap. */
  lemma CreateKeepsDisjointIff(dir: seq<Record>, blocks: nat, name: string, requested: nat, sorted: seq<Record>, slot: nat)
    requires Used(dir) < |dir| && Bounded(Head(dir), blocks) && Disjoint(Head(dir))
    requires IsSortOf(sorted, Head(dir)) && FirstFree(dir, slot) && ValidName(name)
    requires 2 <= blocks < TWO64 && requested >= 1
    ensures var start := GapFrom(sorted, 0, 1, blocks, requested);
            var after := AfterCreate(dir, slot, name, start, requested);
            && Bounded(Head(after), blocks)
            && (Room(Head(dir), blocks, requested) ==>
                  FreeExtent(Head(dir), blocks, start, requested)
                  && forall p: nat :: p < start ==> !FreeExtent(Head(dir), blocks, p, requested))
            && (start == 0 <==> !Room(Head(dir), blocks, requested) && !DeletedEndFits(Head(dir), blocks, requested))
            && (Disjoint(Head(after)) <==>
                  Room(Head(dir), blocks, requested) || !DeletedEndFits(Head(dir), blocks, requested))
  {
    var head := Head(dir);
    var start := GapFrom(sorted, 0, 1, blocks, requested);
    SortKeeps(sorted, head, blocks);
    FreeExtentKeeps(sorted, head, blocks, requested);
    StartSearching(sorted, blocks, requested);
    GapIsLowest(sorted, 0, 1, blocks, requested);
    assert Room(head, blocks, requested) <==> exists p: nat :: FreeExtent(sorted, blocks, p, requested);
    if start != 0 {
      var new_ := Record(name, start, requested, 0);
      PlacedHead(dir, slot, name, start, requested);
      PlacedDisjoint(head, slot, blocks, new_);
    }
  }

  lemma StartSearching(s: seq<Record>, blocks: nat, requested: nat)
    requires Bounded(s, blocks) && 2 <= blocks
    ensures Searching(s, 0, 1, blocks, requested)
  {
    forall i | 0 <= i < |s| ensures 1 <= s[i].start {
      assert InBounds(s[i], blocks);
    }
  }

  /** A directory of 64 records that starts with the given ones and has nothing behind them. */
  function Padded(records: seq<Record>): (dir: seq<Record>)
    requires |records| <= SLOTS
    ensures |dir| == SLOTS
  {
    records + seq(SLOTS - |records|, _ => Record("", 0, 0, 0))
  }

  lemma PaddedHead(records: seq<Record>)
    requires |records| < SLOTS && forall i :: 0 <= i < |records| ==> !IsEnd(records[i])
    ensures Used(Padded(records)) == |records| && Head(Padded(records)) == records
  {
    UsedIs(Padded(records), |records|);
  }

  /** The overlap happens: a file of 4 blocks, a deleted one whose extent ended at block 2, and a request for 6 blocks
    on a disk of 10. */
  lemma OverlapExample()
    ensures var records := [Record("a", 1, 4, 0), Record([DELETED], 1, 1, 0)];
            && Head(Padded(records)) == records && FirstFree(Padded(records), 1)
            && Bounded(records, 10) && Disjoint(records) && IsSortOf(records, records)
            && !Disjoint(Head(AfterCreate(Padded(records), 1, "b", GapFrom(records, 0, 1, 10, 6), 6)))
  {
    var a, d := Record("a", 1, 4, 0), Record([DELETED], 1, 1, 0);
    var records := [a, d];
    PaddedHead(records);
    NoRoomBeside(records, a);
    assert d in records && EndOf(d) + 6 <= 9;
    hide Used, Padded, Head, GapFrom, AfterCreate;
    CreateKeepsDisjointIff(Padded(records), 10, "b", 6, records, 1);
  }

  lemma NoRoomBeside(records: seq<Record>, a: Record)
    requires a in records && a == Record("a", 1, 4, 0)
    ensures forall p: nat :: !FreeExtent(records, 10, p, 6)
  {
    assert forall p: nat :: !Apart(p, 6, a) || p + 6 > 9 || p < 1;
  }

  function Deleted(dir: seq<Record>, i: nat): (r: seq<Record>)
    requires i < |dir| && !IsEnd(dir[i])
    ensures |r| == |dir| && IsDeleted(r[i]) && r[i] == dir[i].(name := r[i].name) && r[i].name[1..] == dir[i].name[1..]
    ensures forall j :: 0 <= j < |dir| && j != i ==> r[j] == dir[j]
  {
    dir[i := dir[i].(name := [DELETED] + dir[i].name[1..])]
  }

  /** What `create` answers on a disk of whole blocks, in a directory with an end marker whose files are apart: the new record, in
    slot `slot`, reserves the least number of blocks for the size, from the lowest block on where as many are free; and there is
    no space exactly if nowhere as many are free, nor behind the old end of a deleted record. */
  ghost predicate CreatesLeast(dir: seq<Record>, blocks: nat, name: string, size: nat, outcome: Outcome, slot: nat, after: seq<Record>) {
    forall n: nat :: HoldsLeast(n, size) ==>
      && (outcome.NoSpace? ==> after == dir && !Room(Head(dir), blocks, n) && !DeletedEndFits(Head(dir), blocks, n))
      && (outcome.Created? ==>
            && slot < |after| && after[slot] == Record(name, outcome.start, n, 0)
            && (Room(Head(dir), blocks, n) || DeletedEndFits(Head(dir), blocks, n))
            && (Room(Head(dir), blocks, n) ==>
                  && FreeExtent(Head(dir), blocks, outcome.start, n)
                  && forall p: nat :: p < outcome.start ==> !FreeExtent(Head(dir), blocks, p, n)))
  }

  lemma CreateCreatesLeast(dir: seq<Record>, blocks: nat, name: string, size: nat, sorted: seq<Record>, slot: nat, outcome: Outcome, after: seq<Record>)
    requires Used(dir) < |dir| && Bounded(Head(dir), blocks) && Disjoint(Head(dir))
    requires IsSortOf(sorted, Head(dir)) && FirstFree(dir, slot) && ValidName(name) && slot < |dir|
    requires 2 <= blocks < TWO64 && 1 <= size < TWO64 - 1
    requires var start := GapFrom(sorted, 0, 1, blocks, Requested(size));
             && outcome == (if start == 0 then NoSpace else Created(start))
             && after == AfterCreate(dir, slot, name, start, Requested(size))
    ensures CreatesLeast(dir, blocks, name, size, outcome, slot, after)
  {
    hide Used, GapFrom, Sorted, Head, Disjoint, Bounded;
    CreateKeepsDisjointIff(dir, blocks, name, Requested(size), sorted, slot);
    hide FreeExtent, DeletedEndFits, Requested, Room;
    assert forall n: nat :: HoldsLeast(n, size) ==> n == Requested(size);
  }

  /** `delete` gives the file's blocks back and keeps the others where they are. */
  lemma DeleteKeepsExtents(dir: seq<Record>, i: nat, blocks: nat)
    requires i < Used(dir) && Bounded(Head(dir), blocks) && Disjoint(Head(dir))
    ensures Used(Deleted(dir, i)) == Used(dir)
    ensures Bounded(Head(Deleted(dir, i)), blocks) && Disjoint(Head(Deleted(dir, i)))
  {
    var r := Deleted(dir, i);
    UsedIs(r, Used(dir));
    assert forall j :: 0 <= j < Used(dir) && j != i ==> Head(r)[j] == Head(dir)[j];
    forall j, k | 0 <= j < k < |Head(r)| && IsLive(Head(r)[j]) && IsLive(Head(r)[k])
      ensures Apart(Head(r)[j].start, Head(r)[j].reserved, Head(r)[k]) {
      assert Apart(Head(dir)[j].start, Head(dir)[j].reserved, Head(dir)[k]);
    }
    forall j | 0 <= j < |Head(r)| ensures InBounds(Head(r)[j], blocks) {
      assert InBounds(Head(dir)[j], blocks);
    }
  }

  /** Without an end marker `create` takes no file into account: it puts the new one at block 1 if the disk is large enough.
    Files overlap then unless those blocks were free, or all of them are lost because slot 0 was free. */
  lemma UnmarkedCreate(dir: seq<Record>, blocks: nat, name: string, requested: nat, slot: nat)
    requires Used(dir) == |dir| && Bounded(dir, blocks) && Disjoint(dir)
    requires FirstFree(dir, slot) && slot < |dir| && ValidName(name)
    requires 2 <= blocks < TWO64 && requested >= 1
    ensures var start := GapFrom(dir[..NumUsed(dir)], 0, 1, blocks, requested);
            var after := AfterCreate(dir, slot, name, start, requested);
            && start == (if 1 + requested <= blocks - 1 then 1 else 0)
            && (start != 0 ==> (Disjoint(Head(after)) <==> slot == 0 || FreeExtent(dir, blocks, 1, requested)))
            && (start != 0 && slot == 0 ==> Head(after) == [Record(name, 1, requested, 0)])
  {
    hide Used;
    assert dir[..NumUsed(dir)] == [];
    Sub64NoWrap(blocks - 1, 1);
    if 1 + requested <= blocks - 1 {
      var new_ := Record(name, 1, requested, 0);
      UnmarkedHead(dir, slot, name, 1, requested);
      assert slot < |dir| && !IsLive(dir[slot]);
      hide Head, Placed, FreeExtent;
      if slot > 0 {
        PlacedDisjoint(dir, slot, blocks, new_);
      }
    }
  }

  lemma UnmarkedHead(dir: seq<Record>, slot: nat, name: string, start: nat, requested: nat)
    requires Used(dir) == |dir| && slot < |dir| && ValidName(name)
    ensures var after := Head(Placed(dir, slot, name, start, requested));
            after == if slot > 0 then dir[slot := Record(name, start, requested, 0)] else [Record(name, start, requested, 0)]
  {
    var r := Placed(dir, slot, name, start, requested);
    if slot > 0 {
      UsedIs(r, |dir|);
    } else {
      UsedIs(r, 1);
    }
  }

  // ---------------------------------------------------------------- the directory as a map

  ghost predicate UniqueNames(head: seq<Record>) {
    forall i, j :: 0 <= i < j < |head| && IsLive(head[i]) && IsLive(head[j]) ==> head[i].name != head[j].name
  }

  /** The files by name. */
  function FileMap(head: seq<Record>): map<string, Record> {
    if head == [] then map[]
    else
      var m, r := FileMap(head[..|head| - 1]), head[|head| - 1];
      if IsLive(r) then m[r.name := r] else m
  }

  ghost predicate Refines(head: seq<Record>, m: map<string, Record>) {
    && (forall i :: 0 <= i < |head| && IsLive(head[i]) ==> head[i].name in m && m[head[i].name] == head[i])
    && (forall name :: name in m ==> exists i :: 0 <= i < |head| && IsLive(head[i]) && head[i].name == name)
  }

  lemma {:induction false} FileMapRefines(head: seq<Record>)
    requires UniqueNames(head)
    ensures Refines(head, FileMap(head))
  {
    if head != [] {
      var n, init := |head| - 1, head[..|head| - 1];
      FileMapRefines(init);
      forall name | name in FileMap(head) ensures exists i :: 0 <= i < |head| && IsLive(head[i]) && head[i].name == name {
        if name in FileMap(init) {
          var i :| 0 <= i < |init| && IsLive(init[i]) && init[i].name == name;
          assert head[i] == init[i];
        } else {
          assert head[n].name == name;
        }
      }
      forall i | 0 <= i < |head| && IsLive(head[i]) ensures head[i].name in FileMap(head) && FileMap(head)[head[i].name] == head[i] {
        if i < n { assert init[i] == head[i]; }
      }
    }
  }

  lemma RefinesDetermines(head: seq<Record>, m: map<string, Record>)
    requires UniqueNames(head) && Refines(head, m)
    ensures m == FileMap(head)
  {
    FileMapRefines(head);
    var f := FileMap(head);
    forall name | name in m || name in f ensures name in m && name in f && m[name] == f[name] {
      var i :| 0 <= i < |head| && IsLive(head[i]) && head[i].name == name;
    }
  }

  /** findfile is lookup in the map. */
  lemma FindRefines(dir: seq<Record>, name: string, i: nat)
    requires UniqueNames(Head(dir)) && FoundAt(dir, name, i)
    ensures i < |dir| <==> name in FileMap(Head(dir))
    ensures i < |dir| ==> dir[i] == FileMap(Head(dir))[name]
  {
    FileMapRefines(Head(dir));
    assert forall j :: 0 <= j < |Head(dir)| ==> Head(dir)[j] == dir[j];
    assert i < |dir| ==> Head(dir)[i] == dir[i];
  }

  /** A new file is a new key and nothing else in the map changes, exactly if the directory has an end marker, or the new record
    does not take slot 0, or there was no file.  Otherwise all other files are lost. */
  lemma CreateUpdatesMapIff(dir: seq<Record>, slot: nat, name: string, start: nat, requested: nat)
    requires FirstFree(dir, slot) && slot < |dir| && ValidName(name) && start != 0
    requires UniqueNames(Head(dir)) && name !in FileMap(Head(dir))
    ensures var after, new_ := Head(AfterCreate(dir, slot, name, start, requested)), Record(name, start, requested, 0);
            && UniqueNames(after)
            && (FileMap(after) == FileMap(Head(dir))[name := new_] <==>
                  Used(dir) < |dir| || slot > 0 || FileMap(Head(dir)) == map[])
            && (Used(dir) == |dir| && slot == 0 ==> FileMap(after) == map[name := new_])
  {
    hide Used, FileMap, Placed;
    var head, new_ := Head(dir), Record(name, start, requested, 0);
    if Used(dir) < |dir| || slot > 0 {
      HeadAfterPlacing(dir, slot, name, start, requested);
      hide Head, FirstFree;
      CreateUpdatesMap(head, slot, new_);
    } else {
      UnmarkedHead(dir, slot, name, start, requested);
      hide Head;
      OneFile(new_);
      LosesOthers(FileMap(head), new_);
    }
  }

  lemma HeadAfterPlacing(dir: seq<Record>, slot: nat, name: string, start: nat, requested: nat)
    requires FirstFree(dir, slot) && slot < |dir| && ValidName(name) && (Used(dir) < |dir| || slot > 0)
    ensures var head, new_ := Head(dir), Record(name, start, requested, 0);
            && slot <= |head| && (slot < |head| ==> !IsLive(head[slot]))
            && Head(Placed(dir, slot, name, start, requested)) == if slot < |head| then head[slot := new_] else head + [new_]
  {
    hide Used, Placed;
    if Used(dir) < |dir| {
      PlacedHead(dir, slot, name, start, requested);
    } else {
      UnmarkedHead(dir, slot, name, start, requested);
      assert Head(dir) == dir;
    }
  }

  lemma OneFile(r: Record)
    requires IsLive(r)
    ensures UniqueNames([r]) && FileMap([r]) == map[r.name := r]
  {
    assert [r][..0] == [];
    assert FileMap([]) == map[];
  }

  lemma LosesOthers(m: map<string, Record>, new_: Record)
    requires new_.name !in m
    ensures map[new_.name := new_] == m[new_.name := new_] <==> m == map[]
  {
    if m != map[] {
      var other :| other in m;
      assert other in m[new_.name := new_] && other !in map[new_.name := new_];
    }
  }

  lemma CreateUpdatesMap(head: seq<Record>, slot: nat, new_: Record)
    requires UniqueNames(head) && new_.name !in FileMap(head) && IsLive(new_)
    requires slot <= |head| && (slot < |head| ==> !IsLive(head[slot]))
    ensures var after := if slot < |head| then head[slot := new_] else head + [new_];
            UniqueNames(after) && FileMap(after) == FileMap(head)[new_.name := new_]
  {
    FileMapRefines(head);
    hide FileMap;
    RefinesAfterPlacing(head, slot, new_, FileMap(head));
    RefinesDetermines(if slot < |head| then head[slot := new_] else head + [new_], FileMap(head)[new_.name := new_]);
  }

  /** 64 files of one block each, of which the `k`-th is deleted. */
  function FullDirectory(k: nat): (dir: seq<Record>)
    requires k < SLOTS
    ensures |dir| == SLOTS && !IsLive(dir[k]) && forall i :: 0 <= i < SLOTS && i != k ==> IsLive(dir[i])
    ensures forall i :: 0 <= i < SLOTS ==> dir[i].start == 1 + i && dir[i].reserved == 1 && !IsEnd(dir[i])
    ensures forall i :: 0 <= i < SLOTS ==> |dir[i].name| == 1 && (i != k ==> dir[i].name[0] == (65 + i) as char)
  {
    seq(SLOTS, i requires 0 <= i < SLOTS => Record([if i == k then DELETED else (65 + i) as char], 1 + i, 1, 0))
  }

  lemma FullDirectoryFacts(k: nat)
    requires k < SLOTS
    ensures var dir := FullDirectory(k);
            && Used(dir) == |dir| && Head(dir) == dir && FirstFree(dir, k)
            && Bounded(dir, 100) && Disjoint(dir) && UniqueNames(dir)
  {
    var dir := FullDirectory(k);
    hide FullDirectory;
    UsedIs(dir, SLOTS);
    forall i, j | 0 <= i < j < |dir| && IsLive(dir[i]) && IsLive(dir[j]) ensures dir[i].name != dir[j].name {
      assert dir[i].name[0] != dir[j].name[0];
    }
  }

  /** With slot 1 deleted in a full directory, a new file is put on the block of the file in slot 0. */
  lemma UnmarkedOverlapExample()
    ensures var dir := FullDirectory(1);
            && Disjoint(Head(dir)) && FirstFree(dir, 1)
            && !Disjoint(Head(AfterCreate(dir, 1, "new", GapFrom(dir[..NumUsed(dir)], 0, 1, 100, 1), 1)))
  {
    var dir := FullDirectory(1);
    FullDirectoryFacts(1);
    assert dir[0] in dir && !Apart(1, 1, dir[0]);
    hide FullDirectory, Used, Head, GapFrom, AfterCreate, NumUsed, Disjoint, Bounded;
    UnmarkedCreate(dir, 100, "new", 1, 1);
  }

  /** With slot 0 deleted in a full directory, a new file is the only one left. */
  lemma LosingExample()
    ensures var dir := FullDirectory(0);
            && [66 as char] in FileMap(Head(dir)) && FirstFree(dir, 0)
            && FileMap(Head(AfterCreate(dir, 0, "new", GapFrom(dir[..NumUsed(dir)], 0, 1, 100, 1), 1)))
               == map["new" := Record("new", 1, 1, 0)]
  {
    hide FullDirectory, FileMap, Head, AfterCreate, GapFrom, NumUsed, FirstFree;
    Losing(FullDirectory(0), "new");
  }

  lemma Losing(dir: seq<Record>, name: string)
    requires dir == FullDirectory(0) && name == "new"
    ensures [66 as char] in FileMap(Head(dir)) && FirstFree(dir, 0)
    ensures FileMap(Head(AfterCreate(dir, 0, name, GapFrom(dir[..NumUsed(dir)], 0, 1, 100, 1), 1)))
            == map[name := Record(name, 1, 1, 0)]
  {
    FullDirectoryFacts(0);
    NamesInFull(dir, name);
    hide FullDirectory, Used, Head, GapFrom, AfterCreate, NumUsed, Disjoint, Bounded, FileMap, UniqueNames, FirstFree;
    UnmarkedCreate(dir, 100, name, 1, 0);
    CreateUpdatesMapIff(dir, 0, name, 1, 1);
  }

  lemma NamesInFull(dir: seq<Record>, name: string)
    requires dir == FullDirectory(0) && name == "new" && UniqueNames(dir)
    ensures [66 as char] in FileMap(dir) && name !in FileMap(dir) && ValidName(name)
  {
    hide FullDirectory, FileMap;
    FileMapRefines(dir);
    assert dir[1].name == [66 as char];
    assert dir[1].name in FileMap(dir);
    forall i | 0 <= i < |dir| ensures dir[i].name != name {
      assert |dir[i].name| == 1;
    }
  }

  lemma RefinesAfterPlacing(head: seq<Record>, slot: nat, new_: Record, m: map<string, Record>)
    requires UniqueNames(head) && Refines(head, m) && new_.name !in m && IsLive(new_)
    requires slot <= |head| && (slot < |head| ==> !IsLive(head[slot]))
    ensures var after := if slot < |head| then head[slot := new_] else head + [new_];
            UniqueNames(after) && Refines(after, m[new_.name := new_])
  {
    hide IsLive;
    var after := if slot < |head| then head[slot := new_] else head + [new_];
    assert forall i :: 0 <= i < |head| && i != slot ==> after[i] == head[i];
    assert after[slot] == new_;
    var m' := m[new_.name := new_];
    forall name | name in m' ensures exists i :: 0 <= i < |after| && IsLive(after[i]) && after[i].name == name {
      if name != new_.name {
        var i :| 0 <= i < |head| && IsLive(head[i]) && head[i].name == name;
        assert after[i] == head[i];
      }
    }
  }

  /** Deleting a file removes its key. */
  lemma DeleteUpdatesMap(dir: seq<Record>, i: nat)
    requires i < Used(dir) && IsLive(dir[i]) && UniqueNames(Head(dir))
    ensures var after := Head(Deleted(dir, i));
            UniqueNames(after) && FileMap(after) == FileMap(Head(dir)) - {dir[i].name}
  {
    var head, r := Head(dir), Deleted(dir, i);
    UsedIs(r, Used(dir));
    FileMapRefines(head);
    assert Head(r) == head[i := r[i]] && IsDeleted(r[i]) && head[i] == dir[i];
    hide Used, FileMap, Head, Deleted, UniqueNames, Refines;
    RefinesAfterDeleting(head, i, r[i], FileMap(head));
    RefinesDetermines(head[i := r[i]], FileMap(head) - {dir[i].name});
  }

  lemma RefinesAfterDeleting(head: seq<Record>, i: nat, d: Record, m: map<string, Record>)
    requires UniqueNames(head) && Refines(head, m) && i < |head| && IsLive(head[i]) && IsDeleted(d)
    ensures UniqueNames(head[i := d]) && Refines(head[i := d], m - {head[i].name})
  {
    var after, m' := head[i := d], m - {head[i].name};
    forall name | name in m' ensures exists j :: 0 <= j < |after| && IsLive(after[j]) && after[j].name == name {
      var j :| 0 <= j < |head| && IsLive(head[j]) && head[j].name == name;
      assert after[j] == head[j];
    }
    forall j | 0 <= j < |after| && IsLive(after[j]) ensures after[j].name in m' && m'[after[j].name] == after[j] {
      assert after[j] == head[j];
      assert if i < j then head[i].name != head[j].name else head[j].name != head[i].name;
    }
  }

  // ---------------------------------------------------------------- runs

  datatype Op = DoCreate(name: string, requested: nat) | DoDelete(name: string)

  /** One command on the directory, whatever order the sort puts deleted records in. */
  ghost predicate Step(dir: seq<Record>, blocks: nat, op: Op, after: seq<Record>) {
    match op
    case DoCreate(name, requested) =>
      if name in FileMap(Head(dir)) then after == dir
      else exists slot, sorted :: FirstFree(dir, slot) && CreateStep(dir, blocks, name, requested, slot, sorted, after)
    case DoDelete(name) =>
      if name in FileMap(Head(dir)) then exists i: nat :: FoundAt(dir, name, i) && DeleteStep(dir, i, after)
      else after == dir
  }

  ghost predicate CreateStep(dir: seq<Record>, blocks: nat, name: string, requested: nat, slot: nat, sorted: seq<Record>, after: seq<Record>) {
    if slot >= |dir| then after == dir
    else
      && slot <= Used(dir) && IsSortOf(sorted, dir[..NumUsed(dir)])
      && after == AfterCreate(dir, slot, name, GapFrom(sorted, 0, 1, blocks, requested), requested)
  }

  ghost predicate DeleteStep(dir: seq<Record>, i: nat, after: seq<Record>) {
    i < Used(dir) && after == Deleted(dir, i)
  }

  ghost predicate Good(dir: seq<Record>, blocks: nat) {
    UniqueNames(Head(dir)) && Bounded(Head(dir), blocks) && Disjoint(Head(dir))
  }

  /** What a command needs: a proper name, an end marker before each create, and no deleted extent in the way. */
  ghost predicate Careful(dir: seq<Record>, blocks: nat, op: Op) {
    op.DoCreate? ==>
      && ValidName(op.name) && op.requested >= 1 && Used(dir) < |dir|
      && (Room(Head(dir), blocks, op.requested) || !DeletedEndFits(Head(dir), blocks, op.requested))
  }

  lemma StepKeeps(dir: seq<Record>, blocks: nat, op: Op, after: seq<Record>)
    requires 2 <= blocks < TWO64 && Good(dir, blocks) && Careful(dir, blocks, op) && Step(dir, blocks, op, after)
    ensures Good(after, blocks)
    ensures after != dir ==>
              match op
              case DoCreate(name, requested) =>
                exists start: nat :: FreeExtent(Head(dir), blocks, start, requested)
                  && FileMap(Head(after)) == FileMap(Head(dir))[name := Record(name, start, requested, 0)]
              case DoDelete(name) => FileMap(Head(after)) == FileMap(Head(dir)) - {name}
  {
    hide Used, FileMap, Placed, Head;
    if after != dir {
      match op {
        case DoCreate(name, requested) =>
          var slot, sorted :| FirstFree(dir, slot) && CreateStep(dir, blocks, name, requested, slot, sorted, after);
          var start := GapFrom(sorted, 0, 1, blocks, requested);
          HeadIsUsed(dir);
          CreateKeepsDisjointIff(dir, blocks, name, requested, sorted, slot);
          CreateUpdatesMapIff(dir, slot, name, start, requested);
        case DoDelete(name) =>
          var i: nat :| FoundAt(dir, name, i) && DeleteStep(dir, i, after);
          DeleteKeepsExtents(dir, i, blocks);
          DeleteUpdatesMap(dir, i);
      }
    }
  }

  lemma HeadIsUsed(dir: seq<Record>)
    requires Used(dir) < |dir|
    ensures dir[..NumUsed(dir)] == Head(dir)
  {
  }

  /** A proper name, and room for an end marker: there is one before each create, or slot 0 is taken, or there is no file. */
  ghost predicate Proper(dir: seq<Record>, op: Op) {
    op.DoCreate? ==> ValidName(op.name) && (Used(dir) < |dir| || (dir != [] && IsLive(dir[0])) || FileMap(Head(dir)) == map[])
  }

  /** A create adds its file, which was not there, or does nothing; a delete removes its file if it is there. */
  ghost predicate MapStep(m: map<string, Record>, op: Op, m': map<string, Record>) {
    match op
    case DoCreate(name, requested) =>
      m' == m || (name !in m && exists start: nat :: start != 0 && m' == m[name := Record(name, start, requested, 0)])
    case DoDelete(name) => m' == m - {name}
  }

  lemma CreateStepUpdatesMap(dir: seq<Record>, blocks: nat, name: string, requested: nat, after: seq<Record>)
    requires UniqueNames(Head(dir)) && Proper(dir, DoCreate(name, requested)) && Step(dir, blocks, DoCreate(name, requested), after)
    ensures UniqueNames(Head(after)) && MapStep(FileMap(Head(dir)), DoCreate(name, requested), FileMap(Head(after)))
  {
    hide Used, FileMap, Placed, Head, UniqueNames;
    if after != dir {
      var slot, sorted :| FirstFree(dir, slot) && CreateStep(dir, blocks, name, requested, slot, sorted, after);
      var start := GapFrom(sorted, 0, 1, blocks, requested);
      CreateUpdatesMapIff(dir, slot, name, start, requested);
    }
  }

  lemma DeleteStepUpdatesMap(dir: seq<Record>, blocks: nat, name: string, after: seq<Record>)
    requires UniqueNames(Head(dir)) && Step(dir, blocks, DoDelete(name), after)
    ensures UniqueNames(Head(after)) && MapStep(FileMap(Head(dir)), DoDelete(name), FileMap(Head(after)))
  {
    hide Used, FileMap, Head, UniqueNames;
    if name in FileMap(Head(dir)) {
      var i: nat :| FoundAt(dir, name, i) && DeleteStep(dir, i, after);
      DeleteUpdatesMap(dir, i);
    }
  }

  /** In every run of proper commands, wherever the files lie, the directory is a map from names to records at every time, and
    every command changes this map by its own file only. */
  lemma {:induction false} RunUpdatesMap(dirs: seq<seq<Record>>, ops: seq<Op>, blocks: nat)
    requires |dirs| == |ops| + 1 && UniqueNames(Head(dirs[0]))
    requires forall k :: 0 <= k < |ops| ==> Proper(dirs[k], ops[k]) && Step(dirs[k], blocks, ops[k], dirs[k + 1])
    ensures forall k :: 0 <= k <= |ops| ==> UniqueNames(Head(dirs[k]))
    ensures forall k :: 0 <= k < |ops| ==> MapStep(FileMap(Head(dirs[k])), ops[k], FileMap(Head(dirs[k + 1])))
    decreases |ops|
  {
    hide UniqueNames, Head, FileMap, MapStep, Proper, Step;
    if ops != [] {
      var n := |ops| - 1;
      RunUpdatesMap(dirs[..|ops|], ops[..n], blocks);
      assert forall k :: 0 <= k <= n ==> dirs[..|ops|][k] == dirs[k];
      match ops[n] {
        case DoCreate(name, requested) => CreateStepUpdatesMap(dirs[n], blocks, name, requested, dirs[n + 1]);
        case DoDelete(name) => DeleteStepUpdatesMap(dirs[n], blocks, name, dirs[n + 1]);
      }
    }
  }

  /** Every careful run keeps file names unique and files apart. */
  lemma {:induction false} RunKeeps(dirs: seq<seq<Record>>, ops: seq<Op>, blocks: nat)
    requires |dirs| == |ops| + 1 && 2 <= blocks < TWO64 && Good(dirs[0], blocks)
    requires forall k :: 0 <= k < |ops| ==> Careful(dirs[k], blocks, ops[k]) && Step(dirs[k], blocks, ops[k], dirs[k + 1])
    ensures Good(dirs[|ops|], blocks)
    decreases |ops|
  {
    if ops != [] {
      var n := |ops| - 1;
      RunKeeps(dirs[..|ops|], ops[..n], blocks);
      StepKeeps(dirs[n], blocks, ops[n], dirs[n + 1]);
    }
  }
}
