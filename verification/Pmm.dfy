/** The physical memory manager: a bitmap of occupied frames and a stack of the free ones.

  `State` and the functions on it say what the two calls do; `Pmm` is the kernel's own form, with the
  bitmap, the stack and the count of free blocks updated in place.
 */
module Pmm {
  const BLOCK_SIZE: nat := 4096

  /** `stack` lists the frames in slots 1 .. _free_blocks from the bottom, `occupied` has one bit per frame. */
  datatype State = State(stack: seq<nat>, occupied: seq<bool>)

  /** The free frames: the clear bits. */
  function FreeFrames(s: State): set<nat> {
    set f | 0 <= f < |s.occupied| && !s.occupied[f]
  }

  function OccupiedFrames(s: State): set<nat> {
    set f | 0 <= f < |s.occupied| && s.occupied[f]
  }

  ghost predicate Distinct(s: seq<nat>) {
    forall i, j :: 0 <= i < j < |s| ==> s[i] != s[j]
  }

  /** Bitmap and stack agree: the stack holds exactly the clear frames, each of them once. */
  ghost predicate Inv(s: State, reserved: nat) {
    && (forall k :: 0 <= k < |s.stack| ==> reserved <= s.stack[k] < |s.occupied| && !s.occupied[s.stack[k]])
    && Distinct(s.stack)
    && (forall f :: 0 <= f < |s.occupied| && !s.occupied[f] ==> f in s.stack)
  }

  /** The new state and the address handed out, or -1. */
  function Gmem(s: State): (State, int)
    requires s.stack != [] ==> s.stack[|s.stack| - 1] < |s.occupied|
  {
    if s.stack == [] then (s, -1)
    else
      var frame := s.stack[|s.stack| - 1];
      (State(s.stack[..|s.stack| - 1], s.occupied[frame := true]), frame * BLOCK_SIZE)
  }

  /** The new state and the answer: -1 not a block, 0 free already, 1 freed now. */
  function Fmem(s: State, addr: nat): (State, int)
    requires addr % BLOCK_SIZE == 0 ==> addr / BLOCK_SIZE < |s.occupied|
  {
    if addr % BLOCK_SIZE != 0 then (s, -1)
    else if s.occupied[addr / BLOCK_SIZE] then
      (State(s.stack + [addr / BLOCK_SIZE], s.occupied[addr / BLOCK_SIZE := false]), 1)
    else (s, 0)
  }

  lemma GmemKeepsInv(s: State, reserved: nat)
    requires Inv(s, reserved)
    ensures Inv(Gmem(s).0, reserved)
    ensures FreeFrames(s) == {} <==> Gmem(s).1 == -1
    ensures Gmem(s).1 == -1 ==> Gmem(s).0 == s
    ensures Gmem(s).1 != -1 ==>
              exists f :: f in FreeFrames(s) && reserved <= f && Gmem(s).1 == f * BLOCK_SIZE
                          && FreeFrames(Gmem(s).0) == FreeFrames(s) - {f}
  {
    if s.stack == [] {
      assert forall f :: f in FreeFrames(s) ==> f in s.stack;
    } else {
      var frame := s.stack[|s.stack| - 1];
      assert FreeFrames(Gmem(s).0) == FreeFrames(s) - {frame};
      assert frame in FreeFrames(s);
      assert Gmem(s).1 >= 0;
    }
  }

  /** The invariant is that bitmap and stack agree, and that no reserved frame is free. */
  lemma InvSplits(s: State, reserved: nat)
    ensures Inv(s, reserved) <==> Inv(s, 0) && forall f :: f in FreeFrames(s) ==> reserved <= f
  {
    if Inv(s, 0) && forall f :: f in FreeFrames(s) ==> reserved <= f {
      forall k | 0 <= k < |s.stack| ensures reserved <= s.stack[k] {
        assert s.stack[k] in FreeFrames(s);
      }
    }
    if Inv(s, reserved) {
      forall f | f in FreeFrames(s) ensures reserved <= f {
        assert f in s.stack;
      }
    }
  }

  /** Freeing keeps bitmap and stack in agreement, except for the frames that are never handed out. */
  lemma FmemKeepsInvIff(s: State, reserved: nat, addr: nat)
    requires Inv(s, reserved)
    requires addr % BLOCK_SIZE == 0 ==> addr / BLOCK_SIZE < |s.occupied|
    ensures Inv(Fmem(s, addr).0, reserved) <==> addr % BLOCK_SIZE != 0 || reserved <= addr / BLOCK_SIZE
    ensures Fmem(s, addr).1 != 1 ==> Fmem(s, addr).0 == s
    ensures Fmem(s, addr).1 == -1 <==> addr % BLOCK_SIZE != 0
    ensures Fmem(s, addr).1 == 1 <==> addr % BLOCK_SIZE == 0 && addr / BLOCK_SIZE in OccupiedFrames(s)
    ensures Fmem(s, addr).1 == 1 ==> FreeFrames(Fmem(s, addr).0) == FreeFrames(s) + {addr / BLOCK_SIZE}
  {
    if addr % BLOCK_SIZE == 0 && s.occupied[addr / BLOCK_SIZE] {
      var frame := addr / BLOCK_SIZE;
      var s' := Fmem(s, addr).0;
      assert s'.stack[|s.stack|] == frame;
      forall f | 0 <= f < |s'.occupied| && !s'.occupied[f] ensures f in s'.stack {
        if f != frame { assert f in s.stack; }
      }
      assert FreeFrames(s') == FreeFrames(s) + {frame};
    }
  }

  /** The same with the reserved frames among those that may get free; and the height of the stack. */
  lemma FreedIsSound(s: State, reserved: nat, addr: nat)
    requires Inv(s, 0) && (addr % BLOCK_SIZE == 0 ==> addr / BLOCK_SIZE < |s.occupied|)
    ensures var (s', r) := Fmem(s, addr);
            && Inv(s', 0) && |FreeFrames(s)| == |s.stack|
            && (Inv(s', reserved) <==> Inv(s, reserved) && (addr % BLOCK_SIZE != 0 || reserved <= addr / BLOCK_SIZE))
            && (r == 1 <==> addr % BLOCK_SIZE == 0 && addr / BLOCK_SIZE !in FreeFrames(s))
            && FreeFrames(s') == FreeFrames(s) + (if r == 1 then {addr / BLOCK_SIZE} else {})
            && (r == 1 ==> |FreeFrames(s) + {addr / BLOCK_SIZE}| == |s.stack| + 1)
  {
    FmemKeepsInvIff(s, 0, addr);
    FreeCount(s, 0);
    InvSplits(s, reserved);
    InvSplits(Fmem(s, addr).0, reserved);
    if addr % BLOCK_SIZE == 0 { FreeOrOccupied(s, addr / BLOCK_SIZE); }
    hide Inv, Fmem, FreeFrames, OccupiedFrames;
    assert 0 <= addr / BLOCK_SIZE;
    OneMore(FreeFrames(s), addr / BLOCK_SIZE);
  }

  lemma FreeOrOccupied(s: State, frame: nat)
    requires frame < |s.occupied|
    ensures frame in OccupiedFrames(s) <==> frame !in FreeFrames(s)
  {
  }

  lemma OneMore(free: set<nat>, frame: nat)
    ensures frame !in free ==> |free + {frame}| == |free| + 1
  {
  }

  lemma {:induction false} CountBelow(lo: nat, hi: nat, s: set<nat>)
    requires lo <= hi && forall x :: x in s ==> lo <= x < hi
    ensures |s| <= hi - lo
    decreases hi - lo
  {
    if lo == hi {
      assert s == {};
    } else {
      CountBelow(lo, hi - 1, s - {hi - 1});
      assert s <= (s - {hi - 1}) + {hi - 1};
    }
  }

  lemma {:induction false} DistinctCount(stack: seq<nat>, elements: set<nat>)
    requires Distinct(stack) && forall x :: x in stack <==> x in elements
    ensures |stack| == |elements|
  {
    if stack == [] {
      assert elements == {};
    } else {
      var rest, last := stack[..|stack| - 1], stack[|stack| - 1];
      forall x | x in elements - {last} ensures x in rest {
        assert x in stack;
      }
      assert forall x :: x in rest ==> x in stack;
      DistinctCount(rest, elements - {last});
    }
  }

  /** The number of stacked blocks is the number of free frames. */
  lemma FreeCount(s: State, reserved: nat)
    requires Inv(s, reserved) && reserved <= |s.occupied|
    ensures |FreeFrames(s)| == |s.stack| <= |s.occupied| - reserved
  {
    DistinctCount(s.stack, FreeFrames(s));
    forall f | f in FreeFrames(s) ensures reserved <= f {
      assert f in s.stack;
    }
    CountBelow(reserved, |s.occupied|, FreeFrames(s));
  }

  // ---------------------------------------------------------------- runs

  datatype Call = Get | Free(addr: nat)

  predicate Allowed(c: Call, reserved: nat, total: nat) {
    c.Free? && c.addr % BLOCK_SIZE == 0 ==> reserved <= c.addr / BLOCK_SIZE < total
  }

  ghost predicate Start(s: State, calls: seq<Call>, reserved: nat) {
    && Inv(s, reserved)
    && forall i :: 0 <= i < |calls| ==> Allowed(calls[i], reserved, |s.occupied|)
  }

  ghost function Step(s: State, c: Call, reserved: nat): (r: (State, int))
    requires Inv(s, reserved) && Allowed(c, reserved, |s.occupied|)
    ensures Inv(r.0, reserved) && |r.0.occupied| == |s.occupied|
  {
    match c
    case Get => GmemKeepsInv(s, reserved); Gmem(s)
    case Free(addr) => FmemKeepsInvIff(s, reserved, addr); Fmem(s, addr)
  }

  /** The state before call `n` of a run; bitmap and stack agree in every one of them. */
  ghost function At(s: State, calls: seq<Call>, reserved: nat, n: nat): (r: State)
    requires Start(s, calls, reserved) && n <= |calls|
    ensures Inv(r, reserved) && |r.occupied| == |s.occupied|
  {
    if n == 0 then s else Step(At(s, calls, reserved, n - 1), calls[n - 1], reserved).0
  }

  ghost function Result(s: State, calls: seq<Call>, reserved: nat, n: nat): int
    requires Start(s, calls, reserved) && n < |calls|
  {
    Step(At(s, calls, reserved, n), calls[n], reserved).1
  }

  /** Free plus occupied frames is constant over every run, and the count the kernel keeps is the free one. */
  lemma RunConserves(s: State, calls: seq<Call>, reserved: nat, n: nat)
    requires Start(s, calls, reserved) && n <= |calls| && reserved <= |s.occupied|
    ensures var r := At(s, calls, reserved, n);
            && |FreeFrames(r)| + |OccupiedFrames(r)| == |FreeFrames(s)| + |OccupiedFrames(s)|
            && |r.stack| == |FreeFrames(r)|
  {
    var r := At(s, calls, reserved, n);
    FreeCount(r, reserved);
    PartitionCount(s);
    PartitionCount(r);
  }

  lemma PartitionCount(s: State)
    ensures |FreeFrames(s)| + |OccupiedFrames(s)| == |s.occupied|
  {
    assert FreeFrames(s) !! OccupiedFrames(s);
    RangeCount(|s.occupied|, FreeFrames(s) + OccupiedFrames(s));
  }

  lemma {:induction false} RangeCount(n: nat, s: set<nat>)
    requires forall x: nat :: x in s <==> x < n
    ensures |s| == n
  {
    if n == 0 {
      assert s == {};
    } else {
      RangeCount(n - 1, s - {n - 1});
    }
  }

  /** A frame handed out stays occupied until a call frees it. */
  lemma {:induction false} HeldUntilFreed(s: State, calls: seq<Call>, reserved: nat, i: nat, n: nat, frame: nat)
    requires Start(s, calls, reserved) && i < n <= |calls|
    requires calls[i].Get? && Result(s, calls, reserved, i) == frame * BLOCK_SIZE
    requires forall k :: i < k < n ==> calls[k] != Free(frame * BLOCK_SIZE)
    ensures frame in OccupiedFrames(At(s, calls, reserved, n))
    decreases n
  {
    hide Inv, Gmem, Fmem;
    var before := At(s, calls, reserved, n - 1);
    if n == i + 1 {
      GmemOccupies(before, reserved, frame);
    } else {
      HeldUntilFreed(s, calls, reserved, i, n - 1, frame);
      StaysOccupied(before, calls[n - 1], reserved, frame);
    }
  }

  lemma GmemOccupies(s: State, reserved: nat, frame: nat)
    requires Inv(s, reserved) && Gmem(s).1 == frame * BLOCK_SIZE
    ensures frame in OccupiedFrames(Gmem(s).0)
  {
  }

  lemma StaysOccupied(s: State, c: Call, reserved: nat, frame: nat)
    requires Inv(s, reserved) && Allowed(c, reserved, |s.occupied|)
    requires c != Free(frame * BLOCK_SIZE) && frame in OccupiedFrames(s)
    ensures frame in OccupiedFrames(Step(s, c, reserved).0)
  {
  }

  /** No run hands the same frame out twice without a call that frees it in between. */
  lemma NeverHandedOutTwice(s: State, calls: seq<Call>, reserved: nat, i: nat, j: nat)
    requires Start(s, calls, reserved) && i < j < |calls|
    requires calls[i].Get? && calls[j].Get?
    requires Result(s, calls, reserved, i) == Result(s, calls, reserved, j) != -1
    ensures exists k :: i < k < j && calls[k] == Free(Result(s, calls, reserved, i))
  {
    GmemKeepsInv(At(s, calls, reserved, j), reserved);
    var frame :| frame in FreeFrames(At(s, calls, reserved, j))
                 && Result(s, calls, reserved, j) == frame * BLOCK_SIZE;
    if forall k :: i < k < j ==> calls[k] != Free(frame * BLOCK_SIZE) {
      HeldUntilFreed(s, calls, reserved, i, j, frame);
      assert false;
    }
  }

  function Gets(n: nat): seq<Call> {
    seq(n, _ => Get)
  }

  lemma GetsMayStart(s: State, reserved: nat, m: nat)
    requires Inv(s, reserved)
    ensures Start(s, Gets(m), reserved) && |Gets(m)| == m && forall k :: 0 <= k < m ==> Gets(m)[k] == Get
  {
  }

  lemma GmemTakesTop(s: State, reserved: nat)
    requires Inv(s, reserved) && s.stack != []
    ensures Step(s, Get, reserved).0.stack == s.stack[..|s.stack| - 1]
    ensures Step(s, Get, reserved).1 == s.stack[|s.stack| - 1] * BLOCK_SIZE
  {
  }

  lemma {:induction false} GetsTakeTop(s: State, reserved: nat, m: nat, n: nat)
    requires Inv(s, reserved) && n <= m && n <= |s.stack| && Start(s, Gets(m), reserved) && |Gets(m)| == m
    ensures At(s, Gets(m), reserved, n).stack == s.stack[..|s.stack| - n]
    decreases n
  {
    GetsMayStart(s, reserved, m);
    hide Inv, Start, Gets, Gmem, Step;
    if n > 0 {
      GetsTakeTop(s, reserved, m, n - 1);
      var t := At(s, Gets(m), reserved, n - 1);
      assert At(s, Gets(m), reserved, n) == Step(t, Get, reserved).0;
      hide At;
      GmemTakesTop(t, reserved);
      assert s.stack[..|s.stack| - (n - 1)][..|s.stack| - n] == s.stack[..|s.stack| - n];
    }
  }

  /** The `n`-th of some calls of gmem answers with the address. */
  ghost predicate ComesOut(s: State, reserved: nat, n: nat, addr: int)
    requires Inv(s, reserved)
  {
    GetsMayStart(s, reserved, n + 1);
    Result(s, Gets(n + 1), reserved, n) == addr
  }

  /** Every free frame is handed out in its turn, as many calls later as there are frames above it on the stack.  So a call
    answers with address 0, which callers take for a failure, as soon as frame 0 is free and its turn comes. */
  lemma FreeFrameComesOut(s: State, reserved: nat, frame: nat)
    requires Inv(s, reserved) && frame in FreeFrames(s)
    ensures exists n: nat :: n < |s.stack| && ComesOut(s, reserved, n, frame * BLOCK_SIZE)
  {
    var i :| 0 <= i < |s.stack| && s.stack[i] == frame;
    var n := |s.stack| - 1 - i;
    GetsMayStart(s, reserved, n + 1);
    hide Inv, Start, Gets, Step;
    GetsTakeTop(s, reserved, n + 1, n);
    GmemTakesTop(At(s, Gets(n + 1), reserved, n), reserved);
    assert ComesOut(s, reserved, n, frame * BLOCK_SIZE);
  }

  // ---------------------------------------------------------------- the kernel's form

  class Pmm {
    const total: nat          // PMM_TOTAL_BLOCKS
    const reserved: nat       // frames below this hold the kernel and the manager itself
    const map_: array<bool>   // _pmm_map
    const stack: array<nat>   // _mem_stack; slot 0 is never used
    var free: nat             // _free_blocks
    ghost var frames: seq<nat>

    ghost predicate Shape()
      reads this, map_, stack
    {
      && 1 < reserved <= total && map_.Length == total && stack.Length == total
      && |frames| == free < stack.Length
      && (forall k :: 0 <= k < free ==> stack[k + 1] == frames[k] * BLOCK_SIZE)
    }

    /** Bitmap and stack agree. */
    ghost predicate Sound()
      reads this, map_, stack
    {
      Shape() && Inv(Abs(), 0)
    }

    /** And the reserved frames are not free. */
    ghost predicate Valid()
      reads this, map_, stack
    {
      Sound() && Inv(Abs(), reserved)
    }

    lemma ValidIff()
      ensures Valid() <==> Sound() && forall f :: f in FreeSet() ==> reserved <= f
    {
      hide Inv, FreeFrames;
      assert FreeSet() == FreeFrames(Abs());
      InvSplits(Abs(), reserved);
    }

    ghost function Abs(): State
      reads this, map_
    {
      State(frames, map_[..])
    }

    ghost function FreeSet(): set<nat>
      reads this, map_
    {
      FreeFrames(Abs())
    }

    method Pop() returns (addr: nat)
      requires Shape() && 0 < free
      modifies this`free, this`frames
      ensures Shape() && frames == old(frames)[..old(free) - 1]
      ensures addr == old(frames)[old(free) - 1] * BLOCK_SIZE
    {
      addr := stack[free];
      free := free - 1;
      frames := frames[..free];
    }

    method Push(addr: nat)
      requires Shape() && free + 1 < stack.Length && addr % BLOCK_SIZE == 0
      modifies this`free, this`frames, stack
      ensures Shape() && frames == old(frames) + [addr / BLOCK_SIZE]
    {
      stack[free + 1] := addr;
      free := free + 1;
      frames := frames + [addr / BLOCK_SIZE];
    }

    /** Hands out a free frame and marks it, or answers -1 when there is none. */
    method GetBlock() returns (addr: int)
      requires Valid()
      modifies this`free, this`frames, map_
      ensures Valid()
      ensures (Abs(), addr) == Gmem(old(Abs()))
      ensures addr == -1 <==> old(FreeSet()) == {}
      ensures addr == -1 ==> FreeSet() == old(FreeSet())
      ensures addr != -1 ==>
                && addr >= 0 && addr % BLOCK_SIZE == 0 && reserved <= addr / BLOCK_SIZE < total
                && addr / BLOCK_SIZE in old(FreeSet())
                && FreeSet() == old(FreeSet()) - {addr / BLOCK_SIZE}
    {
      ghost var s := Abs();
      GmemKeepsInv(s, reserved);
      if free > 0 {
        addr := Pop();
        map_[addr / BLOCK_SIZE] := true;
        assert Abs() == Gmem(s).0;
        return;
      }
      return -1;
    }

    /** -1 for an address that is not a block's, 0 when it was free already, 1 when it was freed now.  The stack has no slot for
      the last frame if all others are free. */
    method FreeBlock(addr: nat) returns (r: int)
      requires Sound()
      requires addr % BLOCK_SIZE == 0 ==> addr / BLOCK_SIZE < total && |FreeSet() + {addr / BLOCK_SIZE}| < total
      modifies this`free, this`frames, map_, stack
      ensures Sound() && (Valid() <==> old(Valid()) && (addr % BLOCK_SIZE != 0 || reserved <= addr / BLOCK_SIZE))
      ensures (Abs(), r) == Fmem(old(Abs()), addr)
      ensures r == 1 <==> addr % BLOCK_SIZE == 0 && addr / BLOCK_SIZE !in old(FreeSet())
      ensures FreeSet() == old(FreeSet()) + (if r == 1 then {addr / BLOCK_SIZE} else {})
    {
      hide Inv, FreeFrames;
      ghost var s := Abs();
      FreedIsSound(s, reserved, addr);
      if addr % BLOCK_SIZE != 0 {
        return -1;
      }
      var bit := addr / BLOCK_SIZE;
      if map_[bit] {
        map_[bit] := false;
        Push(addr);
        assert Abs() == Fmem(s, addr).0;
        return 1;
      }
      return 0;
    }
  }
}
