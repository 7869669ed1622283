/** Who owns which frame, over whole runs of the virtual memory manager.

  A run is a sequence of range allocations and releases, each with the effect that the methods of `Vmm` guarantee.  The
  invariant is a partition: at every time each frame of the pool is free, or a page table, or the frame of exactly one
  live page.
 */
module Ownership {
  import opened Common
  import opened PageTables
  import opened Budget
  import opened Ranges

  datatype Op = Take(lo: nat, hi: nat) | Release(lo: nat, hi: nat)

  predicate Within(q: nat, lo: nat, hi: nat) {
    lo <= q < hi
  }

  ghost function Pages(lo: nat, hi: nat): (r: set<nat>)
    ensures forall q :: q in r <==> lo <= q < hi
  {
    set q | lo <= q < hi && Within(q, lo, hi)
  }

  ghost function LiveAfter(live: set<nat>, op: Op): set<nat> {
    if op.Take? then live + Pages(op.lo, op.hi) else live - Pages(op.lo, op.hi)
  }

  /** What the methods of `Vmm` guarantee of the range they worked on. */
  ghost predicate Step(root: nat, s: Space, op: Op, s': Space) {
    && op.lo <= op.hi <= PAGES
    && match op
       case Take(lo, hi) => Taken(root, s, s', lo, hi)
       case Release(lo, hi) => Released(root, s, s', lo, hi)
  }

  /** The frames of the live pages. */
  ghost function Frames(mem: Memory, root: nat, live: set<nat>): set<nat> {
    set q | q in live && Translate(mem, root, q).Some? :: Translate(mem, root, q).value
  }

  ghost predicate OwnFrames(mem: Memory, root: nat, live: set<nat>) {
    && (forall q :: q in live ==> q < PAGES && Translate(mem, root, q).Some?)
    && (forall q, r :: q in live && r in live && q != r ==> Translate(mem, root, q) != Translate(mem, root, r))
  }

  /** The pool is the free frames, the tables and the live pages' frames, without overlap, and no frame has two live pages. */
  ghost predicate Parts(pool: set<nat>, free: set<nat>, tables: set<nat>, frames: set<nat>) {
    free + tables + frames == pool && free !! tables && frames !! free && frames !! tables
  }

  ghost predicate Partition(root: nat, s: Space, live: set<nat>, pool: set<nat>) {
    OwnFrames(s.mem, root, live) && Parts(pool, s.free, s.tables, Frames(s.mem, root, live))
  }

  /** Once the first tables are built, all frames that were free before are free or tables, and no page is live yet. */
  lemma PartitionAtStart(root: nat, mem: Memory, places: set<Place>, free0: set<nat>, free: set<nat>, tables: set<nat>)
    requires free <= free0 && tables == free0 - free
    ensures Partition(root, Space(mem, places, free, tables), {}, free0)
  {
    assert Frames(mem, root, {}) == {};
  }

  // ---------------------------------------------------------------- one operation

  lemma FramesAdd(mem0: Memory, mem: Memory, root: nat, live: set<nat>, lo: nat, hi: nat)
    requires OwnFrames(mem0, root, live) && SameOutside(mem0, mem, root, lo, hi) && live !! Pages(lo, hi)
    ensures Frames(mem, root, live + Pages(lo, hi)) == Frames(mem0, root, live) + FramesOf(mem, root, lo, hi)
    ensures forall q :: q in live ==> Translate(mem, root, q) == Translate(mem0, root, q)
  {
    hide Translate;
    var f, g := Frames(mem, root, live + Pages(lo, hi)), Frames(mem0, root, live);
    forall q | q in live ensures Translate(mem, root, q) == Translate(mem0, root, q) {
      assert !(lo <= q < hi);
    }
    forall x | x in g ensures x in f {
      var q :| q in live && Translate(mem0, root, q) == Some(x);
      assert q in live + Pages(lo, hi) && Translate(mem, root, q) == Some(x);
    }
    forall x | x in FramesOf(mem, root, lo, hi) ensures x in f {
      var q :| lo <= q < hi && Translate(mem, root, q) == Some(x);
      assert q in live + Pages(lo, hi);
    }
  }

  lemma TakeKeeps(root: nat, s: Space, lo: nat, hi: nat, s': Space, live: set<nat>, pool: set<nat>)
    requires Partition(root, s, live, pool) && Step(root, s, Take(lo, hi), s')
    ensures Partition(root, s', live + Pages(lo, hi), pool)
  {
    hide Translate, Frames, FramesOf;
    assert live !! Pages(lo, hi);
    FramesAdd(s.mem, s'.mem, root, live, lo, hi);
    FreshAreOwn(root, s, lo, hi, s', live, pool);
    FreshInFree(s'.mem, root, lo, hi, s.free, s'.free, s'.tables);
    hide OwnFrames, SameOutside, FreshFrames, Absent, Pages;
    TakenParts(pool, s.free, s.tables, Frames(s.mem, root, live), FramesOf(s'.mem, root, lo, hi), s'.free, s'.tables);
  }

  lemma FreshInFree(mem: Memory, root: nat, lo: nat, hi: nat, free0: set<nat>, free: set<nat>, tables: set<nat>)
    requires FreshFrames(mem, root, lo, hi, free0, free, tables)
    ensures FramesOf(mem, root, lo, hi) <= free0 && FramesOf(mem, root, lo, hi) !! free && FramesOf(mem, root, lo, hi) !! tables
  {
    hide Translate;
  }

  lemma TakenParts(pool: set<nat>, free: set<nat>, tables: set<nat>, frames: set<nat>, more: set<nat>, free': set<nat>, tables': set<nat>)
    requires Parts(pool, free, tables, frames)
    requires free' <= free && tables <= tables' && free == free' + more + (tables' - tables)
    requires more <= free && more !! free' && more !! tables' && free' !! tables'
    ensures Parts(pool, free', tables', frames + more)
  {
  }

  /** New pages share no frame with each other, nor with pages that were live. */
  lemma FreshAreOwn(root: nat, s: Space, lo: nat, hi: nat, s': Space, live: set<nat>, pool: set<nat>)
    requires Partition(root, s, live, pool) && Step(root, s, Take(lo, hi), s') && live !! Pages(lo, hi)
    requires forall q :: q in live ==> Translate(s'.mem, root, q) == Translate(s.mem, root, q)
    ensures OwnFrames(s'.mem, root, live + Pages(lo, hi))
  {
    hide Translate, FramesOf, Absent, SameOutside;
    forall q, r | q in live && lo <= r < hi ensures Translate(s'.mem, root, q) != Translate(s'.mem, root, r) {
      assert Translate(s.mem, root, q).value in Frames(s.mem, root, live);
    }
  }

  ghost predicate MappedAreLive(mem: Memory, root: nat, live: set<nat>, lo: nat, hi: nat) {
    forall q :: lo <= q < hi && Translate(mem, root, q).Some? ==> q in live
  }

  lemma FramesLose(mem0: Memory, mem: Memory, root: nat, live: set<nat>, lo: nat, hi: nat)
    requires OwnFrames(mem0, root, live) && SameOutside(mem0, mem, root, lo, hi) && MappedAreLive(mem0, root, live, lo, hi)
    ensures Frames(mem, root, live - Pages(lo, hi)) == Frames(mem0, root, live) - FramesOf(mem0, root, lo, hi)
    ensures FramesOf(mem0, root, lo, hi) <= Frames(mem0, root, live)
    ensures OwnFrames(mem, root, live - Pages(lo, hi))
  {
    hide Translate;
    var rest := live - Pages(lo, hi);
    forall q | q in rest ensures Translate(mem, root, q) == Translate(mem0, root, q) {
      assert !(lo <= q < hi);
    }
    var f, g, h := Frames(mem, root, rest), Frames(mem0, root, live), FramesOf(mem0, root, lo, hi);
    forall x | x in h ensures x in g && x !in f {
      var q :| lo <= q < hi && Translate(mem0, root, q) == Some(x);
      assert q in Pages(lo, hi) && q in live;
    }
    forall x | x in g && x !in h ensures x in f {
      var q :| q in live && Translate(mem0, root, q) == Some(x);
      assert q in rest;
    }
    forall x | x in f ensures x in g {
      var q :| q in rest && Translate(mem, root, q) == Some(x);
      assert q in live;
    }
  }

  /** Freeing any range keeps the partition exactly if the frames given back are those of its live pages, or free already: the
    entry of an absent page may still name a frame that has another use by now. */
  lemma FreeingKeepsIff(root: nat, s: Space, lo: nat, hi: nat, names: set<nat>, s': Space, live: set<nat>, pool: set<nat>)
    requires Partition(root, s, live, pool) && MappedAreLive(s.mem, root, live, lo, hi)
    requires SameOutside(s.mem, s'.mem, root, lo, hi) && s'.tables == s.tables
    requires FramesOf(s.mem, root, lo, hi) <= names && s'.free == s.free + names
    ensures Partition(root, s', live - Pages(lo, hi), pool) <==> names <= s.free + FramesOf(s.mem, root, lo, hi)
  {
    hide Translate, Frames, FramesOf, OwnFrames, SameOutside, Pages, MappedAreLive;
    FramesLose(s.mem, s'.mem, root, live, lo, hi);
    PartsGivenBack(pool, s.free, s.tables, Frames(s.mem, root, live), FramesOf(s.mem, root, lo, hi), names);
  }

  lemma PartsGivenBack(pool: set<nat>, free: set<nat>, tables: set<nat>, frames: set<nat>, gone: set<nat>, names: set<nat>)
    requires Parts(pool, free, tables, frames) && gone <= frames && gone <= names
    ensures Parts(pool, free + names, tables, frames - gone) <==> names <= free + gone
  {
    if Parts(pool, free + names, tables, frames - gone) {
      forall f | f in names ensures f in free + gone {
        assert f in pool;
      }
    }
  }

  lemma ReleaseKeeps(root: nat, s: Space, lo: nat, hi: nat, s': Space, live: set<nat>, pool: set<nat>)
    requires Partition(root, s, live, pool) && Step(root, s, Release(lo, hi), s') && Pages(lo, hi) <= live
    ensures Partition(root, s', live - Pages(lo, hi), pool)
  {
    LiveRange(s.mem, root, live, lo, hi);
    hide Partition, FramesOf, SameOutside, Absent, Pages, MappedAreLive;
    FreeingKeepsIff(root, s, lo, hi, FramesOf(s.mem, root, lo, hi), s', live, pool);
  }

  lemma LiveRange(mem: Memory, root: nat, live: set<nat>, lo: nat, hi: nat)
    requires Pages(lo, hi) <= live
    ensures MappedAreLive(mem, root, live, lo, hi)
  {
    hide Translate;
    forall q | lo <= q < hi ensures q in live {
      assert q in Pages(lo, hi);
    }
  }

  /** What `FreePages` asks of its callers holds for live pages, if the pool is what the physical memory manager manages. */
  lemma ReleaseIsPermitted(root: nat, s: Space, lo: nat, hi: nat, live: set<nat>, pool: set<nat>, reserved: nat, total: nat)
    requires Partition(root, s, live, pool) && Pages(lo, hi) <= live
    requires forall f :: f in pool ==> reserved <= f < total
    ensures Mapped(s.mem, root, lo, hi)
    ensures forall f :: f in FramesOf(s.mem, root, lo, hi) ==> reserved <= f < total && f !in s.tables
  {
    hide Translate;
    forall q | lo <= q < hi ensures Translate(s.mem, root, q).Some? {
      assert q in Pages(lo, hi);
    }
    forall f | f in FramesOf(s.mem, root, lo, hi) ensures f in Frames(s.mem, root, live) {
      var q :| lo <= q < hi && Translate(s.mem, root, q) == Some(f);
      assert q in Pages(lo, hi);
    }
  }

  // ---------------------------------------------------------------- runs

  ghost function LiveAfterAll(live: set<nat>, ops: seq<Op>): set<nat>
    decreases |ops|
  {
    if ops == [] then live else LiveAfterAll(LiveAfter(live, ops[0]), ops[1..])
  }

  /** States and operations of a run; only live pages are released. */
  ghost predicate Run(root: nat, states: seq<Space>, ops: seq<Op>, live: set<nat>)
    decreases |ops|
  {
    && |states| == |ops| + 1
    && (ops != [] ==>
          && Step(root, states[0], ops[0], states[1])
          && (ops[0].Release? ==> Pages(ops[0].lo, ops[0].hi) <= live)
          && Run(root, states[1..], ops[1..], LiveAfter(live, ops[0])))
  }

  lemma StepKeepsPartition(root: nat, s: Space, op: Op, s': Space, live: set<nat>, pool: set<nat>)
    requires Step(root, s, op, s') && (op.Release? ==> Pages(op.lo, op.hi) <= live)
    requires Partition(root, s, live, pool)
    ensures Partition(root, s', LiveAfter(live, op), pool)
  {
    hide Partition, Step, Pages;
    if op.Take? {
      TakeKeeps(root, s, op.lo, op.hi, s', live, pool);
    } else {
      ReleaseKeeps(root, s, op.lo, op.hi, s', live, pool);
    }
  }

  lemma RunStep(root: nat, states: seq<Space>, ops: seq<Op>, live: set<nat>)
    requires Run(root, states, ops, live) && ops != []
    ensures |states| == |ops| + 1 && Step(root, states[0], ops[0], states[1])
    ensures ops[0].Release? ==> Pages(ops[0].lo, ops[0].hi) <= live
    ensures Run(root, states[1..], ops[1..], LiveAfter(live, ops[0]))
    ensures LiveAfterAll(live, ops) == LiveAfterAll(LiveAfter(live, ops[0]), ops[1..])
  {
    hide Step, Pages, LiveAfter;
  }

  lemma EmptyRun(root: nat, states: seq<Space>, ops: seq<Op>, live: set<nat>)
    requires Run(root, states, ops, live)
    ensures |states| == |ops| + 1 && (ops == [] ==> LiveAfterAll(live, ops) == live)
  {
    hide Step, Pages, LiveAfter;
  }

  /** In every run no frame gets lost and none has two owners. */
  lemma {:induction false} RunKeepsPartition(root: nat, states: seq<Space>, ops: seq<Op>, live: set<nat>, pool: set<nat>)
    requires Run(root, states, ops, live) && |states| == |ops| + 1 && Partition(root, states[0], live, pool)
    ensures Partition(root, states[|ops|], LiveAfterAll(live, ops), pool)
    decreases |ops|
  {
    hide *;
    EmptyRun(root, states, ops, live);
    if ops != [] {
      RunStep(root, states, ops, live);
      StepKeepsPartition(root, states[0], ops[0], states[1], live, pool);
      RunKeepsPartition(root, states[1..], ops[1..], LiveAfter(live, ops[0]), pool);
    }
  }

  /** A partitioned pool has as many frames as there are free frames, tables and live pages. */
  lemma PartitionCounts(root: nat, s: Space, live: set<nat>, pool: set<nat>)
    requires Partition(root, s, live, pool)
    ensures |pool| == |s.free| + |s.tables| + |live|
  {
    hide Translate, Frames;
    FrameForEach(s.mem, root, live);
    hide OwnFrames;
    var frames := Frames(s.mem, root, live);
    assert pool == s.free + s.tables + frames;
    assert |s.free + s.tables| == |s.free| + |s.tables|;
    assert |(s.free + s.tables) + frames| == |s.free + s.tables| + |frames|;
  }

  lemma {:induction false} FrameForEach(mem: Memory, root: nat, live: set<nat>)
    requires OwnFrames(mem, root, live)
    ensures |Frames(mem, root, live)| == |live|
    decreases |live|
  {
    hide Translate;
    if live != {} {
      var q :| q in live;
      var rest, x := live - {q}, Translate(mem, root, q).value;
      FrameForEach(mem, root, rest);
      FramesWithout(mem, root, live, q);
      assert Frames(mem, root, live) == Frames(mem, root, rest) + {x};
    } else {
      assert Frames(mem, root, live) == {};
    }
  }

  lemma FramesWithout(mem: Memory, root: nat, live: set<nat>, q: nat)
    requires OwnFrames(mem, root, live) && q in live
    ensures Frames(mem, root, live) == Frames(mem, root, live - {q}) + {Translate(mem, root, q).value}
    ensures Translate(mem, root, q).value !in Frames(mem, root, live - {q})
  {
    hide Translate;
  }

  /** A live page keeps its frame until it is released, whatever else happens. */
  lemma {:induction false} LivePageKeepsFrame(root: nat, states: seq<Space>, ops: seq<Op>, live: set<nat>, pool: set<nat>, q: nat)
    requires Run(root, states, ops, live) && |states| == |ops| + 1 && Partition(root, states[0], live, pool) && q in live
    requires forall k :: 0 <= k < |ops| && ops[k].Release? ==> !(ops[k].lo <= q < ops[k].hi)
    ensures q in LiveAfterAll(live, ops)
    ensures Translate(states[|ops|].mem, root, q) == Translate(states[0].mem, root, q)
    decreases |ops|
  {
    hide *;
    EmptyRun(root, states, ops, live);
    if ops != [] {
      RunStep(root, states, ops, live);
      KeptByStep(root, states[0], ops[0], states[1], live, pool, q);
      StepKeepsPartition(root, states[0], ops[0], states[1], live, pool);
      LivePageKeepsFrame(root, states[1..], ops[1..], LiveAfter(live, ops[0]), pool, q);
    }
  }

  lemma KeptByStep(root: nat, s: Space, op: Op, s': Space, live: set<nat>, pool: set<nat>, q: nat)
    requires Step(root, s, op, s') && Partition(root, s, live, pool) && q in live
    requires op.Release? ==> !(op.lo <= q < op.hi)
    ensures q in LiveAfter(live, op) && Translate(s'.mem, root, q) == Translate(s.mem, root, q)
  {
    hide Translate, Frames, FramesOf, FreshFrames;
    assert Translate(s.mem, root, q).Some?;
  }
}
