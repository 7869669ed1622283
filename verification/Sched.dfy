/** The scheduler as a value: the ring of processes, seen from the active one.

  The kernel is entered, performs at most one operation, and leaves to the next process of the ring
  (the order that the system call and interrupt stubs fix).  `Round` is one such entry.
 */
module Sched {
  /** A process: the stack it was interrupted on, and the stack on which the kernel works for it. */
  datatype Proc = Proc(pid: nat, stack: int, kernel: int)

  /** `ring[0]` is the active process, unless the active process has just terminated itself: then it is `gone`, off the
    ring, and `ring[0]` is its successor.  No process at all: the kernel idles on its own stacks. */
  datatype State = State(ring: seq<Proc>, gone: bool, idleStack: int, idleKernel: int, maxPid: nat)

  datatype Op = Nothing | Spawn(stack: int, kernel: int) | Kill(pid: nat)

  /** The index of the first process with this pid, or the length of the ring. */
  function RingIndex(ring: seq<Proc>, pid: nat): (k: nat)
    ensures k <= |ring|
    ensures k < |ring| ==> ring[k].pid == pid
    ensures forall i :: 0 <= i < k ==> ring[i].pid != pid
  {
    if ring == [] then 0 else if ring[0].pid == pid then 0 else 1 + RingIndex(ring[1..], pid)
  }

  function Remove<T>(ring: seq<T>, k: nat): (r: seq<T>)
    requires k < |ring|
    ensures |r| == |ring| - 1
  {
    ring[..k] + ring[k + 1..]
  }

  /** Saves the stack of the process that was interrupted. */
  function Enter(s: State, stack: int): State
    requires !s.gone
  {
    if s.ring == [] then s.(idleStack := stack) else s.(ring := s.ring[0 := s.ring[0].(stack := stack)])
  }

  /** A new process, behind all others. */
  function AfterSpawn(s: State, stack: int, kernel: int): State {
    s.(ring := s.ring + [Proc(s.maxPid + 1, stack, kernel)], maxPid := s.maxPid + 1)
  }

  function AfterKill(s: State, pid: nat): State
    requires !s.gone
  {
    var k := RingIndex(s.ring, pid);
    if k == |s.ring| then s else s.(ring := Remove(s.ring, k), gone := k == 0 && |s.ring| > 1)
  }

  function Perform(s: State, op: Op): State
    requires !s.gone
  {
    match op
    case Nothing => s
    case Spawn(stack, kernel) => AfterSpawn(s, stack, kernel)
    case Kill(pid) => AfterKill(s, pid)
  }

  /** The kernel stack of the process that is active, or of the idle one. */
  function KernelStack(s: State): int {
    if s.ring == [] then s.idleKernel else s.ring[0].kernel
  }

  /** Saves the kernel stack with the process that is active now, or with the idle one, and switches to the next process. */
  function Leave(s: State, kernel: int): State {
    if s.ring == [] then s.(idleKernel := kernel)
    else if s.gone then s.(gone := false)
    else s.(ring := s.ring[1..] + [s.ring[0].(kernel := kernel)])
  }

  /** The stack that the processor continues on. */
  function Resumed(s: State): int {
    if s.ring == [] then s.idleStack else s.ring[0].stack
  }

  function ActivePid(s: State): nat {
    if s.ring == [] then 0 else s.ring[0].pid
  }

  function Round(s: State, stack: int, op: Op): (r: State)
    requires !s.gone
    ensures !r.gone
  {
    Leave(Perform(Enter(s, stack), op), KernelStack(s))
  }

  // ---------------------------------------------------------------- what holds at every return to user mode

  function Pids(ring: seq<Proc>): set<nat> {
    set i | 0 <= i < |ring| :: ring[i].pid
  }

  ghost predicate DistinctPids(ring: seq<Proc>) {
    forall i, j :: 0 <= i < j < |ring| ==> ring[i].pid != ring[j].pid
  }

  ghost predicate Inv(s: State) {
    && !s.gone && DistinctPids(s.ring)
    && forall i :: 0 <= i < |s.ring| ==> 0 < s.ring[i].pid <= s.maxPid
  }

  /** The effect of one round on the set of processes. */
  function LiveAfter(live: set<nat>, maxPid: nat, op: Op): set<nat> {
    match op
    case Nothing => live
    case Spawn(_, _) => live + {maxPid + 1}
    case Kill(pid) => live - {pid}
  }

  lemma PidsOfRemove(ring: seq<Proc>, k: nat)
    requires k < |ring| && DistinctPids(ring)
    ensures Pids(Remove(ring, k)) == Pids(ring) - {ring[k].pid}
    ensures DistinctPids(Remove(ring, k))
  {
    var r := Remove(ring, k);
    assert forall i :: 0 <= i < |r| ==> r[i] == ring[if i < k then i else i + 1];
    forall pid | pid in Pids(ring) - {ring[k].pid} ensures pid in Pids(r) {
      var i :| 0 <= i < |ring| && ring[i].pid == pid;
      assert r[if i < k then i else i - 1].pid == pid;
    }
  }

  lemma PidsOfRotation(ring: seq<Proc>, kernel: int)
    requires ring != [] && DistinctPids(ring)
    ensures var r := ring[1..] + [ring[0].(kernel := kernel)];
            Pids(r) == Pids(ring) && DistinctPids(r)
  {
    var r := ring[1..] + [ring[0].(kernel := kernel)];
    forall pid | pid in Pids(ring) ensures pid in Pids(r) {
      var i :| 0 <= i < |ring| && ring[i].pid == pid;
      assert r[if i == 0 then |ring| - 1 else i - 1].pid == pid;
    }
  }

  lemma PerformKeeps(s: State, op: Op)
    requires Inv(s)
    ensures var r := Perform(s, op);
            && DistinctPids(r.ring) && (forall i :: 0 <= i < |r.ring| ==> 0 < r.ring[i].pid <= r.maxPid)
            && Pids(r.ring) == LiveAfter(Pids(s.ring), s.maxPid, op)
            && r.maxPid == (if op.Spawn? then s.maxPid + 1 else s.maxPid)
            && (r.gone ==> r.ring != [])
  {
    match op
    case Nothing =>
    case Spawn(stack, kernel) =>
      var r := Perform(s, op);
      assert r.ring[|s.ring|].pid == s.maxPid + 1;
      forall pid | pid in Pids(s.ring) ensures pid in Pids(r.ring) {
        var i :| 0 <= i < |s.ring| && s.ring[i].pid == pid;
        assert r.ring[i].pid == pid;
      }
    case Kill(pid) =>
      var k := RingIndex(s.ring, pid);
      if k < |s.ring| {
        PidsOfRemove(s.ring, k);
      }
  }

  /** One round keeps the ring and changes the set of processes by its operation only. */
  lemma RoundKeeps(s: State, stack: int, op: Op)
    requires Inv(s)
    ensures var r := Round(s, stack, op);
            && Inv(r) && r.maxPid == (if op.Spawn? then s.maxPid + 1 else s.maxPid)
            && Pids(r.ring) == LiveAfter(Pids(s.ring), s.maxPid, op)
  {
    var e := Enter(s, stack);
    assert Pids(e.ring) == Pids(s.ring) by {
      assert |e.ring| == |s.ring| && forall i :: 0 <= i < |s.ring| ==> e.ring[i].pid == s.ring[i].pid;
    }
    PerformKeeps(e, op);
    var p := Perform(e, op);
    if p.ring != [] && !p.gone {
      PidsOfRotation(p.ring, KernelStack(s));
    }
  }

  // ---------------------------------------------------------------- runs

  datatype Entry = Entry(stack: int, op: Op)

  function Run(s: State, entries: seq<Entry>): (r: State)
    requires !s.gone
    ensures !r.gone
  {
    if entries == [] then s
    else Round(Run(s, entries[..|entries| - 1]), entries[|entries| - 1].stack, entries[|entries| - 1].op)
  }

  function LiveAfterAll(live: set<nat>, maxPid: nat, entries: seq<Entry>): (set<nat>, nat) {
    if entries == [] then (live, maxPid)
    else
      var (l, m) := LiveAfterAll(live, maxPid, entries[..|entries| - 1]);
      var op := entries[|entries| - 1].op;
      (LiveAfter(l, m, op), if op.Spawn? then m + 1 else m)
  }

  /** At every return to user mode the ring holds exactly the processes spawned and not terminated, each once. */
  lemma {:induction false} RunKeeps(s: State, entries: seq<Entry>)
    requires Inv(s)
    ensures Inv(Run(s, entries))
    ensures (Pids(Run(s, entries).ring), Run(s, entries).maxPid) == LiveAfterAll(Pids(s.ring), s.maxPid, entries)
  {
    if entries != [] {
      var last := entries[|entries| - 1];
      RunKeeps(s, entries[..|entries| - 1]);
      RoundKeeps(Run(s, entries[..|entries| - 1]), last.stack, last.op);
    }
  }

  /** What was saved in a run: for every entry the stack of the process interrupted (0 for the idle one), and the first
    stack of every process spawned. */
  datatype Saved = Saved(pid: nat, stack: int)

  function SavedBy(s: State, e: Entry): seq<Saved> {
    [Saved(ActivePid(s), e.stack)] + if e.op.Spawn? then [Saved(s.maxPid + 1, e.op.stack)] else []
  }

  function History(s: State, entries: seq<Entry>): seq<Saved>
    requires !s.gone
  {
    if entries == [] then []
    else
      var before := entries[..|entries| - 1];
      History(s, before) + SavedBy(Run(s, before), entries[|entries| - 1])
  }

  /** The stack last saved for a process; `first` if there is none. */
  function LastSaved(history: seq<Saved>, pid: nat, first: int): int {
    if history == [] then first
    else if history[|history| - 1].pid == pid then history[|history| - 1].stack
    else LastSaved(history[..|history| - 1], pid, first)
  }

  lemma {:induction false} LastSavedAppend(history: seq<Saved>, more: seq<Saved>, pid: nat, first: int)
    ensures LastSaved(history + more, pid, first) == LastSaved(more, pid, LastSaved(history, pid, first))
  {
    if more == [] {
      assert history + more == history;
    } else {
      assert (history + more)[..|history + more| - 1] == history + more[..|more| - 1];
      LastSavedAppend(history, more[..|more| - 1], pid, first);
    }
  }

  /** The stack that a state holds for a process, 0 for the idle one. */
  ghost predicate Holds(s: State, pid: nat, stack: int) {
    if pid == 0 then s.idleStack == stack
    else exists i :: 0 <= i < |s.ring| && HasStack(s.ring[i], pid, stack)
  }

  predicate HasStack(p: Proc, pid: nat, stack: int) {
    p.pid == pid && p.stack == stack
  }

  /** A round changes the stack of a process only by saving it. */
  lemma RoundHolds(s: State, e: Entry, pid: nat, stack: int)
    requires Inv(s) && Holds(s, pid, stack)
    requires e.op != Kill(pid) || pid == 0
    ensures Holds(Round(s, e.stack, e.op), pid, LastSaved(SavedBy(s, e), pid, stack))
  {
    var entered, performed, left := Enter(s, e.stack), Perform(Enter(s, e.stack), e.op), Round(s, e.stack, e.op);
    var stack' := if ActivePid(s) == pid then e.stack else stack;
    assert LastSaved(SavedBy(s, e), pid, stack) == stack' by {
      SavedByLast(s, e, pid, stack);
    }
    if pid != 0 {
      var i :| 0 <= i < |s.ring| && HasStack(s.ring[i], pid, stack);
      assert HasStack(entered.ring[i], pid, stack');
      PerformHolds(entered, e.op, i);
      var j :| 0 <= j < |performed.ring| && performed.ring[j] == entered.ring[i];
      assert HasStack(left.ring[if performed.gone then j else if j == 0 then |performed.ring| - 1 else j - 1], pid, stack');
    }
  }

  lemma SavedByLast(s: State, e: Entry, pid: nat, stack: int)
    requires Inv(s) && pid <= s.maxPid
    ensures LastSaved(SavedBy(s, e), pid, stack) == if ActivePid(s) == pid then e.stack else stack
  {
    var one := [Saved(ActivePid(s), e.stack)];
    assert LastSaved(one, pid, stack) == if ActivePid(s) == pid then e.stack else stack;
    if e.op.Spawn? {
      assert SavedBy(s, e)[..1] == one;
    }
  }

  lemma PerformHolds(s: State, op: Op, i: nat)
    requires Inv(s) && i < |s.ring| && op != Kill(s.ring[i].pid)
    ensures exists j :: 0 <= j < |Perform(s, op).ring| && Perform(s, op).ring[j] == s.ring[i]
  {
    var r := Perform(s, op);
    var k := if op.Kill? then RingIndex(s.ring, op.pid) else |s.ring|;
    assert r.ring[if i < k then i else i - 1] == s.ring[i];
  }

  /** Every process that a run leaves is held with the stack last saved for it. */
  ghost predicate AllHeld(s: State, history: seq<Saved>, idle: int) {
    && s.idleStack == LastSaved(history, 0, idle)
    && forall i :: 0 <= i < |s.ring| ==> s.ring[i].stack == LastSaved(history, s.ring[i].pid, idle)
  }

  lemma HeldIsUnique(s: State, i: nat, pid: nat, stack: int)
    requires Inv(s) && i < |s.ring| && s.ring[i].pid == pid && Holds(s, pid, stack)
    ensures s.ring[i].stack == stack
  {
    var j :| 0 <= j < |s.ring| && HasStack(s.ring[j], pid, stack);
  }

  lemma SpawnHolds(s: State, e: Entry)
    requires Inv(s) && e.op.Spawn?
    ensures Holds(Round(s, e.stack, e.op), s.maxPid + 1, e.op.stack)
  {
    var p := Perform(Enter(s, e.stack), e.op);
    var r := Round(s, e.stack, e.op);
    var n := |s.ring|;
    assert HasStack(p.ring[n], s.maxPid + 1, e.op.stack);
    assert HasStack(r.ring[if n == 0 then 0 else n - 1], s.maxPid + 1, e.op.stack);
  }

  lemma RoundAllHeld(s: State, e: Entry, history: seq<Saved>, idle: int)
    requires Inv(s) && AllHeld(s, history, idle)
    ensures AllHeld(Round(s, e.stack, e.op), history + SavedBy(s, e), idle)
  {
    var r := Round(s, e.stack, e.op);
    RoundKeeps(s, e.stack, e.op);
    hide Round, SavedBy;
    LastSavedAppend(history, SavedBy(s, e), 0, idle);
    RoundHolds(s, e, 0, s.idleStack);
    forall i | 0 <= i < |r.ring| ensures r.ring[i].stack == LastSaved(history + SavedBy(s, e), r.ring[i].pid, idle) {
      ProcHeld(s, e, history, idle, i);
    }
  }

  lemma ProcHeld(s: State, e: Entry, history: seq<Saved>, idle: int, i: nat)
    requires Inv(s) && AllHeld(s, history, idle) && i < |Round(s, e.stack, e.op).ring|
    ensures var p := Round(s, e.stack, e.op).ring[i];
            p.stack == LastSaved(history + SavedBy(s, e), p.pid, idle)
  {
    var r := Round(s, e.stack, e.op);
    RoundKeeps(s, e.stack, e.op);
    hide Round;
    var pid := r.ring[i].pid;
    assert pid in Pids(r.ring);
    LastSavedAppend(history, SavedBy(s, e), pid, idle);
    if pid in Pids(s.ring) {
      var j :| 0 <= j < |s.ring| && s.ring[j].pid == pid;
      var stack := LastSaved(history, pid, idle);
      assert HasStack(s.ring[j], pid, stack);
      RoundHolds(s, e, pid, stack);
      HeldIsUnique(r, i, pid, LastSaved(SavedBy(s, e), pid, stack));
    } else {
      SpawnHolds(s, e);
      HeldIsUnique(r, i, pid, e.op.stack);
      assert SavedBy(s, e)[1] == Saved(pid, e.op.stack);
    }
  }

  /** At every return to user mode the processor continues on the stack last saved for the process it continues with. */
  lemma {:induction false} ResumedWithSavedStack(idle: int, kernel: int, entries: seq<Entry>)
    ensures var s := State([], false, idle, kernel, 0);
            var r := Run(s, entries);
            && Inv(r) && AllHeld(r, History(s, entries), idle)
            && Resumed(r) == LastSaved(History(s, entries), ActivePid(r), idle)
  {
    var s := State([], false, idle, kernel, 0);
    if entries != [] {
      var before := entries[..|entries| - 1];
      ResumedWithSavedStack(idle, kernel, before);
      RoundAllHeld(Run(s, before), entries[|entries| - 1], History(s, before), idle);
      RoundKeeps(Run(s, before), entries[|entries| - 1].stack, entries[|entries| - 1].op);
    }
  }

  // ---------------------------------------------------------------- order and waiting

  function PidSeq(ring: seq<Proc>): (r: seq<nat>)
    ensures |r| == |ring|
  {
    seq(|ring|, i requires 0 <= i < |ring| => ring[i].pid)
  }

  ghost predicate IsRotation(a: seq<nat>, b: seq<nat>) {
    exists m :: 0 <= m <= |b| && a == b[m..] + b[..m]
  }

  /** Terminating a process takes it out of the cyclic order and leaves the order of the others as it is. */
  lemma KillKeepsOrder(s: State, stack: int, pid: nat)
    requires Inv(s)
    ensures var k := RingIndex(s.ring, pid);
            var before := PidSeq(s.ring);
            IsRotation(PidSeq(Round(s, stack, Kill(pid)).ring), if k < |before| then before[..k] + before[k + 1..] else before)
  {
    var k := RingIndex(s.ring, pid);
    var before := PidSeq(s.ring);
    var rest := if k < |before| then before[..k] + before[k + 1..] else before;
    EnterKeepsIndex(s, stack, pid);
    var entered := Enter(s, stack);
    assert Inv(entered) && Round(s, stack, Kill(pid)) == Leave(AfterKill(entered, pid), KernelStack(s));
    hide Enter, Inv, DistinctPids;
    KilledRotation(entered, pid, rest, KernelStack(s));
  }

  lemma KilledRotation(s: State, pid: nat, rest: seq<nat>, kernel: int)
    requires !s.gone
    requires var k := RingIndex(s.ring, pid);
             rest == if k < |s.ring| then PidSeq(s.ring)[..k] + PidSeq(s.ring)[k + 1..] else PidSeq(s.ring)
    ensures IsRotation(PidSeq(Leave(AfterKill(s, pid), kernel).ring), rest)
  {
    var k, r := RingIndex(s.ring, pid), AfterKill(s, pid);
    if k < |s.ring| {
      assert r.ring == Remove(s.ring, k);
      PidsAfterRemove(s.ring, k);
    }
    assert PidSeq(r.ring) == rest;
    hide RingIndex, AfterKill, Remove, PidSeq, IsRotation;
    LeavingRotates(r, kernel);
  }

  lemma PidsAfterRemove(ring: seq<Proc>, k: nat)
    requires k < |ring|
    ensures PidSeq(Remove(ring, k)) == PidSeq(ring)[..k] + PidSeq(ring)[k + 1..]
  {
  }

  lemma LeavingRotates(s: State, kernel: int)
    ensures IsRotation(PidSeq(Leave(s, kernel).ring), PidSeq(s.ring))
  {
    var before, after := PidSeq(s.ring), PidSeq(Leave(s, kernel).ring);
    if s.ring == [] || s.gone {
      assert after == before[0..] + before[..0];
    } else {
      assert after == before[1..] + before[..1];
    }
  }

  lemma EnterKeepsIndex(s: State, stack: int, pid: nat)
    requires !s.gone
    ensures RingIndex(Enter(s, stack).ring, pid) == RingIndex(s.ring, pid)
    ensures PidSeq(Enter(s, stack).ring) == PidSeq(s.ring)
  {
    var r := Enter(s, stack).ring;
    if s.ring != [] {
      assert r[1..] == s.ring[1..];
    }
  }

  /** A new process goes behind all others. */
  lemma SpawnGoesLast(s: State, stack: int, first: int, kernel: int)
    requires Inv(s) && s.ring != []
    ensures var before := PidSeq(s.ring);
            PidSeq(Round(s, stack, Spawn(first, kernel)).ring) == before[1..] + [s.maxPid + 1] + before[..1]
  {
  }

  /** No round increases the distance of a process that waits: it moves at least one place forward. */
  lemma MovesForward(s: State, stack: int, op: Op, d: nat)
    requires Inv(s) && 0 < d < |s.ring| && op != Kill(s.ring[d].pid)
    ensures var r := Round(s, stack, op);
            exists d' :: 0 <= d' < d && d' < |r.ring| && r.ring[d'].pid == s.ring[d].pid
  {
    var e, r := Enter(s, stack), Round(s, stack, op);
    EnterKeepsIndex(s, stack, if op.Kill? then op.pid else 0);
    var k := if op.Kill? then RingIndex(s.ring, op.pid) else |s.ring|;
    var d' := if 0 < k < d then d - 2 else d - 1;
    assert e.ring[d] == s.ring[d];
    assert Perform(e, op).ring[if k < d then d - 1 else d] == s.ring[d];
    assert r.ring[d'].pid == s.ring[d].pid;
  }

  ghost predicate RanWithin(s: State, entries: seq<Entry>, pid: nat, n: nat)
    requires !s.gone && n <= |entries|
  {
    exists k :: 1 <= k <= n && ActivePid(Run(s, entries[..k])) == pid
  }

  lemma {:induction false} Approaches(s: State, entries: seq<Entry>, pid: nat, d: nat, n: nat)
    requires Inv(s) && 0 < d < |s.ring| && s.ring[d].pid == pid
    requires n <= d <= |entries| && forall k :: 0 <= k < d ==> entries[k].op != Kill(pid)
    ensures RanWithin(s, entries, pid, n) || WaitsAt(Run(s, entries[..n]), pid, d - n)
    decreases n
  {
    if n == 0 {
      assert entries[..0] == [];
      assert WaitsAt(s, pid, d);
    } else {
      Approaches(s, entries, pid, d, n - 1);
      if RanWithin(s, entries, pid, n - 1) {
        var k :| 1 <= k <= n - 1 && ActivePid(Run(s, entries[..k])) == pid;
        assert RanWithin(s, entries, pid, n);
      } else {
        RunKeeps(s, entries[..n - 1]);
        assert entries[..n][..n - 1] == entries[..n - 1];
        OneStepCloser(Run(s, entries[..n - 1]), entries[n - 1], pid, d - n + 1);
      }
    }
  }

  /** The process is on the ring, behind the active one by at most `d` places. */
  ghost predicate WaitsAt(s: State, pid: nat, d: int) {
    exists i :: 1 <= i <= d && i < |s.ring| && s.ring[i].pid == pid
  }

  lemma OneStepCloser(s: State, e: Entry, pid: nat, d: int)
    requires Inv(s) && WaitsAt(s, pid, d) && e.op != Kill(pid)
    ensures var r := Round(s, e.stack, e.op);
            ActivePid(r) == pid || WaitsAt(r, pid, d - 1)
  {
    var i :| 1 <= i <= d && i < |s.ring| && s.ring[i].pid == pid;
    MovesForward(s, e.stack, e.op, i);
  }

  /** Bounded waiting: a live process `d` places behind the active one runs within `d` rounds, whatever the others do. */
  lemma BoundedWaiting(s: State, entries: seq<Entry>, d: nat)
    requires Inv(s) && 0 < d < |s.ring| && d <= |entries|
    requires forall k :: 0 <= k < d ==> entries[k].op != Kill(s.ring[d].pid)
    ensures exists k :: 1 <= k <= d && ActivePid(Run(s, entries[..k])) == s.ring[d].pid
  {
    Approaches(s, entries, s.ring[d].pid, d, d);
  }

  // ---------------------------------------------------------------- kernel stacks

  predicate HasKernel(p: Proc, pid: nat, kernel: int) {
    p.pid == pid && p.kernel == kernel
  }

  /** What a round does to kernel stacks: a process keeps its own, a new one gets that of its operation, except that a process
    spawned when there is none takes that of the idle one; and the last process to go leaves its own to the idle one. */
  lemma RoundKernels(s: State, stack: int, op: Op, pid: nat, kernel: int)
    requires Inv(s)
    ensures var r := Round(s, stack, op);
            && r.idleKernel == (if s.ring != [] && r.ring == [] then s.ring[0].kernel else s.idleKernel)
            && (HasOne(r.ring, pid, kernel) <==>
                  if op.Spawn? && pid == s.maxPid + 1 then kernel == if s.ring == [] then s.idleKernel else op.kernel
                  else op != Kill(pid) && HasOne(s.ring, pid, kernel))
  {
    var e := Enter(s, stack);
    var p, r := Perform(e, op), Round(s, stack, op);
    assert HasOne(e.ring, pid, kernel) <==> HasOne(s.ring, pid, kernel) by {
      SameKernels(s.ring, e.ring, pid, kernel);
    }
    if op.Spawn? {
      SpawnedHas(e.ring, p.ring[|s.ring|], pid, kernel);
    } else if op.Kill? && RingIndex(e.ring, op.pid) < |e.ring| {
      RemovedHas(e.ring, RingIndex(e.ring, op.pid), pid, kernel);
    }
    if s.ring != [] && p.ring != [] && !p.gone {
      RotatedHas(p.ring, r.ring, pid, kernel);
    }
    if s.ring == [] && op.Spawn? {
      assert HasKernel(r.ring[0], s.maxPid + 1, s.idleKernel) && |r.ring| == 1;
    }
  }

  lemma SameKernels(a: seq<Proc>, b: seq<Proc>, pid: nat, kernel: int)
    requires |a| == |b| && forall i :: 0 <= i < |a| ==> a[i].pid == b[i].pid && a[i].kernel == b[i].kernel
    ensures HasOne(a, pid, kernel) <==> HasOne(b, pid, kernel)
  {
    if HasOne(a, pid, kernel) {
      var i :| 0 <= i < |a| && HasKernel(a[i], pid, kernel);
      assert HasKernel(b[i], pid, kernel);
    }
    if HasOne(b, pid, kernel) {
      var i :| 0 <= i < |b| && HasKernel(b[i], pid, kernel);
      assert HasKernel(a[i], pid, kernel);
    }
  }

  lemma SpawnedHas(ring: seq<Proc>, new_: Proc, pid: nat, kernel: int)
    ensures HasOne(ring + [new_], pid, kernel) <==> HasOne(ring, pid, kernel) || HasKernel(new_, pid, kernel)
  {
    var r := ring + [new_];
    assert r[|ring|] == new_ && forall i :: 0 <= i < |ring| ==> r[i] == ring[i];
  }

  lemma RemovedHas(ring: seq<Proc>, k: nat, pid: nat, kernel: int)
    requires k < |ring| && DistinctPids(ring)
    ensures HasOne(Remove(ring, k), pid, kernel) <==> HasOne(ring, pid, kernel) && pid != ring[k].pid
  {
    var r := Remove(ring, k);
    assert forall i :: 0 <= i < |r| ==> r[i] == ring[if i < k then i else i + 1];
    if HasOne(ring, pid, kernel) && pid != ring[k].pid {
      var i :| 0 <= i < |ring| && HasKernel(ring[i], pid, kernel);
      assert HasKernel(r[if i < k then i else i - 1], pid, kernel);
    }
  }

  lemma RotatedHas(ring: seq<Proc>, rotated: seq<Proc>, pid: nat, kernel: int)
    requires ring != [] && rotated == ring[1..] + [ring[0]]
    ensures HasOne(rotated, pid, kernel) <==> HasOne(ring, pid, kernel)
  {
    if HasOne(ring, pid, kernel) {
      var i :| 0 <= i < |ring| && HasKernel(ring[i], pid, kernel);
      assert HasKernel(rotated[if i == 0 then |ring| - 1 else i - 1], pid, kernel);
    }
  }


  ghost predicate HasOne(ring: seq<Proc>, pid: nat, kernel: int) {
    exists i :: 0 <= i < |ring| && HasKernel(ring[i], pid, kernel)
  }

  /** No two processes have the same kernel stack. */
  ghost predicate OwnKernels(ring: seq<Proc>) {
    forall p, q, kernel :: HasOne(ring, p, kernel) && HasOne(ring, q, kernel) ==> p == q
  }

  /** The process has the kernel stack of the idle one. */
  ghost predicate Borrows(s: State, pid: nat) {
    HasOne(s.ring, pid, s.idleKernel)
  }

  /** A new process is given a kernel stack that no other has. */
  ghost predicate NewKernel(s: State, op: Op) {
    op.Spawn? ==> op.kernel != s.idleKernel && forall p :: !HasOne(s.ring, p, op.kernel)
  }

  /** Processes never share a kernel stack with each other.  One of them shares that of the idle process exactly from its spawn
    while there was no other until it is terminated. */
  lemma KernelsAfterRound(s: State, stack: int, op: Op)
    requires Inv(s) && OwnKernels(s.ring) && NewKernel(s, op)
    ensures var r := Round(s, stack, op);
            && OwnKernels(r.ring)
            && forall pid :: Borrows(r, pid) <==>
                 if s.ring == [] then op.Spawn? && pid == s.maxPid + 1 else Borrows(s, pid) && op != Kill(pid)
  {
    var r := Round(s, stack, op);
    forall pid, kernel ensures HasOne(r.ring, pid, kernel) <==>
                  if op.Spawn? && pid == s.maxPid + 1 then kernel == if s.ring == [] then s.idleKernel else op.kernel
                  else op != Kill(pid) && HasOne(s.ring, pid, kernel) {
      RoundKernels(s, stack, op, pid, kernel);
    }
    RoundKernels(s, stack, op, 0, 0);
    LastToGo(s, stack, op);
    hide Round, HasOne;
  }

  lemma LastToGo(s: State, stack: int, op: Op)
    requires Inv(s)
    ensures s.ring == [] ==> forall p, kernel :: !HasOne(s.ring, p, kernel)
    ensures Round(s, stack, op).ring == [] ==> forall p, kernel :: !HasOne(Round(s, stack, op).ring, p, kernel)
    ensures s.ring != [] && Round(s, stack, op).ring == [] ==> op == Kill(s.ring[0].pid) && |s.ring| == 1
  {
  }

  /** The process that borrows the idle one's kernel stack after a round, 0 for none. */
  function NextBorrower(s: State, op: Op, before: nat): nat {
    if s.ring == [] then if op.Spawn? then s.maxPid + 1 else 0
    else if op == Kill(before) then 0
    else before
  }

  function BorrowerAfter(s: State, entries: seq<Entry>, before: nat): nat
    requires !s.gone
  {
    if entries == [] then before
    else
      var rest := entries[..|entries| - 1];
      NextBorrower(Run(s, rest), entries[|entries| - 1].op, BorrowerAfter(s, rest, before))
  }

  ghost predicate OnlyBorrower(s: State, borrower: nat) {
    forall pid: nat :: Borrows(s, pid) <==> pid != 0 && pid == borrower
  }

  lemma BorrowerAfterRound(s: State, stack: int, op: Op, borrower: nat)
    requires Inv(s) && OwnKernels(s.ring) && NewKernel(s, op) && OnlyBorrower(s, borrower)
    ensures OwnKernels(Round(s, stack, op).ring) && OnlyBorrower(Round(s, stack, op), NextBorrower(s, op, borrower))
  {
    KernelsAfterRound(s, stack, op);
    hide Round, Borrows, OwnKernels;
  }

  lemma NoneBorrows(s: State)
    requires s.ring == []
    ensures Inv(s.(gone := false)) && OwnKernels(s.ring) && OnlyBorrower(s, 0)
  {
  }

  /** Over every run in which new processes are given new kernel stacks, from the start on: no two processes share one, and exactly
    the borrower shares that of the idle process. */
  lemma {:induction false} RunKernels(s: State, entries: seq<Entry>)
    requires s.ring == [] && !s.gone
    requires forall k :: 0 <= k < |entries| ==> NewKernel(Run(s, entries[..k]), entries[k].op)
    ensures Inv(Run(s, entries)) && OwnKernels(Run(s, entries).ring)
    ensures OnlyBorrower(Run(s, entries), BorrowerAfter(s, entries, 0))
  {
    NoneBorrows(s);
    hide Round, NextBorrower, OwnKernels, OnlyBorrower, NewKernel, Inv;
    if entries != [] {
      var n := |entries| - 1;
      forall k | 0 <= k < n ensures NewKernel(Run(s, entries[..n][..k]), entries[..n][k].op) {
        assert entries[..n][..k] == entries[..k];
      }
      RunKernels(s, entries[..n]);
      var t := Run(s, entries[..n]);
      RoundKeeps(t, entries[n].stack, entries[n].op);
      BorrowerAfterRound(t, entries[n].stack, entries[n].op, BorrowerAfter(s, entries[..n], 0));
    }
  }

  /** The first process has the kernel stack of the idle one, not the one it was given. */
  lemma FirstBorrows(idle: int, kernel: int, own: int, stack: int, first: int)
    requires own != kernel
    ensures Borrows(Round(State([], false, idle, kernel, 0), stack, Spawn(first, own)), 1)
  {
    RoundKernels(State([], false, idle, kernel, 0), stack, Spawn(first, own), 1, kernel);
    RoundKernels(State([], false, idle, kernel, 0), stack, Spawn(first, own), 0, 0);
  }
}
