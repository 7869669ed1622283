/** The scheduler in the form of the kernel: process records linked in a circle, and the pointer to the active one. */
module SchedRing {
  import opened Sched

  const SCHED_MAX_PROC: nat := 20

  class Process {
    var pid: nat
    var stack: int
    var kernelStack: int
    var code: int
    var next: Process?

    constructor (stack: int, kernelStack: int)
      ensures pid == 0 && this.stack == stack && this.kernelStack == kernelStack && next == null
    {
      pid, this.stack, this.kernelStack, code, next := 0, stack, kernelStack, 0, null;
    }
  }

  class Scheduler {
    var active: Process?
    const idle: Process
    var maxPid: nat
    var procIdx: nat            // records are handed out once, in order, and never again
    ghost var ring: seq<Process>
    ghost var gone: bool

    constructor (idleStack: int, kernelStack: int)
      ensures Valid() && Abs() == State([], false, idleStack, kernelStack, 0) && procIdx == 0 && fresh(idle)
    {
      idle := new Process(idleStack, kernelStack);
      active, maxPid, procIdx, ring, gone := null, 0, 0, [], false;
    }

    static ghost predicate NextIs(p: Process, ring: seq<Process>, i: nat)
      requires i < |ring|
      reads p
    {
      p.next == ring[Succ(|ring|, i)]
    }

    static ghost predicate Circle(ring: seq<Process>)
      reads ring
    {
      && (forall i, j :: 0 <= i < j < |ring| ==> ring[i] != ring[j])
      && (forall i {:trigger NextIs(ring[i], ring, i)} :: 0 <= i < |ring| ==> NextIs(ring[i], ring, i))
    }

    /** The next pointers form one circle; the active process is on it or, just terminated, points to it. */
    ghost predicate Valid()
      reads this, idle, active, ring
    {
      && Circle(ring) && idle !in ring && active != idle && maxPid == procIdx
      && (ring == [] <==> active == null)
      && (ring == [] ==> !gone)
      && (ring != [] && !gone ==> active == ring[0])
      && (gone ==> active != null && active !in ring && active.next == ring[0])
    }

    ghost function Abs(): State
      reads this, idle, ring
    {
      State(Procs(ring), gone, idle.stack, idle.kernelStack, maxPid)
    }

    static ghost function Procs(ring: seq<Process>): (r: seq<Proc>)
      reads ring
      ensures |r| == |ring| && forall i :: 0 <= i < |ring| ==> r[i] == Proc(ring[i].pid, ring[i].stack, ring[i].kernelStack)
    {
      seq(|ring|, i requires 0 <= i < |ring| reads ring => Proc(ring[i].pid, ring[i].stack, ring[i].kernelStack))
    }

    method SwitchToKernelStack(stack: int) returns (kernelStack: int)
      requires Valid() && !gone
      modifies idle, active
      ensures Valid() && Abs() == Enter(old(Abs()), stack) && kernelStack == KernelStack(old(Abs()))
    {
      if active == null {
        idle.stack := stack;
        return idle.kernelStack;
      }
      active.stack := stack;
      return active.kernelStack;
    }

    /** One kernel entry as the system call and interrupt stubs fix it: save, at most one operation, switch. */
    method KernelEntry(userStack: int, op: Op) returns (resumed: int)
      requires Valid() && !gone && (op.Spawn? ==> procIdx < SCHED_MAX_PROC)
      modifies this, idle, active, ring
      ensures Valid() && !gone
      ensures Abs() == Round(old(Abs()), userStack, op) && resumed == Resumed(Abs())
    {
      hide Circle, Procs, Enter, AfterSpawn, AfterKill, Leave, Remove, KernelStack;
      ghost var s := Abs();
      var onStack := SwitchToKernelStack(userStack);
      match op {
        case Nothing =>
        case Spawn(stack, kernelStack) => var pid := SpawnModule(stack, kernelStack);
        case Kill(pid) => var r := TerminateProcess(pid, 0);
      }
      resumed := SwitchToUserStack(onStack);
    }

    method SetKernelStack(kernelStack: int)
      requires Valid() && active != null
      modifies active`kernelStack
      ensures Valid() && active.next == old(active.next) && ring == old(ring)
      ensures Procs(ring) == if gone then old(Procs(ring)) else old(Procs(ring))[0 := old(Procs(ring))[0].(kernel := kernelStack)]
    {
      active.kernelStack := kernelStack;
      assert forall i :: 0 <= i < |ring| ==> old(NextIs(ring[i], ring, i)) ==> NextIs(ring[i], ring, i);
    }

    method SwitchToUserStack(kernelStack: int) returns (stack: int)
      requires Valid()
      modifies this, idle, active
      ensures Valid() && Abs() == Leave(old(Abs()), kernelStack) && stack == Resumed(Abs())
      ensures ring == [] || (active == ring[0] && !gone)
    {
      if active == null {
        idle.kernelStack := kernelStack;
        return idle.stack;
      }
      hide Circle, Procs, Leave;
      ghost var s := Abs();
      SetKernelStack(kernelStack);
      Advance();
      SavedAndLeft(s, kernelStack);
      return active.stack;
    }

    /** The next process of the circle becomes the active one. */
    method Advance()
      requires Valid() && active != null
      modifies this`active, this`ring, this`gone
      ensures Valid() && active != null && Abs() == Leave(old(Abs()), KernelStack(old(Abs()))) && active == ring[0] && !gone
    {
      hide Circle, Procs, Leave, Rotate, KernelStack;
      ghost var s := Abs();
      CircleFacts(ring, 0);
      LeaveRotates(s);
      active := active.next;
      if gone {
        gone := false;
      } else {
        RotateCircle(ring);
        ring := Rotate(ring);
      }
    }

    method SpawnModule(stack: int, kernelStack: int) returns (pid: nat)
      requires Valid() && !gone && procIdx < SCHED_MAX_PROC
      modifies this, ring
      ensures Valid() && Abs() == AfterSpawn(old(Abs()), stack, kernelStack)
      ensures pid == procIdx == old(procIdx) + 1
      ensures active == old(active) || (active != null && fresh(active))
    {
      hide Circle, Procs, AfterSpawn;
      ghost var s := Abs();
      var process := new Process(stack, kernelStack);
      procIdx := procIdx + 1;
      maxPid := maxPid + 1;
      process.pid := maxPid;
      Enlist(process);
      Joined(s, stack, kernelStack);
      return process.pid;
    }

    lemma Joined(s: State, stack: int, kernel: int)
      requires !s.gone
      ensures State(s.ring + [Proc(s.maxPid + 1, stack, kernel)], false, s.idleStack, s.idleKernel, s.maxPid + 1)
              == AfterSpawn(s, stack, kernel)
    {
    }

    /** Links a new process behind the last of the circle, or on its own. */
    method Enlist(process: Process)
      requires Valid() && !gone && process !in ring && process != idle
      modifies this`active, this`ring, process`next, ring
      ensures Valid() && !gone && idle.stack == old(idle.stack) && idle.kernelStack == old(idle.kernelStack)
      ensures Procs(ring) == old(Procs(ring)) + [Proc(process.pid, process.stack, process.kernelStack)]
      ensures active == old(active) || active == process
      ensures process.pid == old(process.pid) && process.stack == old(process.stack) && process.kernelStack == old(process.kernelStack)
    {
      hide Circle, Procs;
      if active == null {
        active := process;
      }
      process.next := active;
      var last := LastOf(process);
      LinkBehind(last, process);
      ProcsAppend(ring, process);
      ring := ring + [process];
    }

    /** The process whose successor is the active one; a new process on its own is its own successor. */
    method LastOf(process: Process) returns (last: Process)
      requires Circle(ring) && process !in ring && active != null && process.next == active
      requires if ring == [] then active == process else active == ring[0]
      ensures last == if ring == [] then process else ring[|ring| - 1]
    {
      last := active;
      ghost var i := 0;
      while last.next != active
        invariant 0 <= i && (ring == [] ==> last == process) && (ring != [] ==> i < |ring| && last == ring[i])
        decreases |ring| - i
      {
        assert NextIs(ring[i], ring, i);
        last := last.next;
        i := i + 1;
      }
      assert ring != [] ==> NextIs(ring[i], ring, i);
    }

    method LinkBehind(last: Process, process: Process)
      requires Circle(ring) && process !in ring
      requires process.next == (if ring == [] then process else ring[0])
      requires last == if ring == [] then process else ring[|ring| - 1]
      modifies last`next
      ensures Circle(ring + [process]) && Procs(ring) == old(Procs(ring))
    {
      ghost var all := ring + [process];
      last.next := process;
      forall j | 0 <= j < |all| ensures NextIs(all[j], all, j) {
        assert j < |ring| - 1 ==> old(NextIs(ring[j], ring, j));
      }
    }

    /** -1 when there is no such process. */
    method TerminateProcess(pid: nat, retval: int) returns (r: int)
      requires Valid() && !gone
      modifies this, ring
      ensures Valid() && Abs() == AfterKill(old(Abs()), pid)
      ensures active == old(active) || active == null
      ensures r == (if RingIndex(old(Abs()).ring, pid) < |old(Abs()).ring| then 0 else -1)
      ensures forall i :: 0 <= i < |old(ring)| ==>
                old(ring)[i].code == if i == RingIndex(old(Abs()).ring, pid) then retval else old(ring[i].code)
    {
      hide Circle, Procs, Remove, AfterKill, RingIndex;
      ghost var s := Abs();
      if active == null {
        KilledNone(s, pid);
        return -1;
      }
      CircleFacts(ring, 0);
      var prev := Tail();
      var process := active;
      ghost var k := 0;
      while true
        invariant 0 <= k < |ring| && process == ring[k]
        invariant prev == ring[Pred(|ring|, k)]
        invariant forall i :: 0 <= i < k ==> ring[i].pid != pid
        invariant ring == old(ring) && Valid() && !gone && Abs() == s
        invariant forall i :: 0 <= i < |ring| ==> ring[i].code == old(ring[i].code)
        decreases |ring| - k
      {
        r := TerminateHere(prev, process, pid, retval, k);
        if r == 0 {
          KilledSome(s, pid, k);
          IndexIs(s.ring, pid, k);
          return 0;
        }
        CircleFacts(ring, k);
        prev := process;
        if process.next == active {
          KilledNone(s, pid);
          return -1;
        }
        process := process.next;
        k := k + 1;
      }
    }

    /** One round of that loop: terminates process `k` if it has the pid, and answers 0 then. */
    method TerminateHere(prev: Process, process: Process, pid: nat, retval: int, ghost k: nat) returns (r: int)
      requires Valid() && !gone && k < |ring| && process == ring[k] && prev == ring[Pred(|ring|, k)]
      requires forall i :: 0 <= i < k ==> ring[i].pid != pid
      modifies this`ring, this`gone, this`active, ring
      ensures if old(process.pid) == pid then r == 0 else r == -1
      ensures forall i :: 0 <= i < |old(ring)| ==> old(ring)[i].code == if r == 0 && i == k then retval else old(ring[i].code)
      ensures r != 0 ==> ring == old(ring) && gone == old(gone) && active == old(active) && Procs(ring) == old(Procs(ring))
      ensures r == 0 ==> Abs() == AfterKill(old(Abs()), pid)
      ensures Valid() && (active == old(active) || active == null)
    {
      hide Circle, Procs, Remove, AfterKill;
      ghost var s := Abs();
      if process.pid != pid {
        return -1;
      }
      CircleDistinct(ring);
      OthersApart(ring, k);
      CircleFacts(ring, 0);
      IndexIs(s.ring, pid, k);
      if active == active.next {
        process.code := retval;
        active, ring := null, [];
        EmptyCircle();
        KilledLast(s, pid);
      } else {
        KilledOne(s, pid, k);
        Unlink(prev, process, retval, k);
      }
      return 0;
    }

    /** The process before the active one. */
    method Tail() returns (prev: Process)
      requires Valid() && !gone && ring != []
      ensures prev == ring[|ring| - 1]
    {
      prev := active;
      ghost var i := 0;
      while prev.next != active
        invariant 0 <= i < |ring| && prev == ring[i]
        decreases |ring| - i
      {
        assert NextIs(ring[i], ring, i);
        prev := prev.next;
        i := i + 1;
      }
      assert NextIs(ring[i], ring, i);
    }

    /** Takes process `k` of at least two out of the circle. */
    method Unlink(prev: Process, process: Process, retval: int, ghost k: nat)
      requires Valid() && !gone && 1 < |ring| && k < |ring|
      requires process == ring[k] && prev == ring[Pred(|ring|, k)]
      modifies this`ring, this`gone, ring
      ensures active == old(active) && forall p :: p in old(ring) ==> p.code == if p == process then retval else old(p.code)
      ensures Valid() && gone == (k == 0) && Abs().ring == Remove(old(Abs()).ring, k)
      ensures idle.stack == old(idle.stack) && idle.kernelStack == old(idle.kernelStack)
    {
      hide Remove, Circle, Procs;
      ghost var procs := Procs(ring);
      Relink(prev, process, k);
      process.code := retval;
      RemovedProcs(procs, Procs(ring), Procs(Remove(ring, k)), k);
      ring := Remove(ring, k);
      gone := k == 0;
    }

    method Relink(prev: Process, process: Process, ghost k: nat)
      requires Circle(ring) && 1 < |ring| && k < |ring|
      requires process == ring[k] && prev == ring[Pred(|ring|, k)]
      modifies prev`next
      ensures Circle(Remove(ring, k)) && process !in Remove(ring, k)
      ensures forall i :: 0 <= i < |ring| - 1 ==> Remove(ring, k)[i] == ring[Shifted(k, i)]
      ensures k == 0 ==> process.next == Remove(ring, k)[0]
    {
      hide Remove, Succ, Pred, Circle;
      ghost var rest := Remove(ring, k);
      CircleDistinct(ring);
      RestFacts(ring, k);
      ghost var nexts := Nexts(ring);
      prev.next := process.next;
      ghost var now := nexts[Pred(|ring|, k) := nexts[k]];
      assert forall i {:trigger now[i]} :: 0 <= i < |ring| ==> ring[i].next == now[i];
      Relinked(ring, rest, nexts, now, k);
      forall i | 0 <= i < |rest| ensures NextIs(rest[i], rest, i) {
        assert rest[i] == ring[Shifted(k, i)];
      }
      MakesCircle(rest);
      AfterFirst(|ring|, k);
    }
  }

  /** What the next pointers of a circle are. */
  ghost function Nexts(ring: seq<Process>): (r: seq<Process>)
    requires Scheduler.Circle(ring)
    reads ring
    ensures |r| == |ring| && forall i {:trigger r[i]} :: 0 <= i < |ring| ==> r[i] == ring[Succ(|ring|, i)] && ring[i].next == r[i]
  {
    assert forall i :: 0 <= i < |ring| ==> Scheduler.NextIs(ring[i], ring, i);
    seq(|ring|, i requires 0 <= i < |ring| => ring[Succ(|ring|, i)])
  }

  /** The successors, after that of the process before the one taken out was changed to the one behind it. */
  lemma Relinked<T>(ring: seq<T>, rest: seq<T>, nexts: seq<T>, now: seq<T>, k: nat)
    requires k < |ring| == |nexts| && |rest| == |ring| - 1
    requires forall i {:trigger rest[i]} :: 0 <= i < |rest| ==> rest[i] == ring[Shifted(k, i)]
    requires forall i {:trigger nexts[i]} :: 0 <= i < |ring| ==> nexts[i] == ring[Succ(|ring|, i)]
    requires now == nexts[Pred(|ring|, k) := nexts[k]]
    ensures forall i :: 0 <= i < |rest| ==> now[Shifted(k, i)] == rest[Succ(|rest|, i)]
  {
    hide Succ, Pred;
    forall i | 0 <= i < |rest| ensures now[Shifted(k, i)] == rest[Succ(|rest|, i)] {
      SuccessorInRest(|ring|, k, i);
    }
  }

  lemma MakesCircle(ring: seq<Process>)
    requires forall i, j :: 0 <= i < j < |ring| ==> ring[i] != ring[j]
    requires forall i {:trigger Scheduler.NextIs(ring[i], ring, i)} :: 0 <= i < |ring| ==> Scheduler.NextIs(ring[i], ring, i)
    ensures Scheduler.Circle(ring)
  {
  }

  lemma CircleDistinct(ring: seq<Process>)
    requires Scheduler.Circle(ring)
    ensures forall i, j :: 0 <= i < j < |ring| ==> ring[i] != ring[j]
  {
  }

  lemma RestFacts<T>(ring: seq<T>, k: nat)
    requires k < |ring| && forall i, j :: 0 <= i < j < |ring| ==> ring[i] != ring[j]
    ensures var rest := Remove(ring, k);
            && |rest| == |ring| - 1 && ring[k] !in rest
            && (forall i {:trigger rest[i]} :: 0 <= i < |rest| ==> rest[i] == ring[Shifted(k, i)])
            && (forall i, j :: 0 <= i < j < |rest| ==> rest[i] != rest[j])
  {
    RemoveDistinct(ring, k);
    forall i | 0 <= i < |ring| - 1 ensures Remove(ring, k)[i] == ring[Shifted(k, i)] {
      RemoveIndex(ring, k, i);
    }
  }

  lemma AfterFirst(n: nat, k: nat)
    requires k < n && 1 < n
    ensures k == 0 ==> Succ(n, k) == Shifted(k, 0)
  {
  }

  function Succ(n: nat, i: nat): (j: nat)
    ensures i < n ==> j < n
  {
    if i + 1 < n then i + 1 else 0
  }

  function Pred(n: nat, i: nat): (j: nat)
    requires i < n
    ensures j < n
  {
    if i == 0 then n - 1 else i - 1
  }

  /** The successor of a process in the circle without process `k`. */
  lemma SuccessorInRest(n: nat, k: nat, i: nat)
    requires k < n && i < n - 1
    ensures Shifted(k, Succ(n - 1, i)) == if Shifted(k, i) == Pred(n, k) then Succ(n, k) else Succ(n, Shifted(k, i))
  {
  }

  lemma KilledLast(s: State, pid: nat)
    requires !s.gone && |s.ring| == 1 && RingIndex(s.ring, pid) == 0
    ensures AfterKill(s, pid) == State([], false, s.idleStack, s.idleKernel, s.maxPid)
  {
  }

  lemma KilledNone(s: State, pid: nat)
    requires !s.gone && forall i :: 0 <= i < |s.ring| ==> s.ring[i].pid != pid
    ensures RingIndex(s.ring, pid) == |s.ring| && AfterKill(s, pid) == s
  {
  }

  lemma KilledSome(s: State, pid: nat, k: nat)
    requires k < |s.ring| && s.ring[k].pid == pid
    ensures RingIndex(s.ring, pid) < |s.ring|
  {
  }

  lemma KilledOne(s: State, pid: nat, k: nat)
    requires !s.gone && 1 < |s.ring| && RingIndex(s.ring, pid) == k < |s.ring|
    ensures AfterKill(s, pid) == State(Remove(s.ring, k), k == 0, s.idleStack, s.idleKernel, s.maxPid)
  {
  }

  lemma OthersApart(ring: seq<Process>, k: nat)
    requires k < |ring| && forall i, j :: 0 <= i < j < |ring| ==> ring[i] != ring[j]
    ensures forall i :: 0 <= i < |ring| && i != k ==> ring[i] != ring[k]
  {
  }

  lemma EmptyCircle()
    ensures Scheduler.Circle([])
  {
  }

  lemma CircleFacts(ring: seq<Process>, k: nat)
    requires Scheduler.Circle(ring) && k < |ring|
    ensures Scheduler.NextIs(ring[k], ring, k) && Scheduler.NextIs(ring[0], ring, 0)
    ensures ring[k].next == ring[0] <==> k == |ring| - 1
    ensures ring[0].next == ring[0] <==> |ring| == 1
  {
    assert Scheduler.NextIs(ring[k], ring, k) && Scheduler.NextIs(ring[0], ring, 0);
  }

  lemma RemovedProcs(procs: seq<Proc>, now: seq<Proc>, rest: seq<Proc>, k: nat)
    requires now == procs && k < |procs| && |rest| == |procs| - 1
    requires forall i :: 0 <= i < |rest| ==> rest[i] == now[Shifted(k, i)]
    ensures rest == Remove(procs, k)
  {
  }

  function Rotate<T>(ring: seq<T>): (r: seq<T>)
    requires ring != []
    ensures |r| == |ring| && r[|r| - 1] == ring[0] && forall i :: 0 <= i < |r| - 1 ==> r[i] == ring[i + 1]
  {
    ring[1..] + [ring[0]]
  }

  lemma LeaveRotates(s: State)
    requires s.ring != []
    ensures Leave(s, KernelStack(s)) == if s.gone then s.(gone := false) else s.(ring := Rotate(s.ring))
  {
  }

  /** Saving the kernel stack first and then leaving with what was saved. */
  lemma SavedAndLeft(s: State, kernel: int)
    requires s.ring != []
    ensures var t := if s.gone then s else s.(ring := s.ring[0 := s.ring[0].(kernel := kernel)]);
            Leave(t, KernelStack(t)) == Leave(s, kernel)
  {
  }

  /** Looking from the next process the circle is the same. */
  lemma RotateCircle(ring: seq<Process>)
    requires ring != [] && Scheduler.Circle(ring)
    ensures Scheduler.Circle(Rotate(ring))
    ensures forall p :: p in Rotate(ring) <==> p in ring
    ensures Scheduler.Procs(Rotate(ring)) == Rotate(Scheduler.Procs(ring))
  {
    RotateProcs(ring);
    RotateMembers(ring);
    RotateLinks(ring);
  }

  lemma RotateMembers<T>(ring: seq<T>)
    requires ring != []
    ensures forall p :: p in Rotate(ring) <==> p in ring
  {
    var r := Rotate(ring);
    forall p | p in ring ensures p in r {
      var i :| 0 <= i < |ring| && ring[i] == p;
      assert r[Pred(|ring|, i)] == p;
    }
  }

  lemma RotateLinks(ring: seq<Process>)
    requires ring != [] && Scheduler.Circle(ring)
    ensures Scheduler.Circle(Rotate(ring))
  {
    var r := Rotate(ring);
    hide Rotate, Scheduler.Procs;
    forall i | 0 <= i < |r| ensures Scheduler.NextIs(r[i], r, i) {
      assert Scheduler.NextIs(ring[Succ(|ring|, i)], ring, Succ(|ring|, i));
    }
  }

  lemma RotateProcs(ring: seq<Process>)
    requires ring != []
    ensures Scheduler.Procs(Rotate(ring)) == Rotate(Scheduler.Procs(ring))
  {
  }

  lemma ProcsAppend(ring: seq<Process>, p: Process)
    ensures Scheduler.Procs(ring + [p]) == Scheduler.Procs(ring) + [Proc(p.pid, p.stack, p.kernelStack)]
  {
  }

  function Shifted(k: nat, i: nat): nat {
    if i < k then i else i + 1
  }

  lemma RemoveDistinct<T>(ring: seq<T>, k: nat)
    requires k < |ring| && forall i, j :: 0 <= i < j < |ring| ==> ring[i] != ring[j]
    ensures var rest := Remove(ring, k);
            ring[k] !in rest && forall i, j :: 0 <= i < j < |rest| ==> rest[i] != rest[j]
  {
  }

  lemma RemoveIndex<T>(ring: seq<T>, k: nat, i: nat)
    requires k < |ring| && i < |ring| - 1
    ensures Remove(ring, k)[i] == ring[Shifted(k, i)]
  {
  }

  lemma IndexIs(ring: seq<Proc>, pid: nat, k: nat)
    requires k <= |ring| && (k < |ring| ==> ring[k].pid == pid)
    requires forall i :: 0 <= i < k ==> ring[i].pid != pid
    ensures RingIndex(ring, pid) == k
  {
  }
}
