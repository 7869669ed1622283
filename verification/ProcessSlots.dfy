/** The scheduler's processes and the kernel's table of mmap slots: which processes the table serves. */
module ProcessSlots {
  import opened SchedRing
  import opened UserProcess

  /** The table has two slots for each of `SCHED_MAX_PROC` processes, counted from pid 0. */
  predicate KernelTable(table: MmapTable) {
    table.pages.Length == table.bytesUsed.Length == SCHED_MAX_PROC * PAGES_PER_THREAD
  }

  lemma ServedIff(table: MmapTable, pid: nat)
    requires KernelTable(table)
    ensures table.HasProcess(pid) <==> pid < SCHED_MAX_PROC
  {
  }

  /** A process that is spawned has slots of its own exactly if it is not the twentieth: pids start at 1. */
  method SpawnServed(s: Scheduler, table: MmapTable, stack: int, kernelStack: int) returns (pid: nat)
    requires s.Valid() && !s.gone && s.procIdx < SCHED_MAX_PROC && KernelTable(table)
    modifies s, s.ring
    ensures s.Valid() && pid == s.procIdx == old(s.procIdx) + 1
    ensures table.HasProcess(pid) <==> old(s.procIdx) + 1 < SCHED_MAX_PROC
  {
    hide Scheduler.Circle, Scheduler.Procs;
    pid := s.SpawnModule(stack, kernelStack);
    ServedIff(table, pid);
  }
}
