/** The scheduler of os.py: one memory manager, one strategy, and the FCFS simulation. */
module Scheduling {
  import opened Wrappers
  import opened Processes
  import opened Partitions
  import opened Memory
  import opened Fcfs

  class Scheduler {
    var memoryManager: MemoryManager
    var strategy: Strategy

    /**
     * Between simulations the memory is idle: one free block spanning the
     * whole space (each simulation frees every process it admits).
     */
    ghost predicate Valid()
      reads this, memoryManager
    {
      && memoryManager.Valid()
      && memoryManager.memory == [FreeBlock(0, memoryManager.total)]
    }

    constructor (memorySize: int, strategy: Strategy)
      requires memorySize > 0
      ensures Valid() && fresh(memoryManager)
      ensures memoryManager.total == memorySize && this.strategy == strategy
    {
      memoryManager := new MemoryManager(memorySize);
      this.strategy := strategy;
    }

    /**
     * One turn of the FCFS loop for the `j`-th process `p` of the run
     * order `ps`: the clock moves up to the arrival time; if the memory
     * manager admits `p`, it is stamped with the clock as its start, runs
     * for its burst and is deallocated again. The result is the process as
     * the run leaves it and the clock after it.
     */
    method Serve(ghost ps: seq<Process>, ghost j: nat, p: Process, time: int) returns (q: Process, clock: int, ok: bool)
      requires Valid() && j < |ps| && p == ps[j] && p.memoryRequired > 0
      requires time == ClockBefore(ps, strategy, memoryManager.total, j)
      modifies memoryManager
      ensures Valid()
      ensures ok == AdmittedWhenIdle(strategy, memoryManager.total, p)
      ensures q == Stamp(ps, strategy, memoryManager.total, j)
      ensures clock == ClockBefore(ps, strategy, memoryManager.total, j + 1)
    {
      ghost var total := memoryManager.total;
      q, clock := p, time;
      if clock < q.arrivalTime {
        clock := q.arrivalTime;
      }
      ok := memoryManager.Allocate(q, strategy);
      IdleAdmission(total, strategy, q);
      if ok {
        q := q.(startTime := Some(clock));
        clock := clock + q.burstTime;
        q := q.(completionTime := Some(clock));
        IdleRoundTrip(total, q.memoryRequired, q.pid);
        memoryManager.Deallocate(q.pid);
      }
    }

    /**
     * `processes.sort(key=arrival_time)`: reorders the array into its
     * stable sort by arrival time; every process it holds afterwards was
     * in it before.
     */
    static method SortInPlace(processes: array<Process>)
      modifies processes
      ensures processes[..] == SortByArrival(old(processes[..]))
      ensures forall k :: 0 <= k < processes.Length ==> processes[k] in old(processes[..])
    {
      var sorted := SortByArrival(processes[..]);
      forall k | 0 <= k < processes.Length ensures sorted[k] in processes[..] {
        assert sorted[k] in multiset(processes[..]);
      }
      forall k | 0 <= k < processes.Length {
        processes[k] := sorted[k];
      }
    }

    /**
     * The loop of the FCFS simulation over processes already in run
     * order: each one either is admitted, runs for its burst from the
     * later of the clock and its arrival and is freed again, or is
     * skipped for good. Returns the admitted processes in order.
     */
    method RunInOrder(processes: array<Process>) returns (completed: seq<Process>)
      requires Valid()
      requires forall k :: 0 <= k < processes.Length ==> processes[k].memoryRequired > 0
      modifies processes, memoryManager
      ensures Valid()
      ensures processes[..] == FcfsRun(old(processes[..]), strategy, memoryManager.total)
      ensures completed == Admitted(processes[..], strategy, memoryManager.total, processes.Length)
    {
      ghost var total := memoryManager.total;
      ghost var sorted := processes[..];
      ghost var run := FcfsRun(sorted, strategy, total);
      var n := processes.Length;
      var time := 0;
      completed := [];
      for j := 0 to n
        invariant Valid()
        invariant forall k :: 0 <= k < j ==> processes[k] == run[k]
        invariant forall k :: j <= k < n ==> processes[k] == sorted[k]
        invariant time == ClockBefore(sorted, strategy, total, j)
        invariant completed == Completed(sorted, strategy, total, j)
      {
        var p, ok;
        p, time, ok := Serve(sorted, j, processes[j], time);
        if ok {
          processes[j] := p;
          completed := completed + [p];
        }
      }
      assert processes[..] == run;
      CompletedIsAdmittedOfRun(sorted, strategy, total, n);
    }

    /**
     * First-come-first-served (`simulate_fcfs`): sorts `processes` in
     * place by arrival time, then runs them in that order.
     */
    method SimulateFcfs(processes: array<Process>) returns (completed: seq<Process>)
      requires Valid()
      requires forall k :: 0 <= k < processes.Length ==> processes[k].memoryRequired > 0
      modifies processes, memoryManager
      ensures Valid()
      ensures processes[..] == FcfsRun(SortByArrival(old(processes[..])), strategy, memoryManager.total)
      ensures completed == Admitted(processes[..], strategy, memoryManager.total, processes.Length)
    {
      SortInPlace(processes);
      completed := RunInOrder(processes);
    }
  }
}
