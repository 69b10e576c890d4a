# Contiguous-partition memory allocator and FCFS scheduler, in Dafny

This project models the core of `os.py`, a small operating-system
simulation, and proves properties of that model. The core has two parts.

- `MemoryManager` keeps a list of memory blocks that tiles the address
  space `[0, total_memory)`. `allocate` picks a block by first-fit or
  best-fit and splits it into an owned prefix and a free remainder.
  `deallocate` frees a process's blocks and then merges neighbouring free
  blocks.
- `Scheduler.simulate_fcfs` sorts the processes by arrival time and runs
  them first-come-first-served on a logical clock. Before each process
  starts it asks the memory manager for its memory. A process that does
  not fit is skipped for good. A process that fits is stamped with a start
  and completion time and then freed at once.

Layout:

- `wrappers.dfy` has the shared helpers `Option` and `Max`.
- `processes.dfy` has the `Process` record.
- `partitions.dfy` describes the block list as values: its invariants, the
  selection rules, and the list each in-place operation leaves behind
  (`Split`, `Release`, `Coalesce`), with the lemmas about them.
- `memory.dfy` has the `MemoryManager` class. Its field `memory: seq<Block>`
  is reassigned by `Allocate`, `Deallocate` and the `Merge` loop, and each
  method is proved against the functions of `partitions.dfy`.
- `fcfs.dfy` describes an FCFS run as values: the stable sort, the clock,
  the stamps and the completed list, with the lemmas that say what a run
  promises.
- `scheduling.dfy` has the `Scheduler` class. `SimulateFcfs` sorts an
  `array<Process>` in place and runs the loop, proved against `fcfs.dfy`.
  The loop body is the method `Serve`; it keeps the proof of each turn
  apart from the loop's own invariants.
- `scenarios.dfy` works through concrete inputs: fragmentation, first-fit
  against best-fit, and a five-process run.

The invariant `MemoryManager.Valid()` says four things. The blocks tile
`[0, total)` in address order with no gap or overlap. A block is free
exactly when it has no owner. No two neighbouring blocks are free. The
total is positive. `Scheduler.Valid()` adds that between simulations the
memory is idle: one free block spans the whole space. FCFS frees every
admitted process before it tries the next one, so the memory is idle before
every admission attempt. A process is therefore admitted exactly when the
strategy is first-fit or best-fit and its request is at most the total
memory.

The model follows the code of `os.py`.
The code validates no inputs: it does not reject negative times or sizes or
an unknown strategy. So the model takes any integers. Only a positive
memory size and a positive request are required (see "Left out").

## Model

| member | source | states |
|---|---|---|
| Processes.NewProcess | os.py:4-11 | a new process carries its pid, arrival, burst and demand; `remainingTime` equals the burst; start and completion are unset |
| Partitions.FirstFitIndex | os.py:38-42 | the result is the lowest index of a free block of size at least the request; None exactly when no single block fits |
| Partitions.BestFitIndex | os.py:44-49 | the result fits and is no larger than any fitting block, and strictly smaller than every fitting block before it (the first minimum wins); None exactly when no block fits |
| Partitions.Select | os.py:31-36 | the chosen block fits; None exactly when the strategy is unrecognised or no block fits |
| Partitions.CoversSum | os.py:27-29 | a list that tiles `[lo, hi)` has sizes summing to `hi - lo` (conservation of memory) |
| Partitions.CoversOrdered | os.py:27-29 | in a tiling, a block at a lower index ends no later than a block at a higher index starts |
| Partitions.SplitLayout | os.py:51-58 | splitting a fitting block of a tiling yields a tiling of the same range with the same total size |
| Partitions.SplitCoalesced | os.py:51-58 | splitting a free block of a coalesced list leaves no two neighbouring free blocks (the remainder inherits the original block's non-free right neighbour) |
| Partitions.SplitOwners | os.py:51-58 | after a split, flags and owners still agree, the owner multiset gains exactly the new pid, and a pid that owned nothing keeps owners unique |
| Partitions.ReleaseLayout | os.py:60-64 | marking a pid's blocks free changes no address range |
| Partitions.ReleaseOwners | os.py:60-64 | after release, flags and owners agree, and the owner list is the old one with the pid removed |
| Partitions.ReleaseAbsent | os.py:60-64 | releasing a pid that owns nothing changes nothing |
| Partitions.Coalesce | os.py:67-74 | coalescing never lengthens the list, and the first block keeps its start, flag and owner |
| Partitions.CoalesceLayout | os.py:67-74 | merging keeps the tiling and the total size |
| Partitions.CoalesceCoalesced | os.py:67-74 | after merging, no two neighbouring blocks are free |
| Partitions.CoalesceIdentity | os.py:67-74 | merging an already coalesced list changes nothing |
| Partitions.CoalesceKeepsAllocated | os.py:67-74 | merging keeps every allocated block, unchanged and in order |
| Partitions.CoalesceOwners | os.py:67-74 | merging keeps flags and owners in agreement and keeps the owner list |
| Partitions.Deallocation | os.py:60-74 | deallocate keeps the tiling, leaves no two free neighbours, removes the pid from the owners, keeps every other owner, and keeps owners unique |
| Partitions.DeallocateIdempotent | os.py:60-74 | deallocating a pid that owns nothing on a coalesced list changes nothing, so a second deallocate of the same pid is a no-op |
| Memory.MemoryManager.constructor | os.py:28-29 | the manager starts with one free block spanning `[0, total_memory)`, which is valid |
| Memory.MemoryManager.Allocate | os.py:31-36 | succeeds exactly when the strategy selects a block, and then splits it; otherwise the list is unchanged; keeps the invariant and the total size; the owner multiset gains the pid |
| Memory.MemoryManager.AllocateFirstFit | os.py:38-42 | the scan takes the first fitting block, or fails and changes nothing |
| Memory.MemoryManager.AllocateBestFit | os.py:44-49 | takes the first smallest fitting block, or fails and changes nothing |
| Memory.MemoryManager.AllocateBlock | os.py:51-58 | the list becomes the split of block `i`: owned prefix of the request's size, free remainder inserted right after it; the invariant is kept |
| Memory.MemoryManager.Deallocate | os.py:60-65 | the list becomes the coalesced release of the pid; the invariant and total are kept; the pid leaves the owner list |
| Memory.MemoryManager.Merge | os.py:67-74 | the loop, which stays at the same index after a merge, leaves the right-fold coalescing of the list it started with |
| Fcfs.SortByArrival | os.py:83 | the sort keeps the length and is a permutation of its input |
| Fcfs.SortSorted | os.py:83 | the sort orders the processes by arrival time |
| Fcfs.SortIdentity | os.py:83 | processes that already arrive in order come out of the sort unchanged |
| Fcfs.SortStable | os.py:83 | for each arrival time, the processes arriving then keep their input order (the sort is stable) |
| Fcfs.IdleAdmission | os.py:86-95 | on idle memory a process is admitted exactly when the strategy is recognised and its request fits in the total, and it is then given block 0 |
| Fcfs.IdleRoundTrip | os.py:89-95 | allocating idle memory to a process and deallocating it again brings back one free block |
| Fcfs.FcfsStamps | os.py:89-94 | a run keeps every descriptor; an admitted process gets a start no earlier than its arrival and completes one burst later; a skipped one is left as it was |
| Fcfs.SkippedRun | os.py:87-91 | on sorted input a stretch of skipped processes does not change when a later process may start |
| Fcfs.FcfsFirstStart | os.py:82-92 | on sorted input the first admitted process starts at its arrival time, or at 0 |
| Fcfs.FcfsNextStart | os.py:86-94 | on sorted input each admitted process starts at the later of its arrival and the previous admitted process's completion |
| Fcfs.ClockMonotone | os.py:86-94 | with non-negative bursts the clock never goes back |
| Fcfs.FcfsNoOverlap | os.py:86-94 | with non-negative bursts, an earlier admitted process completes no later than a later one starts |
| Fcfs.AdmittedOfRun | os.py:89-96 | a run that stamps exactly the admitted processes has the same admitted list, in the same order, each stamped |
| Fcfs.FcfsCompleted | os.py:84-97 | the admitted processes of a run are those of its input, in order, each stamped |
| Fcfs.CompletedIsAdmittedOfRun | os.py:84-97 | the list built during the run equals the admitted processes of the list the run leaves behind |
| Scheduling.Scheduler.constructor | os.py:77-79 | the scheduler owns a fresh manager of the given size and idle memory, and keeps the strategy |
| Scheduling.Scheduler.Serve | os.py:87-96 | one turn: the clock moves up to the arrival; admission happens exactly when the request fits on idle memory; the process leaves stamped by the run order and the clock after it; memory is idle again |
| Scheduling.Scheduler.SortInPlace | os.py:83 | the array becomes the stable sort of its old contents, holding only processes it held before |
| Scheduling.Scheduler.RunInOrder | os.py:84-97 | on processes in run order, the array becomes the FCFS run and the result is its admitted processes in order; memory ends idle |
| Scheduling.Scheduler.SimulateFcfs | os.py:81-97 | the array becomes the FCFS run of its stable sort by arrival, and the result is the admitted processes of that run, in order; memory ends idle |
| Scenarios.FragmentationFails | os.py:38-49 | the free blocks hold 20 units in two 10-unit holes, yet a request for 15 fails under both strategies |
| Scenarios.StrategiesDiverge | os.py:38-58 | for holes of 40, 10 and 30 units and a request of 10, first-fit takes the 40-unit hole and best-fit the 10-unit one, and each split is as described |
| Scenarios.FiveProcessesInOrder | os.py:83 | the five processes of the run below already arrive in order, so the sort leaves them unchanged |
| Scenarios.FiveProcessRun | os.py:81-97 | with 150 units and first-fit, five processes run back to back with start and completion (0, 4), (4, 7), (7, 9), (9, 14), (14, 15), and all of them are completed |

## Left out

- `simulate_sjf` (os.py:99-105): the source text ends after its initialisation. Its selection loop is not visible, and neither is what it does when the shortest job does not fit. It is not part of this model.
- The skip message printed at os.py:90 and the `__repr__` methods (os.py:13-15, 24-25): output only. A skip is modelled as "not appended".
- `import heapq` (os.py:1): unused.
- `remainingTime` (os.py:9): kept as a field, set to the burst at creation, never read or updated, as in the source.
- Object identity: `Process` and `MemoryBlock` are values here. The source mutates the caller's `Process` objects, and the same objects appear in the returned list. The model writes each stamped process back into the array slot and appends a copy. `self.memory.index(block)` (os.py:54) is an identity lookup; the model passes the block's index instead.
- `list.sort` internals (os.py:83): the sort is specified by its result. Insertion is by arrival time, which gives the unique stable ordering.
- The default strategy argument `'first_fit'` (os.py:31, os.py:77): callers always pass a `Strategy`. The strings `'first_fit'` and `'best_fit'` map to `FirstFit` and `BestFit`; every other string maps to `Other`.
- Memory.MemoryManager.Allocate: requires `memoryRequired > 0`. The source does not check this, and a request of 0 or less would create a block of size 0 or a negative size (os.py:52-55); the same requirement is carried by AllocateFirstFit, AllocateBestFit, AllocateBlock, Serve, RunInOrder and SimulateFcfs.
- Memory.MemoryManager.constructor: requires `totalMemory > 0`. The source accepts any value; with 0 or less there is no valid tiling to keep. Scheduling.Scheduler.constructor requires the same.
- Fcfs.ClockMonotone: requires non-negative bursts, because a negative burst makes the clock go back. The source does not reject negative bursts. Fcfs.FcfsNoOverlap requires the same.
