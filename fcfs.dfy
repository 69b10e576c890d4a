/**
 * First-come-first-served scheduling (`Scheduler.simulate_fcfs` in os.py)
 * as values: the stable sort by arrival time, the logical clock, the
 * stamps each admitted process receives, and the list of completed
 * processes, with the lemmas that say what a run promises.
 */
module Fcfs {
  import opened Wrappers
  import opened Processes
  import opened Partitions

  // ---------------------------------------------------------------------
  // The stable sort by arrival time
  // ---------------------------------------------------------------------

  predicate SortedByArrival(ps: seq<Process>)
  {
    forall i, j :: 0 <= i < j < |ps| ==> ps[i].arrivalTime <= ps[j].arrivalTime
  }

  /** Inserts `p` before the first process that arrives no earlier than it. */
  function Insert(p: Process, ps: seq<Process>): (r: seq<Process>)
    ensures |r| == |ps| + 1
    ensures multiset(r) == multiset(ps) + multiset{p}
  {
    if ps == [] || p.arrivalTime <= ps[0].arrivalTime then [p] + ps
    else
      assert ps == [ps[0]] + ps[1..];
      [ps[0]] + Insert(p, ps[1..])
  }

  lemma {:induction false} InsertSorted(p: Process, ps: seq<Process>)
    requires SortedByArrival(ps)
    ensures SortedByArrival(Insert(p, ps))
    ensures Insert(p, ps)[0] == if ps == [] || p.arrivalTime <= ps[0].arrivalTime then p else ps[0]
  {
    if ps != [] && p.arrivalTime > ps[0].arrivalTime {
      var tail := ps[1..];
      assert SortedByArrival(tail) by {
        forall i, j | 0 <= i < j < |tail| ensures tail[i].arrivalTime <= tail[j].arrivalTime {
          assert tail[i] == ps[i + 1] && tail[j] == ps[j + 1];
        }
      }
      InsertSorted(p, tail);
      var r := Insert(p, tail);
      assert ps[0].arrivalTime <= r[0].arrivalTime;
      var full := [ps[0]] + r;
      forall i, j | 0 <= i < j < |full|
        ensures full[i].arrivalTime <= full[j].arrivalTime
      {
        assert full[j] == r[j - 1];
        if i > 0 {
          assert full[i] == r[i - 1];
        }
      }
    }
  }

  /**
   * `processes.sort(key=arrival_time)`: the result is a permutation of the
   * input, ordered by arrival time.
   */
  function SortByArrival(ps: seq<Process>): (r: seq<Process>)
    ensures |r| == |ps|
    ensures multiset(r) == multiset(ps)
  {
    if ps == [] then []
    else
      var rest := SortByArrival(ps[1..]);
      assert ps == [ps[0]] + ps[1..];
      Insert(ps[0], rest)
  }

  /** Input that already arrives in order comes out of the sort unchanged. */
  lemma {:induction false} SortIdentity(ps: seq<Process>)
    requires SortedByArrival(ps)
    ensures SortByArrival(ps) == ps
  {
    if ps != [] {
      assert SortedByArrival(ps[1..]);
      SortIdentity(ps[1..]);
      assert ps == [ps[0]] + ps[1..];
      assert ps[1..] == [] || ps[0].arrivalTime <= ps[1..][0].arrivalTime;
    }
  }

  lemma {:induction false} SortSorted(ps: seq<Process>)
    ensures SortedByArrival(SortByArrival(ps))
  {
    if ps != [] {
      SortSorted(ps[1..]);
      InsertSorted(ps[0], SortByArrival(ps[1..]));
    }
  }

  /** The processes of `ps` that arrive at time `a`, in their order in `ps`. */
  function ArrivingAt(ps: seq<Process>, a: int): seq<Process>
  {
    if ps == [] then []
    else if ps[0].arrivalTime == a then [ps[0]] + ArrivingAt(ps[1..], a)
    else ArrivingAt(ps[1..], a)
  }

  lemma {:induction false} InsertArrivingAt(p: Process, ps: seq<Process>, a: int)
    ensures ArrivingAt(Insert(p, ps), a)
         == (if p.arrivalTime == a then [p] else []) + ArrivingAt(ps, a)
  {
    if ps != [] && p.arrivalTime > ps[0].arrivalTime {
      InsertArrivingAt(p, ps[1..], a);
      var r := Insert(p, ps);
      assert r[1..] == Insert(p, ps[1..]);
    } else {
      assert ([p] + ps)[1..] == ps;
    }
  }

  /**
   * The sort is stable: the processes that arrive at the same time keep
   * their input order.
   */
  lemma {:induction false} SortStable(ps: seq<Process>, a: int)
    ensures ArrivingAt(SortByArrival(ps), a) == ArrivingAt(ps, a)
  {
    if ps != [] {
      SortStable(ps[1..], a);
      InsertArrivingAt(ps[0], SortByArrival(ps[1..]), a);
    }
  }

  // ---------------------------------------------------------------------
  // The run
  // ---------------------------------------------------------------------

  /**
   * Whether a process is admitted while the memory is idle (one free block
   * of `total` units): the strategy is recognised and the request fits.
   * The memory is idle before every admission attempt; see IdleAdmission.
   */
  predicate AdmittedWhenIdle(strategy: Strategy, total: int, p: Process)
  {
    strategy != Other && p.memoryRequired <= total
  }

  /**
   * The clock when the `j`-th process (in run order) is reached: each
   * earlier process moves the clock up to its arrival time, and an
   * admitted one then runs for its burst.
   */
  function ClockBefore(ps: seq<Process>, strategy: Strategy, total: int, j: nat): int
    requires j <= |ps|
  {
    if j == 0 then 0
    else
      var p := ps[j - 1];
      var now := Max(ClockBefore(ps, strategy, total, j - 1), p.arrivalTime);
      if AdmittedWhenIdle(strategy, total, p) then now + p.burstTime else now
  }

  /** The time the `j`-th process would start: the clock, moved up to its arrival. */
  function StartOf(ps: seq<Process>, strategy: Strategy, total: int, j: nat): int
    requires j < |ps|
  {
    Max(ClockBefore(ps, strategy, total, j), ps[j].arrivalTime)
  }

  /** The `j`-th process after the run: stamped when admitted, untouched when skipped. */
  function Stamp(ps: seq<Process>, strategy: Strategy, total: int, j: nat): Process
    requires j < |ps|
  {
    var p := ps[j];
    var start := StartOf(ps, strategy, total, j);
    if AdmittedWhenIdle(strategy, total, p)
    then p.(startTime := Some(start), completionTime := Some(start + p.burstTime))
    else p
  }

  /** The processes, in run order, as the run leaves them. */
  function FcfsRun(ps: seq<Process>, strategy: Strategy, total: int): seq<Process>
  {
    seq(|ps|, j requires 0 <= j < |ps| => Stamp(ps, strategy, total, j))
  }

  /** The admitted processes among the first `j` of `ps`, in order. */
  function Admitted(ps: seq<Process>, strategy: Strategy, total: int, j: nat): seq<Process>
    requires j <= |ps|
  {
    if j == 0 then []
    else
      var p := ps[j - 1];
      Admitted(ps, strategy, total, j - 1) + (if AdmittedWhenIdle(strategy, total, p) then [p] else [])
  }

  /**
   * The completed list after the first `j` processes of the run order
   * `ps`: each admitted one as the run stamps it.
   */
  function Completed(ps: seq<Process>, strategy: Strategy, total: int, j: nat): seq<Process>
    requires j <= |ps|
  {
    if j == 0 then []
    else
      Completed(ps, strategy, total, j - 1)
        + (if AdmittedWhenIdle(strategy, total, ps[j - 1]) then [Stamp(ps, strategy, total, j - 1)] else [])
  }

  /** A process carries a start time and completes exactly one burst later. */
  predicate Stamped(p: Process)
  {
    p.startTime.Some? && p.completionTime == Some(p.startTime.value + p.burstTime)
  }

  // ---------------------------------------------------------------------
  // What a run promises
  // ---------------------------------------------------------------------

  /**
   * On idle memory (one free block of `total` units) a recognised strategy
   * admits a process exactly when its request fits in `total`, and then
   * hands out the one block there is.
   */
  lemma {:induction false} IdleAdmission(total: int, strategy: Strategy, p: Process)
    requires 0 < p.memoryRequired && 0 < total
    ensures Select([FreeBlock(0, total)], p.memoryRequired, strategy).Some?
        <==> AdmittedWhenIdle(strategy, total, p)
    ensures AdmittedWhenIdle(strategy, total, p) ==>
      Select([FreeBlock(0, total)], p.memoryRequired, strategy) == Some(0)
  {
    assert Fits(FreeBlock(0, total), p.memoryRequired) <==> p.memoryRequired <= total;
  }

  /**
   * Allocating the idle memory to a process and deallocating that process
   * again brings the memory back to one free block.
   */
  lemma {:induction false} IdleRoundTrip(total: int, req: int, pid: int)
    requires 0 < req <= total
    ensures Coalesce(Release(Split([FreeBlock(0, total)], 0, req, pid), pid)) == [FreeBlock(0, total)]
  {
    var bs := [FreeBlock(0, total)];
    var split := Split(bs, 0, req, pid);
    var released := Release(split, pid);
    if req < total {
      assert split == [Block(0, req, false, Some(pid)), FreeBlock(req, total - req)];
      assert released == [FreeBlock(0, req), FreeBlock(req, total - req)];
      assert released[1..] == [FreeBlock(req, total - req)];
      assert Coalesce(released) == [Absorb(FreeBlock(0, req), FreeBlock(req, total - req))];
    } else {
      assert split == [Block(0, req, false, Some(pid))];
      assert released == bs;
    }
  }

  /**
   * The run stamps exactly the admitted processes: each admitted one gets
   * a start time no earlier than its arrival and completes one burst
   * later; a skipped one is left as it was.
   */
  lemma {:induction false} FcfsStamps(ps: seq<Process>, strategy: Strategy, total: int, k: nat)
    requires k < |ps|
    ensures |FcfsRun(ps, strategy, total)| == |ps|
    ensures SameDescriptor(FcfsRun(ps, strategy, total)[k], ps[k])
    ensures AdmittedWhenIdle(strategy, total, ps[k]) ==>
      var q := FcfsRun(ps, strategy, total)[k];
      Stamped(q) && q.startTime.value >= ps[k].arrivalTime
    ensures !AdmittedWhenIdle(strategy, total, ps[k]) ==> FcfsRun(ps, strategy, total)[k] == ps[k]
  {
  }

  /**
   * Skipped processes only move the clock up to their arrival times: on
   * sorted input, a stretch of skipped processes makes no difference to
   * when a later process may start.
   */
  lemma {:induction false} SkippedRun(ps: seq<Process>, strategy: Strategy, total: int, b: nat, m: nat, a: int)
    requires SortedByArrival(ps) && b <= m <= |ps|
    requires forall x :: b <= x < m ==> !AdmittedWhenIdle(strategy, total, ps[x])
    requires m > b ==> a >= ps[m - 1].arrivalTime
    ensures Max(ClockBefore(ps, strategy, total, m), a) == Max(ClockBefore(ps, strategy, total, b), a)
    decreases m
  {
    if m > b {
      if m - 1 > b {
        assert ps[m - 2].arrivalTime <= ps[m - 1].arrivalTime;
      }
      SkippedRun(ps, strategy, total, b, m - 1, a);
    }
  }

  /**
   * On sorted input the first admitted process starts at its arrival time
   * (the clock starts at 0).
   */
  lemma {:induction false} FcfsFirstStart(ps: seq<Process>, strategy: Strategy, total: int, k: nat)
    requires SortedByArrival(ps) && k < |ps|
    requires AdmittedWhenIdle(strategy, total, ps[k])
    requires forall x :: 0 <= x < k ==> !AdmittedWhenIdle(strategy, total, ps[x])
    ensures FcfsRun(ps, strategy, total)[k].startTime == Some(Max(0, ps[k].arrivalTime))
  {
    if k > 0 {
      assert ps[k - 1].arrivalTime <= ps[k].arrivalTime;
    }
    SkippedRun(ps, strategy, total, 0, k, ps[k].arrivalTime);
  }

  /**
   * On sorted input each admitted process starts at the later of its
   * arrival and the completion of the admitted process before it; a
   * skipped process in between makes no difference.
   */
  lemma {:induction false} FcfsNextStart(ps: seq<Process>, strategy: Strategy, total: int, k1: nat, k2: nat)
    requires SortedByArrival(ps) && k1 < k2 < |ps|
    requires AdmittedWhenIdle(strategy, total, ps[k1]) && AdmittedWhenIdle(strategy, total, ps[k2])
    requires forall x :: k1 < x < k2 ==> !AdmittedWhenIdle(strategy, total, ps[x])
    ensures var run := FcfsRun(ps, strategy, total);
      run[k2].startTime == Some(Max(run[k1].completionTime.value, ps[k2].arrivalTime))
  {
    if k2 - 1 > k1 {
      assert ps[k2 - 1].arrivalTime <= ps[k2].arrivalTime;
    }
    SkippedRun(ps, strategy, total, k1 + 1, k2, ps[k2].arrivalTime);
  }

  /** With non-negative bursts the clock never goes back. */
  lemma {:induction false} ClockMonotone(ps: seq<Process>, strategy: Strategy, total: int, i: nat, j: nat)
    requires i <= j <= |ps|
    requires forall x :: 0 <= x < |ps| ==> ps[x].burstTime >= 0
    ensures ClockBefore(ps, strategy, total, i) <= ClockBefore(ps, strategy, total, j)
    decreases j
  {
    if i < j {
      ClockMonotone(ps, strategy, total, i, j - 1);
    }
  }

  /**
   * Admitted processes run one at a time, in run order: with non-negative
   * bursts an earlier admitted process completes no later than a later
   * one starts, so start times never decrease.
   */
  lemma {:induction false} FcfsNoOverlap(ps: seq<Process>, strategy: Strategy, total: int, k1: nat, k2: nat)
    requires k1 < k2 < |ps|
    requires forall x :: 0 <= x < |ps| ==> ps[x].burstTime >= 0
    requires AdmittedWhenIdle(strategy, total, ps[k1]) && AdmittedWhenIdle(strategy, total, ps[k2])
    ensures var run := FcfsRun(ps, strategy, total);
      run[k1].startTime.value <= run[k1].completionTime.value <= run[k2].startTime.value
  {
    ClockMonotone(ps, strategy, total, k1 + 1, k2);
  }

  /**
   * If `run` stamps every admitted process of `ps` and changes nothing
   * else, the admitted processes of the two line up one for one: the same
   * processes in the same order, those of `run` stamped.
   */
  lemma {:induction false} AdmittedOfRun(run: seq<Process>, ps: seq<Process>, strategy: Strategy, total: int, j: nat)
    requires j <= |run| == |ps|
    requires forall k :: 0 <= k < |ps| ==> SameDescriptor(run[k], ps[k])
    requires forall k :: 0 <= k < |ps| && AdmittedWhenIdle(strategy, total, ps[k]) ==> Stamped(run[k])
    ensures |Admitted(run, strategy, total, j)| == |Admitted(ps, strategy, total, j)|
    ensures forall i :: 0 <= i < |Admitted(ps, strategy, total, j)| ==>
      SameDescriptor(Admitted(run, strategy, total, j)[i], Admitted(ps, strategy, total, j)[i])
      && Stamped(Admitted(run, strategy, total, j)[i])
  {
    if j > 0 {
      AdmittedOfRun(run, ps, strategy, total, j - 1);
    }
  }

  /** The list a run returns: every admitted process, in run order, stamped. */
  lemma FcfsCompleted(ps: seq<Process>, strategy: Strategy, total: int)
    ensures var run := FcfsRun(ps, strategy, total);
      && |run| == |ps|
      && |Admitted(run, strategy, total, |ps|)| == |Admitted(ps, strategy, total, |ps|)|
      && forall i :: 0 <= i < |Admitted(ps, strategy, total, |ps|)| ==>
        SameDescriptor(Admitted(run, strategy, total, |ps|)[i], Admitted(ps, strategy, total, |ps|)[i])
        && Stamped(Admitted(run, strategy, total, |ps|)[i])
  {
    AdmittedOfRun(FcfsRun(ps, strategy, total), ps, strategy, total, |ps|);
  }

  /**
   * The list the run builds as it goes is exactly the admitted processes
   * of the array the run leaves behind.
   */
  lemma {:induction false} CompletedIsAdmittedOfRun(ps: seq<Process>, strategy: Strategy, total: int, j: nat)
    requires j <= |ps|
    ensures Completed(ps, strategy, total, j) == Admitted(FcfsRun(ps, strategy, total), strategy, total, j)
  {
    if j > 0 {
      CompletedIsAdmittedOfRun(ps, strategy, total, j - 1);
    }
  }
}
