/**
 * Worked examples of the allocator and of an FCFS run on concrete block
 * lists and processes.
 */
module Scenarios {
  import opened Wrappers
  import opened Processes
  import opened Partitions
  import opened Fcfs

  /** Two free blocks of 10 units on either side of an owned block of 5. */
  function Fragmented(): (bs: seq<Block>)
    ensures Covers(bs, 0, 25) && OwnerConsistent(bs) && Coalesced(bs)
  {
    [FreeBlock(0, 10), Block(10, 5, false, Some(1)), FreeBlock(15, 10)]
  }

  /**
   * Fragmentation: 20 units are free in all, yet a request for 15 fails
   * under both strategies, since no single free block holds it.
   */
  lemma FragmentationFails()
    ensures Fragmented()[0].free && Fragmented()[2].free && !Fragmented()[1].free
    ensures Fragmented()[0].size + Fragmented()[2].size == 20
    ensures Select(Fragmented(), 15, FirstFit) == None
    ensures Select(Fragmented(), 15, BestFit) == None
  {
    var bs := Fragmented();
    assert !Fits(bs[0], 15) && !Fits(bs[1], 15) && !Fits(bs[2], 15);
  }

  /** Free blocks of 40, 10 and 30 units in address order, kept apart by owned ones. */
  function ThreeHoles(): (bs: seq<Block>)
    ensures Covers(bs, 0, 90) && OwnerConsistent(bs) && Coalesced(bs)
  {
    [FreeBlock(0, 40), Block(40, 5, false, Some(1)), FreeBlock(45, 10),
     Block(55, 5, false, Some(2)), FreeBlock(60, 30)]
  }

  /** For a request of 10, first-fit takes the 40-unit hole and best-fit the 10-unit one. */
  lemma StrategiesDiverge()
    ensures Select(ThreeHoles(), 10, FirstFit) == Some(0)
    ensures Select(ThreeHoles(), 10, BestFit) == Some(2)
    ensures Split(ThreeHoles(), 0, 10, 7)[..2] == [Block(0, 10, false, Some(7)), FreeBlock(10, 30)]
    ensures Split(ThreeHoles(), 2, 10, 7)[2] == Block(45, 10, false, Some(7))
    ensures |Split(ThreeHoles(), 2, 10, 7)| == 5
  {
    var bs := ThreeHoles();
    assert Fits(bs[0], 10) && Fits(bs[2], 10) && Fits(bs[4], 10);
    assert !Fits(bs[1], 10) && !Fits(bs[3], 10);
  }

  /** Five processes arriving one time unit apart, the largest needing 100 units. */
  function FiveProcesses(): (ps: seq<Process>)
    ensures |ps| == 5 && SortedByArrival(ps)
  {
    [NewProcess(1, 0, 4, 50), NewProcess(2, 1, 3, 30), NewProcess(3, 2, 2, 20),
     NewProcess(4, 3, 5, 100), NewProcess(5, 4, 1, 40)]
  }

  /** The five processes already arrive in order, so the sort leaves them as they are. */
  lemma FiveProcessesInOrder()
    ensures SortByArrival(FiveProcesses()) == FiveProcesses()
  {
    SortIdentity(FiveProcesses());
  }

  /**
   * With 150 units and first-fit every process fits, so each one starts
   * when the one before it completes: (0, 4), (4, 7), (7, 9), (9, 14)
   * and (14, 15).
   */
  lemma FiveProcessRun()
    ensures var run := FcfsRun(FiveProcesses(), FirstFit, 150);
      && |run| == 5
      && run[0].startTime == Some(0) && run[0].completionTime == Some(4)
      && run[1].startTime == Some(4) && run[1].completionTime == Some(7)
      && run[2].startTime == Some(7) && run[2].completionTime == Some(9)
      && run[3].startTime == Some(9) && run[3].completionTime == Some(14)
      && run[4].startTime == Some(14) && run[4].completionTime == Some(15)
    ensures Completed(FiveProcesses(), FirstFit, 150, 5) == FcfsRun(FiveProcesses(), FirstFit, 150)
  {
    var ps := FiveProcesses();
    assert ClockBefore(ps, FirstFit, 150, 1) == 4;
    assert ClockBefore(ps, FirstFit, 150, 2) == 7;
    assert ClockBefore(ps, FirstFit, 150, 3) == 9;
    assert ClockBefore(ps, FirstFit, 150, 4) == 14;
  }
}
