/** The process descriptor read and stamped by the scheduler (class `Process` in os.py). */
module Processes {
  import opened Wrappers

  /**
   * A process: its identity and demand, the never-used `remainingTime`
   * placeholder, and the two outcome fields, unset (`None`) until the
   * scheduler runs the process.
   */
  datatype Process = Process(
    pid: int,
    arrivalTime: int,
    burstTime: int,
    memoryRequired: int,
    remainingTime: int,
    startTime: Option<int>,
    completionTime: Option<int>)

  /** A freshly created process: nothing has run yet, and all of its burst remains. */
  function NewProcess(pid: int, arrivalTime: int, burstTime: int, memoryRequired: int): (p: Process)
    ensures p.pid == pid && p.arrivalTime == arrivalTime
    ensures p.burstTime == burstTime && p.memoryRequired == memoryRequired
    ensures p.remainingTime == p.burstTime
    ensures p.startTime == None && p.completionTime == None
  {
    Process(pid, arrivalTime, burstTime, memoryRequired, burstTime, None, None)
  }

  /** `p` and `q` describe the same process; only the outcome fields may differ. */
  predicate SameDescriptor(p: Process, q: Process)
  {
    && p.pid == q.pid
    && p.arrivalTime == q.arrivalTime
    && p.burstTime == q.burstTime
    && p.memoryRequired == q.memoryRequired
    && p.remainingTime == q.remainingTime
  }
}
