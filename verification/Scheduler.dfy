/** The scheduler over process objects and global state updated in place. */
module Scheduler {
  import opened Common
  import opened SchedulerSpec

  class Process {
    const pid: nat
    const priority: Priority
    var state: ProcState

    constructor (id: nat, pri: Priority)
      ensures pid == id && priority == pri && state == STARTING
    {
      pid := id;
      priority := pri;
      state := STARTING;
    }

    method Run()
      modifies this
      ensures state == RUNNING
    {
      state := RUNNING;
    }

    method Pause()
      modifies this
      ensures state == PAUSED
    {
      state := PAUSED;
    }

    method Resume()
      modifies this
      ensures state == RUNNING
    {
      state := RUNNING;
    }

    method Stop()
      modifies this
      ensures state == STOPPING
    {
      state := STOPPING;
    }
  }

  ghost predicate DistinctObjects(q: seq<Process>) {
    forall i, j :: 0 <= i < j < |q| ==> q[i] != q[j]
  }

  lemma IndexIs(q: seq<Process>, p: Process, i: nat)
    requires DistinctObjects(q) && i < |q| && q[i] == p
    ensures First(q, p) == i
  {
  }

  /** The state of the process that leaves does not matter. */
  lemma RemoveForgets(s: Sched, k: nat, state: ProcState)
    requires k < |s.queue| && s.queue[k].pid < |s.pids|
    ensures Remove(s.(queue := SetState(s.queue, k, state)), k) == Remove(s, k)
  {
  }

  /** Where the current process is after process k has left the queue. */
  lemma RemovedIndex(q: seq<Process>, k: nat, p: Process?)
    requires DistinctObjects(q) && k < |q| && (p != null ==> p in q && q[k] != p)
    ensures var r := q[..k] + q[k + 1..];
      p != null ==> First(r, p) == if First(q, p) > k then First(q, p) - 1 else First(q, p)
  {
    if p != null {
      var r, i := q[..k] + q[k + 1..], First(q, p);
      forall j, l | 0 <= j < l < |r|
        ensures r[j] != r[l]
      {
        assert q[if j < k then j else j + 1] != q[if l < k then l else l + 1];
      }
      IndexIs(r, p, if i > k then i - 1 else i);
    }
  }

  class SchedulerState {
    var queue: seq<Process>
    var curProcess: Process?
    var ticksLeftForCurProc: nat
    var pids: seq<nat>

    ghost function Procs(): (r: seq<Proc>)
      reads this, queue
      ensures |r| == |queue|
      ensures forall i :: 0 <= i < |r| ==> r[i] == Proc(queue[i].pid, queue[i].priority, queue[i].state)
    {
      seq(|queue|, i requires 0 <= i < |queue| reads this, queue =>
        Proc(queue[i].pid, queue[i].priority, queue[i].state))
    }

    ghost function View(): Sched
      reads this, queue
    {
      Sched(Procs(), if curProcess == null then None else Some(First(queue, curProcess)), ticksLeftForCurProc, pids)
    }

    ghost predicate Valid()
      reads this, queue
    {
      Sound(View())
    }

    constructor ()
      ensures Valid() && View() == Fresh() && queue == []
    {
      queue, curProcess, ticksLeftForCurProc := [], null, 0;
      pids := seq(PID_MAX, _ => 0);
    }

    /** The process after the current one in the queue; reading past the end gives null, as
        the comment in the source intends, and wraps to the first. */
    method GetNextProcInQueue() returns (next: Process?)
      requires curProcess != null ==> curProcess in queue
      ensures var n := NextProc(View());
        next == if n.Some? then queue[n.value] else null
      ensures curProcess == null ==> next == if |queue| > 0 then queue[0] else null
      ensures curProcess != null ==> next == queue[(First(queue, curProcess) + 1) % |queue|]
    {
      if curProcess == null {
        if |queue| > 0 {
          return queue[0];
        }
        return null;
      }
      var idx := 0;
      while idx < |queue|
        invariant idx <= First(queue, curProcess)
      {
        if queue[idx] == curProcess {
          if idx + 1 < |queue| {
            return queue[idx + 1];
          }
          return queue[0];
        }
        idx := idx + 1;
      }
      assert false;
      return null;
    }

    lemma PidsDistinguish()
      requires DistinctPids(Procs())
      ensures DistinctObjects(queue)
    {
      forall i, j | 0 <= i < j < |queue|
        ensures queue[i] != queue[j]
      {
        assert Procs()[i].pid != Procs()[j].pid;
      }
    }

    method PauseCurrent()
      requires DistinctObjects(queue) && curProcess != null && curProcess in queue
      modifies curProcess
      ensures Procs() == SetState(old(Procs()), First(queue, curProcess), PAUSED) && curProcess.state == PAUSED
    {
      ghost var k := First(queue, curProcess);
      curProcess.Pause();
      assert forall i :: 0 <= i < |queue| && i != k ==> queue[i] != queue[k];
    }

    /** The slice of its priority, and RUNNING, for the current process. */
    method StartCurrent(ghost k: nat)
      requires DistinctObjects(queue) && k < |queue| && curProcess == queue[k]
      modifies this`ticksLeftForCurProc, curProcess
      ensures Procs() == SetState(old(Procs()), k, RUNNING) && curProcess.state == RUNNING
      ensures ticksLeftForCurProc == Slice(queue[k].priority)
      ensures ticksLeftForCurProc == match curProcess.priority case HIGH => 1000 case NORM => 100 case LOW => 10
    {
      match curProcess.priority {
        case HIGH => ticksLeftForCurProc := 1000;
        case NORM => ticksLeftForCurProc := 100;
        case LOW => ticksLeftForCurProc := 10;
      }
      curProcess.Resume();
      assert forall i :: 0 <= i < |queue| && i != k ==> queue[i] != queue[k];
    }

    method SwapToNextProcess()
      requires DistinctObjects(queue) && (curProcess != null ==> curProcess in queue)
      modifies this`curProcess, this`ticksLeftForCurProc, queue
      ensures View() == Swap(old(View()))
      ensures curProcess != null ==> curProcess.state == RUNNING
      ensures old(curProcess) != null && old(curProcess) != curProcess ==> old(curProcess).state == PAUSED
      ensures forall p <- queue :: p != curProcess && p != old(curProcess) ==> p.state == old(p.state)
      ensures curProcess != null ==>
        ticksLeftForCurProc == match curProcess.priority case HIGH => 1000 case NORM => 100 case LOW => 10
    {
      ghost var n, before := NextProc(View()), View();
      if curProcess != null {
        PauseCurrent();
      }
      var nextProc := GetNextProcInQueue();
      curProcess := nextProc;
      if curProcess != null {
        IndexIs(queue, curProcess, n.value);
        StartCurrent(n.value);
        assert Procs() == Swap(before).queue;
      }
    }

    method SchedOnTick()
      requires Valid()
      modifies this`curProcess, this`ticksLeftForCurProc, queue
      ensures Valid() && View() == Tick(old(View()))
      ensures old(ticksLeftForCurProc) > 0 ==> ticksLeftForCurProc == old(ticksLeftForCurProc) - 1
      ensures old(ticksLeftForCurProc) == 0 && curProcess != null ==>
        ticksLeftForCurProc == match curProcess.priority case HIGH => 1000 case NORM => 100 case LOW => 10
    {
      TickSound(View());
      PidsDistinguish();
      if ticksLeftForCurProc == 0 {
        SwapToNextProcess();
      } else {
        ticksLeftForCurProc := ticksLeftForCurProc - 1;
      }
      assert View() == Tick(old(View()));
    }

    method GetAvailablePid() returns (pid: nat)
      requires AvailablePid(pids) < |pids|
      modifies this`pids
      ensures pid == AvailablePid(old(pids)) && pids == old(pids)[pid := 1]
    {
      var i := 0;
      while i < |pids|
        invariant i <= AvailablePid(pids) && pids == old(pids)
      {
        if pids[i] == 0 {
          pids := pids[i := 1];
          return i;
        }
        i := i + 1;
      }
      assert false;
    }

    method AddProcess(priority: Priority) returns (proc: Process)
      requires Valid() && |queue| < PID_MAX
      modifies this`queue, this`pids
      ensures fresh(proc) && queue == old(queue) + [proc] && proc.priority == priority && proc.state == PAUSED
      ensures proc.pid < PID_MAX && pids == old(pids)[proc.pid := 1]
      ensures old(pids)[proc.pid] == 0 && forall v :: 0 <= v < proc.pid ==> old(pids)[v] != 0
      ensures AvailablePid(old(pids)) < PID_MAX && Valid() && View() == Add(old(View()), priority)
    {
      AddSound(View(), priority);
      var pid := GetAvailablePid();
      proc := new Process(pid, priority);
      queue := queue + [proc];
      proc.Run();
      proc.Pause();
      if curProcess != null {
        ghost var k := old(First(queue, curProcess));
        assert queue[k] == curProcess;
      }
      assert Procs() == Add(old(View()), priority).queue;
      assert View() == Add(old(View()), priority);
    }

    /** Removal of a queued process other than the current one; k is its position. */
    method RemoveProcess(proc: Process, ghost k: nat)
      requires Valid() && k < |queue| && queue[k] == proc && proc != curProcess
      modifies this`queue, this`pids, proc
      ensures queue == old(queue)[..k] + old(queue)[k + 1..] && proc.state == STOPPING
      ensures Valid() && View() == Remove(old(View()), k)
    {
      ghost var before := View();
      PidsDistinguish();
      RemoveSound(before, k);
      assert before.queue[k].pid == proc.pid;
      proc.Stop();
      assert Procs() == SetState(before.queue, k, STOPPING);
      RemoveForgets(before, k, STOPPING);
      Dequeue(proc, k);
    }

    method Dequeue(proc: Process, ghost k: nat)
      requires DistinctObjects(queue) && k < |queue| && queue[k] == proc && proc != curProcess
      requires proc.pid < |pids| && (curProcess != null ==> curProcess in queue)
      modifies this`queue, this`pids
      ensures queue == old(queue)[..k] + old(queue)[k + 1..]
      ensures View() == Remove(old(View()), k)
    {
      ghost var before := View();
      var i := 0;
      while i < |queue| && queue[i] != proc
        invariant i <= k
      {
        i := i + 1;
      }
      RemovedIndex(queue, k, curProcess);
      queue := queue[..i] + queue[i + 1..];
      pids := pids[proc.pid := 0];
      assert Procs() == Remove(before, k).queue;
    }
  }
}
