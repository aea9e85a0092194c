/** The scheduler as a value: round robin over a queue, a time slice per priority, and a
    table of process ids. */
module SchedulerSpec {
  import opened Common
  import Pigeonhole

  const PID_MAX: nat := 4096

  datatype Priority = HIGH | NORM | LOW
  datatype ProcState = RUNNING | SLEEPING | IOWAIT | PAUSED | DEFUNCT | STARTING | STOPPING

  datatype Proc = Proc(pid: nat, priority: Priority, state: ProcState)

  /** cur is the position of the current process in the queue. */
  datatype Sched = Sched(queue: seq<Proc>, cur: Option<nat>, ticks: nat, pids: seq<nat>)

  function Slice(p: Priority): nat {
    match p
    case HIGH => 1000
    case NORM => 100
    case LOW => 10
  }

  function Successor(n: nat, i: nat): (j: nat)
    requires i < n
    ensures j == (i + 1) % n
  {
    if i + 1 < n then i + 1 else 0
  }

  function NextProc(s: Sched): Option<nat>
    requires s.cur.Some? ==> s.cur.value < |s.queue|
  {
    if s.cur.Some? then Some(Successor(|s.queue|, s.cur.value))
    else if |s.queue| > 0 then Some(0)
    else None
  }

  function SetState(q: seq<Proc>, i: nat, state: ProcState): seq<Proc>
    requires i < |q|
  {
    q[i := q[i].(state := state)]
  }

  function Swap(s: Sched): Sched
    requires s.cur.Some? ==> s.cur.value < |s.queue|
  {
    var q := if s.cur.Some? then SetState(s.queue, s.cur.value, PAUSED) else s.queue;
    match NextProc(s)
    case None => s
    case Some(j) => s.(queue := SetState(q, j, RUNNING), cur := Some(j), ticks := Slice(q[j].priority))
  }

  function Tick(s: Sched): Sched
    requires s.cur.Some? ==> s.cur.value < |s.queue|
  {
    if s.ticks == 0 then Swap(s) else s.(ticks := s.ticks - 1)
  }

  /** The least pid whose slot is 0. */
  function AvailablePid(pids: seq<nat>): (p: nat)
    ensures p <= |pids|
    ensures p < |pids| ==> pids[p] == 0
    ensures forall i :: 0 <= i < p ==> pids[i] != 0
  {
    if |pids| == 0 || pids[0] == 0 then 0 else AvailablePid(pids[1..]) + 1
  }

  function Add(s: Sched, priority: Priority): Sched
    requires AvailablePid(s.pids) < |s.pids|
  {
    var pid := AvailablePid(s.pids);
    s.(queue := s.queue + [Proc(pid, priority, PAUSED)], pids := s.pids[pid := 1])
  }

  /** Process k leaves the queue and its pid becomes available; k is not the current process. */
  function Remove(s: Sched, k: nat): Sched
    requires k < |s.queue| && s.queue[k].pid < |s.pids|
  {
    Sched(s.queue[..k] + s.queue[k + 1..],
      if s.cur.Some? && s.cur.value > k then Some(s.cur.value - 1) else s.cur,
      s.ticks, s.pids[s.queue[k].pid := 0])
  }

  // ---------------------------------------------------------------- invariant

  ghost predicate Held(q: seq<Proc>, pid: nat) {
    exists i :: 0 <= i < |q| && q[i].pid == pid
  }

  ghost predicate DistinctPids(q: seq<Proc>) {
    forall i, j :: 0 <= i < j < |q| ==> q[i].pid != q[j].pid
  }

  /** A slot is 1 exactly when a queued process holds that pid, and 0 otherwise. */
  ghost predicate SlotsMatch(q: seq<Proc>, pids: seq<nat>) {
    && |pids| == PID_MAX
    && (forall i :: 0 <= i < |q| ==> q[i].pid < PID_MAX)
    && (forall v {:trigger pids[v]} {:trigger Held(q, v)} ::
         0 <= v < PID_MAX ==> pids[v] == if Held(q, v) then 1 else 0)
  }

  /** A queued process is RUNNING exactly when it is the current one. */
  ghost predicate OneRunning(s: Sched) {
    && (s.cur.Some? ==> s.cur.value < |s.queue|)
    && (forall i :: 0 <= i < |s.queue| ==> (s.queue[i].state == RUNNING <==> s.cur == Some(i)))
  }

  ghost predicate Sound(s: Sched) {
    && DistinctPids(s.queue)
    && SlotsMatch(s.queue, s.pids)
    && OneRunning(s)
    && s.ticks <= (if s.cur.Some? then Slice(s.queue[s.cur.value].priority) else 0)
  }

  /** Fewer processes than pids leave a pid available. */
  lemma PidAvailable(s: Sched)
    requires Sound(s) && |s.queue| < PID_MAX
    ensures AvailablePid(s.pids) < PID_MAX
  {
    var pids := seq(|s.queue|, i requires 0 <= i < |s.queue| => s.queue[i].pid);
    if AvailablePid(s.pids) == PID_MAX {
      forall v: nat | v < PID_MAX
        ensures v in pids
      {
        assert s.pids[v] != 0;
        var i :| 0 <= i < |s.queue| && s.queue[i].pid == v;
        assert pids[i] == v;
      }
      Pigeonhole.AllBelow(pids, PID_MAX);
    }
  }

  lemma TickSound(s: Sched)
    requires Sound(s)
    ensures Sound(Tick(s))
  {
    var r := Tick(s);
    assert |r.queue| == |s.queue|;
    assert forall i :: 0 <= i < |s.queue| ==>
      r.queue[i].pid == s.queue[i].pid && r.queue[i].priority == s.queue[i].priority;
    forall v: nat
      ensures Held(r.queue, v) <==> Held(s.queue, v)
    {
      if Held(s.queue, v) {
        var i :| 0 <= i < |s.queue| && s.queue[i].pid == v;
        assert r.queue[i].pid == v;
      }
    }
  }

  lemma AddSound(s: Sched, priority: Priority)
    requires Sound(s) && |s.queue| < PID_MAX
    ensures AvailablePid(s.pids) < PID_MAX && Sound(Add(s, priority))
  {
    PidAvailable(s);
    var r, pid := Add(s, priority), AvailablePid(s.pids);
    assert !Held(s.queue, pid);
    assert forall i :: 0 <= i < |s.queue| ==> r.queue[i] == s.queue[i] && s.queue[i].pid != pid;
    assert r.queue[|s.queue|].pid == pid;
    forall v: nat | v < PID_MAX
      ensures r.pids[v] == if Held(r.queue, v) then 1 else 0
    {
      if Held(s.queue, v) {
        var i :| 0 <= i < |s.queue| && s.queue[i].pid == v;
        assert r.queue[i].pid == v;
      }
      assert s.pids[v] == if Held(s.queue, v) then 1 else 0;
    }
  }

  /** q is p without its element k. */
  ghost predicate Without(p: seq<Proc>, q: seq<Proc>, k: nat) {
    && k < |p| == |q| + 1
    && (forall i {:trigger q[i]} :: 0 <= i < |q| ==> q[i] == p[Old(k, i)])
  }

  function Old(k: nat, i: nat): nat { if i < k then i else i + 1 }

  lemma WithoutHeld(p: seq<Proc>, q: seq<Proc>, k: nat, v: nat)
    requires DistinctPids(p) && Without(p, q, k)
    ensures Held(q, v) <==> Held(p, v) && v != p[k].pid
  {
    if Held(q, v) {
      var i :| 0 <= i < |q| && q[i].pid == v;
      assert p[Old(k, i)].pid == v;
    }
    if Held(p, v) && v != p[k].pid {
      var i :| 0 <= i < |p| && p[i].pid == v;
      assert q[if i < k then i else i - 1].pid == v;
    }
  }

  lemma WithoutSlots(p: seq<Proc>, q: seq<Proc>, k: nat, pids: seq<nat>)
    requires DistinctPids(p) && Without(p, q, k) && SlotsMatch(p, pids)
    ensures SlotsMatch(q, pids[p[k].pid := 0])
  {
    forall v: nat | v < PID_MAX
      ensures pids[p[k].pid := 0][v] == if Held(q, v) then 1 else 0
    {
      WithoutHeld(p, q, k, v);
    }
  }

  lemma WithoutDistinct(p: seq<Proc>, q: seq<Proc>, k: nat)
    requires DistinctPids(p) && Without(p, q, k)
    ensures DistinctPids(q)
  {
    forall i, j | 0 <= i < j < |q|
      ensures q[i].pid != q[j].pid
    {
      assert Old(k, i) < Old(k, j);
    }
  }

  lemma RemoveSound(s: Sched, k: nat)
    requires Sound(s) && k < |s.queue| && s.cur != Some(k)
    ensures Sound(Remove(s, k))
  {
    var q := Remove(s, k).queue;
    assert Without(s.queue, q, k);
    WithoutSlots(s.queue, q, k, s.pids);
    WithoutDistinct(s.queue, q, k);
    WithoutRunning(s, q, k);
  }

  lemma WithoutRunning(s: Sched, q: seq<Proc>, k: nat)
    requires Sound(s) && Without(s.queue, q, k) && s.cur != Some(k)
    ensures var cur := if s.cur.Some? && s.cur.value > k then Some(s.cur.value - 1) else s.cur;
      && (cur.Some? ==> cur.value < |q| && q[cur.value] == s.queue[s.cur.value])
      && (forall i :: 0 <= i < |q| ==> (q[i].state == RUNNING <==> cur == Some(i)))
  {
  }

  // ---------------------------------------------------------------- runs

  datatype Op = AddOp(priority: Priority) | RemoveOp(k: nat) | TickOp

  /** What the callers keep to: fewer processes than pids, and the current process stays. */
  predicate Legal(s: Sched, op: Op) {
    match op
    case AddOp(_) => |s.queue| < PID_MAX
    case RemoveOp(k) => k < |s.queue| && s.cur != Some(k)
    case TickOp => true
  }

  function Apply(s: Sched, op: Op): Sched
    requires Sound(s) && Legal(s, op)
  {
    match op
    case AddOp(priority) => PidAvailable(s); Add(s, priority)
    case RemoveOp(k) => Remove(s, k)
    case TickOp => Tick(s)
  }

  lemma StepSound(s: Sched, op: Op)
    requires Sound(s) && Legal(s, op)
    ensures Sound(Apply(s, op))
  {
    match op
    case AddOp(priority) => AddSound(s, priority);
    case RemoveOp(k) => RemoveSound(s, k);
    case TickOp => TickSound(s);
  }

  ghost predicate LegalRun(s: Sched, ops: seq<Op>)
    requires Sound(s)
    decreases |ops|
  {
    |ops| == 0 || (Legal(s, ops[0]) && (StepSound(s, ops[0]); LegalRun(Apply(s, ops[0]), ops[1..])))
  }

  /** After every run pids are distinct, slots exact, and at most one queued process is RUNNING. */
  ghost function Run(s: Sched, ops: seq<Op>): (r: Sched)
    requires Sound(s) && LegalRun(s, ops)
    ensures Sound(r)
    decreases |ops|
  {
    if |ops| == 0 then s else
      StepSound(s, ops[0]);
      Run(Apply(s, ops[0]), ops[1..])
  }

  /** The scheduler after init: no process, no current one, every pid available. */
  function Fresh(): (s: Sched)
    ensures Sound(s)
  {
    Sched([], None, 0, seq(PID_MAX, _ => 0))
  }

  /** Over every run from init: pids differ, a slot is 1 exactly when a queued process holds
      that pid, and the processes RUNNING are the current one or none. */
  lemma RunFromInit(ops: seq<Op>, v: nat)
    requires LegalRun(Fresh(), ops) && v < PID_MAX
    ensures var s := Run(Fresh(), ops);
      && (forall i, j :: 0 <= i < j < |s.queue| ==> s.queue[i].pid != s.queue[j].pid)
      && |s.pids| == PID_MAX && (s.pids[v] == 1 <==> exists i :: 0 <= i < |s.queue| && s.queue[i].pid == v)
      && (forall i :: 0 <= i < |s.queue| ==> (s.queue[i].state == RUNNING <==> s.cur == Some(i)))
  {
    assert Held(Run(Fresh(), ops).queue, v) <==> Run(Fresh(), ops).pids[v] == 1;
  }
}
