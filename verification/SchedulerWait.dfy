/** How long a process waits for its turn. */
module SchedulerWait {
  import opened Common
  import opened SchedulerSpec

  function Ticks(s: Sched, k: nat): Sched
    requires s.cur.Some? && s.cur.value < |s.queue|
    decreases k
  {
    if k == 0 then s else TickKeeps(s); Ticks(Tick(s), k - 1)
  }

  /** Ticks per turn: the slice, and the tick that swaps. */
  function Cost(q: seq<Proc>, i: nat): nat
    requires i < |q|
  {
    Slice(q[i].priority) + 1
  }

  /** Ticks for the turns of the first n processes. */
  function Total(q: seq<Proc>, n: nat): nat
    requires n <= |q|
  {
    if n == 0 then 0 else Total(q, n - 1) + Cost(q, n - 1)
  }

  /** Ticks for the turns from i round the queue up to, not including, j. */
  function Segment(q: seq<Proc>, i: nat, j: nat): int
    requires i < |q| && j < |q|
  {
    if i <= j then Total(q, j) - Total(q, i) else Total(q, |q|) - Total(q, i) + Total(q, j)
  }

  /** Ticks until process j is resumed: the rest of the current slice, one tick to swap, and
      the turns of those in between. */
  function Wait(s: Sched, j: nat): int
    requires s.cur.Some? && s.cur.value < |s.queue| && j < |s.queue|
  {
    s.ticks + 1 + Segment(s.queue, Successor(|s.queue|, s.cur.value), j)
  }

  function Distance(n: nat, i: nat, j: nat): (d: nat)
    requires i < n && j < n
  {
    if i <= j then j - i else j + n - i
  }

  ghost predicate SamePriorities(q: seq<Proc>, r: seq<Proc>) {
    |q| == |r| && forall i :: 0 <= i < |q| ==> q[i].priority == r[i].priority
  }

  lemma TickKeeps(s: Sched)
    requires s.cur.Some? && s.cur.value < |s.queue|
    ensures var r := Tick(s);
      r.cur.Some? && r.cur.value < |r.queue| && SamePriorities(s.queue, r.queue)
  {
  }

  lemma {:induction false} TotalMonotone(q: seq<Proc>, m: nat, n: nat)
    requires m <= n <= |q|
    ensures Total(q, m) <= Total(q, n)
  {
    if m < n { TotalMonotone(q, m, n - 1); }
  }

  lemma {:induction false} TotalSame(q: seq<Proc>, r: seq<Proc>, n: nat)
    requires SamePriorities(q, r) && n <= |q|
    ensures Total(q, n) == Total(r, n)
  {
    if n > 0 { TotalSame(q, r, n - 1); }
  }

  lemma SegmentSame(q: seq<Proc>, r: seq<Proc>, i: nat, j: nat)
    requires SamePriorities(q, r) && i < |q| && j < |q|
    ensures Segment(q, i, j) == Segment(r, i, j)
  {
    TotalSame(q, r, i);
    TotalSame(q, r, j);
    TotalSame(q, r, |q|);
  }

  lemma SegmentStep(q: seq<Proc>, i: nat, j: nat)
    requires i < |q| && j < |q|
    ensures i != j ==> Segment(q, i, j) == Cost(q, i) + Segment(q, Successor(|q|, i), j)
    ensures i == j ==> Segment(q, i, j) == 0
    ensures Cost(q, i) + Segment(q, Successor(|q|, i), j) <= Total(q, |q|)
    ensures 0 <= Segment(q, i, j)
  {
    TotalMonotone(q, i, |q|);
    TotalMonotone(q, i + 1, |q|);
    TotalMonotone(q, j, |q|);
    if i <= j { TotalMonotone(q, i, j); } else { TotalMonotone(q, j, i); }
    if i + 1 <= j { TotalMonotone(q, i + 1, j); }
    assert Total(q, i + 1) == Total(q, i) + Cost(q, i);
    assert Total(q, 0) == 0;
  }

  /** The next state at which the current process changes. */
  lemma {:induction false} DrainSlice(s: Sched, k: nat)
    requires s.cur.Some? && s.cur.value < |s.queue| && k <= s.ticks
    ensures Ticks(s, k) == s.(ticks := s.ticks - k)
    decreases k
  {
    if k > 0 { DrainSlice(Tick(s), k - 1); }
  }

  lemma {:induction false} TicksSum(s: Sched, a: nat, b: nat)
    requires s.cur.Some? && s.cur.value < |s.queue|
    ensures var r := Ticks(s, a);
      && r.cur.Some? && r.cur.value < |r.queue| && SamePriorities(s.queue, r.queue)
      && Ticks(s, a + b) == Ticks(r, b)
    decreases a
  {
    if a > 0 {
      TickKeeps(s);
      TicksSum(Tick(s), a - 1, b);
    }
  }

  /** One turn: after the rest of the slice and one more tick the successor has been resumed. */
  lemma OneTurn(s: Sched)
    requires s.cur.Some? && s.cur.value < |s.queue|
    ensures var r, j := Ticks(s, s.ticks + 1), Successor(|s.queue|, s.cur.value);
      && r.cur == Some(j) && SamePriorities(s.queue, r.queue)
      && r.ticks == Slice(s.queue[j].priority) && r.queue[j].state == RUNNING
  {
    var d := s.(ticks := 0);
    DrainSlice(s, s.ticks);
    TicksSum(s, s.ticks, 1);
    assert Ticks(d, 1) == Tick(d);
  }

  /** Process j has been given a full slice and set running. */
  predicate Resumed(s: Sched, j: nat) {
    s.cur == Some(j) && j < |s.queue| && s.queue[j].state == RUNNING && s.ticks == Slice(s.queue[j].priority)
  }

  /** Process j is resumed after exactly Wait ticks, whatever the current tick count. */
  lemma {:induction false} ResumedOnTime(s: Sched, j: nat)
    requires s.cur.Some? && s.cur.value < |s.queue| && j < |s.queue|
    ensures 0 < Wait(s, j) && Resumed(Ticks(s, Wait(s, j)), j)
    decreases Distance(|s.queue|, Successor(|s.queue|, s.cur.value), j)
  {
    var c := Successor(|s.queue|, s.cur.value);
    SegmentStep(s.queue, c, j);
    OneTurn(s);
    if c != j {
      var r := Ticks(s, s.ticks + 1);
      SegmentSame(s.queue, r.queue, Successor(|r.queue|, c), j);
      ResumedOnTime(r, j);
      TicksSum(s, s.ticks + 1, Wait(r, j));
      assert Wait(s, j) == s.ticks + 1 + Wait(r, j);
    }
  }

  /** And not before: the waiting time is exact. */
  lemma {:induction false} NotEarlier(s: Sched, j: nat, k: nat)
    requires s.cur.Some? && s.cur.value < |s.queue| && j < |s.queue|
    requires s.ticks <= Slice(s.queue[s.cur.value].priority)
    requires 0 < k < Wait(s, j)
    ensures !Resumed(Ticks(s, k), j)
    decreases k
  {
    var c := Successor(|s.queue|, s.cur.value);
    SegmentStep(s.queue, c, j);
    if k <= s.ticks {
      DrainSlice(s, k);
    } else {
      OneTurn(s);
      var r, rest := Ticks(s, s.ticks + 1), k - (s.ticks + 1);
      if rest > 0 {
        TicksSum(s, s.ticks + 1, rest);
        SegmentSame(s.queue, r.queue, Successor(|r.queue|, c), j);
        NotEarlier(r, j, rest);
      }
    }
  }

  /** The bound: a full round of the queue, slices and swaps included. */
  lemma WaitingBound(s: Sched, j: nat)
    requires Sound(s) && s.cur.Some? && j < |s.queue|
    ensures 0 < Wait(s, j) <= Total(s.queue, |s.queue|)
    ensures Resumed(Ticks(s, Wait(s, j)), j)
  {
    ResumedOnTime(s, j);
    SegmentStep(s.queue, s.cur.value, j);
  }
}
