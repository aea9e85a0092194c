/** Runs of the frame allocator as a set of free frames. */
module FrameRuns {
  import opened FrameSearch
  import FrameAlloc

  /** Frames among the first n that are not in use. */
  function FreeFrames(u: seq<bool>, n: nat): set<nat> {
    set f: nat | f < n && f < |u| && !u[f]
  }

  /** alloc_frame takes the least free frame out of the set and nothing else. */
  lemma TakeRefines(u: seq<bool>, n: nat, f: nat)
    requires LowestFree(u, n, f)
    ensures f in FreeFrames(u, n) && forall g :: g in FreeFrames(u, n) ==> f <= g
    ensures FreeFrames(u[f := true], n) == FreeFrames(u, n) - {f}
    ensures |FreeFrames(u[f := true], n)| == |FreeFrames(u, n)| - 1
  {
    assert FreeFrames(u[f := true], n) == FreeFrames(u, n) - {f};
  }

  /** free_frame adds exactly its frame. */
  lemma GiveRefines(u: seq<bool>, n: nat, f: nat)
    requires f < n <= |u|
    ensures FreeFrames(u[f := false], n) == FreeFrames(u, n) + {f}
  {
  }

  // Each operation carries the frame that the allocator returned or got back.
  datatype Op =
    | Take(f: nat)
    | TakeRun(f: nat, num: nat)
    | Give(f: nat)
    | GiveRun(f: nat, num: nat)

  ghost predicate Legal(u: seq<bool>, n: nat, op: Op) {
    match op
    case Take(f) => LowestFree(u, n, f)
    case TakeRun(f, num) => FirstCandidate(u, n, f, num) && f + num <= |u| && Reach(u, f, num)
    case Give(f) => f < |u|
    case GiveRun(f, num) => f + num <= |u|
  }

  ghost function Apply(u: seq<bool>, n: nat, op: Op): (r: seq<bool>)
    requires Legal(u, n, op)
    ensures |r| == |u|
  {
    match op
    case Take(f) => u[f := true]
    case TakeRun(f, num) => SetRun(u, f, num, true)
    case Give(f) => u[f := false]
    case GiveRun(f, num) => SetRun(u, f, num, false)
  }

  ghost predicate LegalRun(u: seq<bool>, n: nat, ops: seq<Op>)
    decreases |ops|
  {
    |ops| == 0 || (Legal(u, n, ops[0]) && LegalRun(Apply(u, n, ops[0]), n, ops[1..]))
  }

  /** The operation hands out frame f. */
  predicate HandsOut(op: Op, f: nat) {
    match op
    case Take(g) => f == g
    case TakeRun(g, num) => g <= f < g + num
    case _ => false
  }

  predicate TakesBack(op: Op, f: nat) {
    match op
    case Give(g) => f == g
    case GiveRun(g, num) => g <= f < g + num
    case _ => false
  }

  /** Over the whole run a frame in use that nobody frees is not handed out again, except as one
      of the last frames of a contiguous run, which the nine-slot walk does not look at. */
  lemma {:induction false} NotHandedOutTwice(u: seq<bool>, n: nat, ops: seq<Op>, f: nat, i: nat)
    requires LegalRun(u, n, ops) && f < |u| && u[f] && i < |ops|
    requires forall j :: 0 <= j < i ==> !TakesBack(ops[j], f)
    ensures HandsOut(ops[i], f) ==> ops[i].TakeRun? && f >= ops[i].f + Inspected(ops[i].f % 8, ops[i].num)
    decreases |ops|
  {
    var op := ops[0];
    if i == 0 {
      if op.TakeRun? {
        CandidateExactly(u, op.f, op.num);
      }
    } else {
      assert Apply(u, n, op)[f];
      NotHandedOutTwice(Apply(u, n, op), n, ops[1..], f, i - 1);
    }
  }

  // ---------------------------------------------------------------- runs of the allocator itself

  datatype Call =
    | AllocFrame
    | AllocContiguous(num: nat)
    | FreeFrame(addr: nat)
    | FreeContiguous(addr: nat, num: nat)

  /** Memory behind the bitmap is large enough for the call. */
  predicate Enough(fa: FrameAlloc.FrameAllocator, call: Call) {
    match call
    case AllocFrame => true
    case AllocContiguous(num) => fa.bitmapSize + num / 8 + 1 < fa.ram.Length
    case FreeFrame(addr) => addr / FrameAlloc.FRAME < 8 * fa.ram.Length
    case FreeContiguous(addr, num) => addr / FrameAlloc.FRAME + num <= 8 * fa.ram.Length
  }

  /** The operation is the call together with the frame it answered or got. */
  predicate Answers(call: Call, op: Op) {
    match call
    case AllocFrame => op.Take?
    case AllocContiguous(num) => op.TakeRun? && op.num == num
    case FreeFrame(addr) => op == Give(addr / FrameAlloc.FRAME)
    case FreeContiguous(addr, num) => op == GiveRun(addr / FrameAlloc.FRAME, num)
  }

  /** The source panics: no frame is free, or no frame starts a run. */
  ghost predicate Panics(u: seq<bool>, n: nat, call: Call) {
    match call
    case AllocFrame => n <= |u| && forall f :: 0 <= f < n ==> u[f]
    case AllocContiguous(num) => forall f: nat :: f < n ==> !Candidate(u, f, num)
    case _ => false
  }

  method Perform(fa: FrameAlloc.FrameAllocator, call: Call) returns (ok: bool, ghost op: Op)
    requires fa.Valid() && Enough(fa, call)
    modifies fa.ram
    ensures !ok ==> Panics(old(fa.InUse()), 8 * fa.bitmapSize, call) && fa.InUse() == old(fa.InUse())
    ensures ok ==> Answers(call, op) && Legal(old(fa.InUse()), 8 * fa.bitmapSize, op)
    ensures ok ==> fa.InUse() == Apply(old(fa.InUse()), 8 * fa.bitmapSize, op)
  {
    op := Give(0);
    match call
    case AllocFrame =>
      var r := fa.AllocFrame();
      if r.None? { return false, op; }
      return true, Take(r.value / FrameAlloc.FRAME);
    case AllocContiguous(num) =>
      var r := fa.AllocContiguousFrames(num);
      if r.None? { return false, op; }
      return true, TakeRun(r.value / FrameAlloc.FRAME, num);
    case FreeFrame(addr) =>
      fa.FreeFrame(addr);
      return true, Give(addr / FrameAlloc.FRAME);
    case FreeContiguous(addr, num) =>
      fa.FreeContiguousFrames(addr, num);
      return true, GiveRun(addr / FrameAlloc.FRAME, num);
  }

  ghost function After(u: seq<bool>, n: nat, ops: seq<Op>): (r: seq<bool>)
    requires LegalRun(u, n, ops)
    ensures |r| == |u|
    decreases |ops|
  {
    if |ops| == 0 then u else After(Apply(u, n, ops[0]), n, ops[1..])
  }

  /** Any calls of the allocator, up to one that panics, are a legal run on the set of frames in
      use, so the run theorem speaks of what the class hands out. */
  method Replay(fa: FrameAlloc.FrameAllocator, calls: seq<Call>) returns (ghost ops: seq<Op>)
    requires fa.Valid() && forall i :: 0 <= i < |calls| ==> Enough(fa, calls[i])
    modifies fa.ram
    ensures |ops| <= |calls| && forall i :: 0 <= i < |ops| ==> Answers(calls[i], ops[i])
    ensures LegalRun(old(fa.InUse()), 8 * fa.bitmapSize, ops)
    ensures fa.InUse() == After(old(fa.InUse()), 8 * fa.bitmapSize, ops)
    ensures |ops| < |calls| ==> Panics(fa.InUse(), 8 * fa.bitmapSize, calls[|ops|])
    decreases |calls|
  {
    ops := [];
    if |calls| > 0 {
      ghost var op;
      var ok;
      ok, op := Perform(fa, calls[0]);
      if ok {
        ghost var rest := Replay(fa, calls[1..]);
        ops := [op] + rest;
        assert ops[1..] == rest;
      }
    }
  }
}
