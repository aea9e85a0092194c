/** Which frames the two searches of the frame allocator return, on u[f] = frame f is in use. */
module FrameSearch {

  /** f is the lowest free frame among the first n. */
  ghost predicate LowestFree(u: seq<bool>, n: nat, f: nat) {
    && f < n <= |u| && !u[f]
    && forall g :: 0 <= g < f ==> u[g]
  }

  /** Frames f .. f + n set to used or free. */
  function SetRun(u: seq<bool>, f: nat, n: nat, used: bool): seq<bool>
    requires f + n <= |u|
  {
    u[..f] + seq(n, _ => used) + u[f + n..]
  }

  ghost predicate RunFree(u: seq<bool>, f: nat, n: nat) {
    f + n <= |u| && forall i :: f <= i < f + n ==> !u[i]
  }

  // ---------------------------------------------------------------- the nine-slot walk

  datatype BitmapIdx = BitmapIdx(byteidx: nat, bitidx: nat)

  /** Position 8 of a byte is a phantom that always reads free. */
  predicate ReadsFree(u: seq<bool>, idx: BitmapIdx) {
    idx.bitidx == 8 || (idx.byteidx * 8 + idx.bitidx < |u| && !u[idx.byteidx * 8 + idx.bitidx])
  }

  /** The step of find_contiguous_frames: it leaves a byte only from position 8. */
  function Step(idx: BitmapIdx): BitmapIdx {
    if idx.bitidx + 1 > 8 then BitmapIdx(idx.byteidx + 1, 0) else idx.(bitidx := idx.bitidx + 1)
  }

  /** The walk from idx over num further positions reads only free ones. */
  predicate Walk(u: seq<bool>, idx: BitmapIdx, num: nat)
    decreases num
  {
    ReadsFree(u, idx) && (num == 0 || Walk(u, Step(idx), num - 1))
  }

  lemma WalkStep(u: seq<bool>, idx: BitmapIdx, next: BitmapIdx, num: nat)
    requires 0 < num && next == Step(idx)
    ensures Walk(u, idx, num) <==> ReadsFree(u, idx) && Walk(u, next, num - 1)
  {
  }

  /** Positions numbered through: nine slots per byte, so frame f is slot f + f / 8. */
  function Slot(f: nat): nat { f + f / 8 }

  /** The frame that slot p stands for, when it is not the phantom. */
  function FrameOf(p: nat): nat { p / 9 * 8 + p % 9 }

  lemma FrameOfSlot(f: nat)
    ensures Slot(f) % 9 == f % 8 && Slot(f) / 9 == f / 8 && FrameOf(Slot(f)) == f
  {
  }

  predicate SlotFree(u: seq<bool>, p: nat) {
    p % 9 == 8 || (FrameOf(p) < |u| && !u[FrameOf(p)])
  }

  /** The walk from frame f over num further slots stays in memory. */
  predicate Reach(u: seq<bool>, f: nat, num: nat) {
    (Slot(f) + num) / 9 * 8 + 8 <= |u|
  }

  /** The walk from frame f over num further slots meets no used frame. */
  ghost predicate ClearWalk(u: seq<bool>, f: nat, num: nat) {
    ClearSlots(u, Slot(f), num)
  }

  ghost predicate ClearSlots(u: seq<bool>, s: nat, num: nat) {
    forall p :: s <= p <= s + num ==> SlotFree(u, p)
  }

  /** Frames that the walk from bit b of a byte really looks at. */
  function Inspected(b: nat, num: nat): (n: nat)
    requires b < 8
  {
    num + 1 - (b + num + 1) / 9
  }

  lemma InspectedExactly(f: nat, num: nat, i: nat)
    ensures Slot(f + i) <= Slot(f) + num <==> i < Inspected(f % 8, num)
  {
    var b, q := f % 8, (f % 8 + num + 1) / 9;
    assert (f + i) / 8 == f / 8 + (b + i) / 8;
    if i < Inspected(b, num) {
      assert (b + i) / 8 <= q;
    } else {
      assert b + i >= 8 * q;
    }
  }

  lemma InspectedInMemory(u: seq<bool>, f: nat, num: nat)
    requires Reach(u, f, num)
    ensures 0 < Inspected(f % 8, num) && f + Inspected(f % 8, num) <= |u|
  {
    var last := f + Inspected(f % 8, num) - 1;
    InspectedExactly(f, num, Inspected(f % 8, num) - 1);
    FrameOfSlot(last);
    assert Slot(last) / 9 <= (Slot(f) + num) / 9;
  }

  /** The walk succeeds exactly when those frames are free. */
  lemma ClearWalkExactly(u: seq<bool>, f: nat, num: nat)
    requires Reach(u, f, num)
    ensures ClearWalk(u, f, num) <==> RunFree(u, f, Inspected(f % 8, num))
  {
    InspectedInMemory(u, f, num);
    if ClearWalk(u, f, num) {
      forall i | f <= i < f + Inspected(f % 8, num)
        ensures !u[i]
      {
        InspectedExactly(f, num, i - f);
        FrameOfSlot(i);
        assert SlotFree(u, Slot(i));
      }
    }
    if RunFree(u, f, Inspected(f % 8, num)) {
      forall p | Slot(f) <= p <= Slot(f) + num
        ensures SlotFree(u, p)
      {
        SlotFreeIfRun(u, f, num, p);
      }
    }
  }

  lemma SlotFreeIfRun(u: seq<bool>, f: nat, num: nat, p: nat)
    requires Reach(u, f, num) && RunFree(u, f, Inspected(f % 8, num)) && Slot(f) <= p <= Slot(f) + num
    ensures SlotFree(u, p)
  {
    assert p / 9 <= (Slot(f) + num) / 9;
    if p % 9 != 8 {
      var g := FrameOf(p);
      assert g / 8 == p / 9 && Slot(g) == p;
      assert f <= g;
      InspectedExactly(f, num, g - f);
    }
  }

  /** A successful walk guarantees the whole run exactly when b + num <= 16. */
  lemma ContiguousExactly(b: nat, num: nat)
    requires b < 8
    ensures
      (forall u, f: nat ::
        f % 8 == b && f + num <= |u| && Reach(u, f, num) && ClearWalk(u, f, num) ==> RunFree(u, f, num))
      <==> b + num <= 16
  {
    if b + num <= 16 {
      forall u, f: nat | f % 8 == b && f + num <= |u| && Reach(u, f, num) && ClearWalk(u, f, num)
        ensures RunFree(u, f, num)
      {
        ClearWalkExactly(u, f, num);
      }
    } else {
      // All frames in use but the ones that the walk looks at.
      var n := Inspected(b, num);
      var u := SetRun(seq(8 * (num + 2), _ => true), b, n, false);
      assert Reach(u, b, num);
      ClearWalkExactly(u, b, num);
      assert u[b + n];
    }
  }

  lemma {:induction false} WalkExactly(u: seq<bool>, idx: BitmapIdx, num: nat)
    requires idx.bitidx <= 8
    ensures Walk(u, idx, num) <==> ClearSlots(u, idx.byteidx * 9 + idx.bitidx, num)
    decreases num
  {
    var s := idx.byteidx * 9 + idx.bitidx;
    assert SlotFree(u, s) <==> ReadsFree(u, idx);
    if num > 0 {
      assert Step(idx).byteidx * 9 + Step(idx).bitidx == s + 1;
      WalkExactly(u, Step(idx), num - 1);
      assert ClearSlots(u, s, num) ==> ClearSlots(u, s + 1, num - 1);
    }
  }

  lemma SetRunStep(u: seq<bool>, f: nat, n: nat, used: bool)
    requires f + n < |u|
    ensures SetRun(u, f, n, used)[f + n := used] == SetRun(u, f, n + 1, used)
  {
  }

  /** The search would return frame f if it got there. */
  predicate Candidate(u: seq<bool>, f: nat, num: nat) {
    Walk(u, BitmapIdx(f / 8, f % 8), num)
  }

  lemma CandidateExactly(u: seq<bool>, f: nat, num: nat)
    requires Reach(u, f, num)
    ensures Candidate(u, f, num) <==> RunFree(u, f, Inspected(f % 8, num))
  {
    FrameOfSlot(f);
    WalkExactly(u, BitmapIdx(f / 8, f % 8), num);
    ClearWalkExactly(u, f, num);
  }

  /** f is the first frame among n from which the walk succeeds. */
  ghost predicate FirstCandidate(u: seq<bool>, n: nat, f: nat, num: nat) {
    f < n && Candidate(u, f, num) && forall g :: 0 <= g < f ==> !Candidate(u, g, num)
  }

  lemma ReachAll(u: seq<bool>, bytes: nat, f: nat, num: nat)
    requires f < 8 * bytes && 8 * (bytes + num / 8 + 1) <= |u|
    ensures Reach(u, f, num)
  {
    assert (Slot(f) + num) / 9 <= bytes + num / 8;
  }

  /** Freeing a run restores the bitmap exactly when the run was wholly free before. */
  lemma SetRunUndone(u: seq<bool>, f: nat, n: nat)
    requires f + n <= |u|
    ensures SetRun(SetRun(u, f, n, true), f, n, false) == u <==> RunFree(u, f, n)
  {
    var r := SetRun(SetRun(u, f, n, true), f, n, false);
    assert forall i :: 0 <= i < |u| ==> r[i] == (u[i] && !(f <= i < f + n));
  }
}
