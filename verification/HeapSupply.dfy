/** The pages that the frame allocator hands to the heap, as long as none of them is freed. */
module HeapSupply {
  import opened FrameSearch
  import opened FrameRuns
  import opened SlabOwnership
  import opened SlabPartition
  import Bits
  import opened Slabs

  /** Address of a run of frames for the kernel: the physical one, or'd with the offset. */
  function BaseOf(f: nat, offset: nat): nat { Bits.Or(f * PAGE, offset) }

  lemma BaseSum(f: nat, offset: nat)
    requires Bits.Disjoint(f * PAGE, offset)
    ensures BaseOf(f, offset) == f * PAGE + offset
  {
    Bits.OrDisjoint(f * PAGE, offset);
  }

  ghost predicate InHanded(ops: seq<Op>, offset: nat, i: nat, p: nat)
    requires i < |ops|
  {
    ops[i].TakeRun? && InRun(ops[i].f * PAGE + offset, ops[i].num, p)
  }

  ghost predicate InSomeHanded(ops: seq<Op>, offset: nat, p: nat) {
    exists i :: 0 <= i < |ops| && InHanded(ops, offset, i, p)
  }

  /** Memory of all runs handed to the heap. */
  ghost function Handed(ops: seq<Op>, offset: nat): Memory { iset p: nat | InSomeHanded(ops, offset, p) }

  /** No frame of a run is given back. */
  ghost predicate HeapKept(ops: seq<Op>) {
    forall i, k, f: nat {:trigger HandsOut(ops[i], f), TakesBack(ops[k], f)} ::
      0 <= i < k < |ops| && ops[i].TakeRun? && HandsOut(ops[i], f) ==> !TakesBack(ops[k], f)
  }

  /** A frame handed out and not given back is not handed out again, but as one of the last frames
      of a run, which nobody looked at. */
  lemma {:induction false} HandedOnce(u: seq<bool>, n: nat, ops: seq<Op>, i: nat, j: nat, f: nat)
    requires LegalRun(u, n, ops) && i < j < |ops| && HandsOut(ops[i], f)
    requires forall k :: i < k < j ==> !TakesBack(ops[k], f)
    ensures HandsOut(ops[j], f) ==> ops[j].TakeRun? && f >= ops[j].f + Inspected(ops[j].f % 8, ops[j].num)
    decreases |ops|
  {
    var u1 := Apply(u, n, ops[0]);
    if i == 0 {
      assert f < |u1| && u1[f];
      NotHandedOutTwice(u1, n, ops[1..], f, j - 1);
    } else {
      HandedOnce(u1, n, ops[1..], i - 1, j - 1, f);
    }
  }

  /** The frames of a run that the search looked at. */
  function Vouched(op: Op): nat
    requires op.TakeRun?
  {
    var m := Inspected(op.f % 8, op.num);
    if m < op.num then m else op.num
  }

  /** Up to nine pages, that is all of them. */
  lemma VouchedAll(op: Op)
    requires op.TakeRun? && op.num <= 9
    ensures Vouched(op) == op.num
  {
    assert (op.f % 8 + op.num + 1) / 9 <= 1;
  }

  /** Each run handed to the heap is new to it in the pages that the search looked at, so with
      requests of at most nine pages it is new altogether, whatever order the runs come in. */
  lemma RequestNew(u: seq<bool>, n: nat, ops: seq<Op>, j: nat, offset: nat)
    requires LegalRun(u, n, ops) && HeapKept(ops) && j < |ops| && ops[j].TakeRun?
    ensures NewTo(Handed(ops[..j], offset), RunOf(ops[j].f * PAGE + offset, Vouched(ops[j])))
    ensures ops[j].num <= 9 ==> NewTo(Handed(ops[..j], offset), RunOf(ops[j].f * PAGE + offset, ops[j].num))
  {
    forall p: nat | p in RunOf(ops[j].f * PAGE + offset, Vouched(ops[j]))
      ensures p !in Handed(ops[..j], offset)
    {
      if p in Handed(ops[..j], offset) {
        var i :| 0 <= i < |ops[..j]| && InHanded(ops[..j], offset, i, p);
        var f := (p - offset) / PAGE;
        FrameIn(ops[i].f, ops[i].num, offset, p);
        FrameIn(ops[j].f, Vouched(ops[j]), offset, p);
        assert HandsOut(ops[i], f);
        forall k | i < k < j
          ensures !TakesBack(ops[k], f)
        {
          assert HandsOut(ops[i], f);
        }
        HandedOnce(u, n, ops, i, j, f);
        assert false;
      }
    }
    if ops[j].num <= 9 { VouchedAll(ops[j]); }
  }

  lemma FrameIn(f: nat, num: nat, offset: nat, p: nat)
    requires InRun(f * PAGE + offset, num, p)
    ensures f <= (p - offset) / PAGE < f + num
  {
  }

  lemma FirstAnswer(u: seq<bool>)
    requires |u| == 32 && !u[0] && !u[1]
    ensures FirstCandidate(u, 8, 0, 1)
  {
    CandidateExactly(u, 0, 1);
  }

  lemma SecondAnswer(u: seq<bool>)
    requires |u| == 32 && u[0] && u[3] && !u[4] && !u[5] && !u[6]
    ensures FirstCandidate(u, 8, 4, 2)
  {
    CandidateExactly(u, 4, 2);
    forall g: nat | g < 4
      ensures !Candidate(u, g, 2)
    {
      CandidateExactly(u, g, 2);
      assert u[if g == 0 then 0 else 3];
    }
  }

  lemma ThirdAnswer(u: seq<bool>)
    requires |u| == 32 && u[0] && !u[1] && !u[2]
    ensures FirstCandidate(u, 8, 1, 1)
  {
    CandidateExactly(u, 0, 1);
    CandidateExactly(u, 1, 1);
  }

  lemma RunOfThree(u: seq<bool>, n: nat, a: Op, b: Op, c: Op)
    requires Legal(u, n, a) && Legal(Apply(u, n, a), n, b) && Legal(Apply(Apply(u, n, a), n, b), n, c)
    ensures LegalRun(u, n, [a, b, c])
  {
    assert [a, b, c][1..] == [b, c] && [b, c][1..] == [c] && [c][1..] == [];
    assert LegalRun(Apply(Apply(u, n, a), n, b), n, [c]);
    assert LegalRun(Apply(u, n, a), n, [b, c]);
  }

  /** First fit over runs does not ascend, though no frame is freed: with frames 0 to 2 and 4 on free,
      requests of 1, 2 and 1 pages are answered with frames 0, 4 and 1. */
  lemma AnswersOutOfOrder(u: seq<bool>)
    requires |u| == 32 && forall f :: 0 <= f < |u| ==> (u[f] <==> f == 3)
    ensures LegalRun(u, 8, [TakeRun(0, 1), TakeRun(4, 2), TakeRun(1, 1)])
  {
    var u1 := SetRun(u, 0, 1, true);
    var u2 := SetRun(u1, 4, 2, true);
    FirstAnswer(u);
    SecondAnswer(u1);
    ThirdAnswer(u2);
    RunOfThree(u, 8, TakeRun(0, 1), TakeRun(4, 2), TakeRun(1, 1));
  }
}
