/** What the contiguous search answers: when the run it returns is free as a whole, and when it
    lies in the bitmap. */
module FrameAnswer {
  import opened FrameSearch

  /** The search vouches for every run it returns exactly when the request is for at most nine
      frames; a run of ten from bit 7 on has a last frame that nobody looked at. */
  lemma AnswerFreeExactly(num: nat)
    ensures
      (forall u, n: nat, f: nat ::
        FirstCandidate(u, n, f, num) && f + num <= |u| && Reach(u, f, num) ==> RunFree(u, f, num))
      <==> num <= 9
  {
    if num <= 9 {
      forall u, n: nat, f: nat | FirstCandidate(u, n, f, num) && f + num <= |u| && Reach(u, f, num)
        ensures RunFree(u, f, num)
      {
        CandidateExactly(u, f, num);
        assert (f % 8 + num + 1) / 9 <= 1;
      }
    } else {
      // Frames 7 to the last one that the walk from bit 7 looks at are free, all others in use.
      var n := Inspected(7, num);
      var u := SetRun(seq(8 * (num + 2), _ => true), 7, n, false);
      CandidateExactly(u, 7, num);
      assert u[7 + n];
      forall g | 0 <= g < 7
        ensures !Candidate(u, g, num)
      {
        CandidateExactly(u, g, num);
        assert u[g];
      }
      assert FirstCandidate(u, 8, 7, num) && Reach(u, 7, num);
    }
  }

  // ---------------------------------------------------------------- the end of the bitmap

  /** The bitmap's own part of the walk from frame f is free. */
  predicate Open(u: seq<bool>, f: nat, num: nat) {
    f < |u| && forall i :: f <= i < f + Inspected(f % 8, num) && i < |u| ==> !u[i]
  }

  predicate FirstOpen(u: seq<bool>, f: nat, num: nat) {
    Open(u, f, num) && forall g :: 0 <= g < f ==> !Open(u, g, num)
  }

  /** The memory behind bitmap u is large enough for the walk. */
  predicate Behind(u: seq<bool>, rest: seq<bool>, num: nat) {
    |u| % 8 == 0 && 8 * (num / 8 + 1) <= |rest|
  }

  /** A later walk ends no earlier. */
  lemma InspectedMonotone(g: nat, f: nat, num: nat)
    requires g <= f
    ensures g + Inspected(g % 8, num) <= f + Inspected(f % 8, num)
  {
    var e := g + Inspected(g % 8, num) - 1;
    if f <= e {
      InspectedExactly(g, num, e - g);
      InspectedExactly(f, num, e - f);
    } else {
      InspectedExactly(f, num, 0);
    }
  }

  /** What a later successful walk finds behind the bitmap is free for an earlier one too. */
  lemma OpenBefore(u: seq<bool>, rest: seq<bool>, g: nat, f: nat, num: nat)
    requires Behind(u, rest, num) && g < f < |u| && Open(u, g, num)
    requires RunFree(u + rest, f, Inspected(f % 8, num))
    ensures RunFree(u + rest, g, Inspected(g % 8, num))
  {
    InspectedMonotone(g, f, num);
  }

  /** Whatever lies behind the bitmap, the answer is the first open frame, or there is none. */
  lemma AnswerIsFirstOpen(u: seq<bool>, rest: seq<bool>, f: nat, num: nat)
    requires Behind(u, rest, num) && FirstCandidate(u + rest, |u|, f, num)
    ensures FirstOpen(u, f, num)
  {
    var m := u + rest;
    ReachAll(m, |u| / 8, f, num);
    CandidateExactly(m, f, num);
    assert forall i :: 0 <= i < |u| ==> m[i] == u[i];
    forall g | 0 <= g < f
      ensures !Open(u, g, num)
    {
      ReachAll(m, |u| / 8, g, num);
      CandidateExactly(m, g, num);
      if Open(u, g, num) {
        OpenBefore(u, rest, g, f, num);
        assert false;
      }
    }
  }

  lemma AnswerOf(u: seq<bool>, bytes: nat, f: nat, num: nat)
    requires 8 * (bytes + num / 8 + 1) <= |u| && FirstCandidate(u, 8 * bytes, f, num)
    ensures FirstOpen(u[..8 * bytes], f, num)
  {
    assert u == u[..8 * bytes] + u[8 * bytes..];
    AnswerIsFirstOpen(u[..8 * bytes], u[8 * bytes..], f, num);
  }

  /** With free memory behind the bitmap the first open frame is the answer. */
  lemma FirstOpenAnswered(u: seq<bool>, rest: seq<bool>, f: nat, num: nat)
    requires Behind(u, rest, num) && FirstOpen(u, f, num) && forall i :: 0 <= i < |rest| ==> !rest[i]
    ensures FirstCandidate(u + rest, |u|, f, num)
  {
    var m := u + rest;
    forall g | 0 <= g <= f
      ensures Candidate(m, g, num) <==> Open(u, g, num)
    {
      ReachAll(m, |u| / 8, g, num);
      CandidateExactly(m, g, num);
      InspectedInMemory(m, g, num);
      assert forall i :: 0 <= i < |u| ==> m[i] == u[i];
      assert forall i :: |u| <= i < |m| ==> !m[i];
    }
  }

  /** The run returned lies in the bitmap, whatever lies behind it, exactly when the first open
      frame is at least num frames before the bitmap's end. */
  lemma AnswerInsideExactly(u: seq<bool>, num: nat)
    requires |u| % 8 == 0
    ensures
      (forall rest, f: nat :: Behind(u, rest, num) && FirstCandidate(u + rest, |u|, f, num) ==> f + num <= |u|)
      <==> (forall f: nat :: FirstOpen(u, f, num) ==> f + num <= |u|)
  {
    if forall f: nat :: FirstOpen(u, f, num) ==> f + num <= |u| {
      forall rest, f: nat | Behind(u, rest, num) && FirstCandidate(u + rest, |u|, f, num)
        ensures f + num <= |u|
      {
        AnswerIsFirstOpen(u, rest, f, num);
      }
    } else {
      var f: nat :| FirstOpen(u, f, num) && f + num > |u|;
      var rest := seq(8 * (num / 8 + 1), _ => false);
      FirstOpenAnswered(u, rest, f, num);
      assert Behind(u, rest, num);
    }
  }

  /** The condition fails: one bitmap byte with bit 7 free, two free bytes behind, and the
      search answers nine frames of a bitmap of eight, although 7 + 9 <= 16. */
  lemma AnswerLeavesBitmap()
    ensures FirstCandidate(seq(8, i => i < 7) + seq(16, _ => false), 8, 7, 9)
  {
    var u, rest := seq(8, i => i < 7), seq(16, _ => false);
    assert Inspected(7, 9) == 9 && Open(u, 7, 9);
    forall g | 0 <= g < 7
      ensures !Open(u, g, 9)
    {
      assert u[g];
    }
    FirstOpenAnswered(u, rest, 7, 9);
  }

  /** With the bitmap's last bit in use, as padding bits are, a run of up to nine frames stays inside. */
  lemma AnswerInside(u: seq<bool>, n: nat, f: nat, num: nat)
    requires FirstCandidate(u, n, f, num) && Reach(u, f, num)
    requires 0 < n <= |u| && u[n - 1] && num <= 9
    ensures f + num <= n
  {
    CandidateExactly(u, f, num);
    assert (f % 8 + num + 1) / 9 <= 1;
  }
}
