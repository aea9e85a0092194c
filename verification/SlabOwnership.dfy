/** Which memory the slabs cover, against the pages that were acquired for them. kfree and the
    aligned path add sizes without comparing addresses, so a slab can grow over memory that was
    never acquired; here is exactly when. */
module SlabOwnership {
  import opened Slabs
  import opened SlabRuns
  import opened SlabTheorems

  /** Addresses of memory acquired. */
  type Memory = iset<nat>

  predicate InRun(base: nat, pages: nat, p: nat) { base <= p < base + pages * PAGE }

  /** The bytes of a run of pages. */
  ghost function RunOf(base: nat, pages: nat): Memory { iset p: nat | InRun(base, pages, p) }

  /** Memory that an operation acquires. */
  ghost function NewMemory(s: seq<Slab>, op: Op): Memory
    requires 0 < |s|
  {
    match op
    case Plain(n, base) => RunOf(base, PlainPages(s, n))
    case Aligned(n, base) => RunOf(base, AlignedPages(s, n))
    case Release(_) => iset{}
  }

  /** Memory acquired by a run that starts with owned. */
  ghost function Acquired(g: Growth, h: Heap, ops: seq<Op>, owned: Memory): Memory
    requires LegalRun(g, h, ops)
    decreases |ops|
  {
    if |ops| == 0 then owned else Acquired(g, Apply(h, ops[0]), ops[1..], owned + NewMemory(h.slabs, ops[0]))
  }

  /** Byte p lies in a slab, header included. */
  ghost predicate Covers(s: seq<Slab>, p: nat) {
    exists i :: 0 <= i < |s| && s[i].addr <= p < s[i].End()
  }

  /** Below h the slabs cover exactly the pages acquired. */
  ghost predicate ExactBelow(s: seq<Slab>, owned: Memory, h: nat) {
    forall p: nat {:trigger Covers(s, p)} :: p < h ==> (Covers(s, p) <==> p in owned)
  }

  /** The slabs cover exactly the pages acquired. */
  ghost predicate Exact(s: seq<Slab>, owned: Memory) {
    forall p: nat {:trigger Covers(s, p)} :: Covers(s, p) <==> p in owned
  }

  /** h is the lowest byte that a slab covers and nobody acquired; nothing is amiss below. */
  ghost predicate Hole(s: seq<Slab>, owned: Memory, h: nat) {
    ExactBelow(s, owned, h) && Covers(s, h) && h !in owned
  }

  ghost predicate Holed(s: seq<Slab>, owned: Memory) { exists h: nat :: Hole(s, owned, h) }

  // ---------------------------------------------------------------- the moves

  lemma MarkCovers(s: seq<Slab>, k: nat, free: bool, p: nat)
    requires k < |s|
    ensures Covers(Mark(s, k, free), p) <==> Covers(s, p)
  {
    var r := Mark(s, k, free);
    assert forall i :: 0 <= i < |s| ==> r[i].addr == s[i].addr && r[i].End() == s[i].End();
  }

  lemma SplitCovers(s: seq<Slab>, k: nat, n: nat, p: nat)
    requires k < |s| && n + HEADER <= s[k].size
    ensures Covers(Split(s, k, n), p) <==> Covers(s, p)
  {
    var r := Split(s, k, n);
    SplitAt(s, k, n);
    if Covers(s, p) {
      var i :| 0 <= i < |s| && s[i].addr <= p < s[i].End();
      var j := if i < k || (i == k && p < r[k].End()) then i else i + 1;
      assert r[j].addr <= p < r[j].End();
    }
    if Covers(r, p) {
      var j :| 0 <= j < |r| && r[j].addr <= p < r[j].End();
      var i := if j <= k then j else j - 1;
      assert s[i].addr <= p < s[i].End();
    }
  }

  lemma SnocCovers(s: seq<Slab>, x: Slab, p: nat)
    ensures Covers(s + [x], p) <==> Covers(s, p) || x.addr <= p < x.End()
  {
    var r := s + [x];
    if Covers(s, p) {
      var i :| 0 <= i < |s| && s[i].addr <= p < s[i].End();
      assert r[i] == s[i];
    }
    assert r[|s|] == x;
  }

  lemma ExtendCovers(s: seq<Slab>, bytes: nat, p: nat)
    requires 0 < |s|
    ensures Covers(Extend(s, bytes), p) <==> Covers(s, p) || Last(s).End() <= p < Last(s).End() + bytes
  {
    var init := s[..|s| - 1];
    SnocCovers(init, Last(s), p);
    SnocCovers(init, Last(Extend(s, bytes)), p);
    assert s == init + [Last(s)] && Extend(s, bytes) == init + [Last(Extend(s, bytes))];
  }

  lemma MergeCoversOld(s: seq<Slab>, k: nat, p: nat)
    requires Apart(s) && k + 1 < |s| && Covers(s, p)
    ensures p < s[k].End() || s[k].End() == s[k + 1].addr ==> Covers(Merge(s, k), p)
    ensures p < s[k].End() || s[k + 1].addr <= p
  {
    var r := Merge(s, k);
    MergeAt(s, k);
    ApartAt(s, k);
    ApartAt(s, k + 1);
    var i :| 0 <= i < |s| && s[i].addr <= p < s[i].End();
    if i <= k {
      assert r[i].addr <= p < r[i].End();
    } else if i == k + 1 {
      assert s[k].End() == s[k + 1].addr ==> r[k].addr <= p < r[k].End();
    } else {
      assert r[i - 1] == s[i];
    }
  }

  lemma MergeCoversNew(s: seq<Slab>, k: nat, p: nat)
    requires Apart(s) && k + 1 < |s| && Covers(Merge(s, k), p)
    ensures p < s[k].End() || s[k].End() == s[k + 1].addr ==> Covers(s, p)
  {
    var r := Merge(s, k);
    MergeAt(s, k);
    ApartAt(s, k + 1);
    var j :| 0 <= j < |r| && r[j].addr <= p < r[j].End();
    if j < k {
      assert s[j] == r[j];
    } else if j == k {
      assert p < s[k].End() ==> s[k].addr <= p < s[k].End();
      assert s[k].End() <= p && s[k].End() == s[k + 1].addr ==> s[k + 1].addr <= p < s[k + 1].End();
    } else {
      assert s[j + 1] == r[j];
    }
  }

  /** A merge covers the start of a gap between the two slabs and loses as many bytes at the end;
      without a gap it covers what the two covered. */
  lemma MergeCovers(s: seq<Slab>, k: nat, p: nat)
    requires Apart(s) && k + 1 < |s|
    ensures s[k].End() <= s[k + 1].addr
    ensures s[k].End() == s[k + 1].addr || p < s[k].End() ==> (Covers(Merge(s, k), p) <==> Covers(s, p))
    ensures s[k].End() < s[k + 1].addr && p == s[k].End() ==> Covers(Merge(s, k), p) && !Covers(s, p)
  {
    var r := Merge(s, k);
    MergeAt(s, k);
    ApartAt(s, k);
    if Covers(s, p) { MergeCoversOld(s, k, p); }
    if Covers(r, p) { MergeCoversNew(s, k, p); }
    assert p == s[k].End() ==> r[k].addr <= p < r[k].End();
  }

  // ---------------------------------------------------------------- one merge

  /** A merge on its own memory keeps the slabs on the pages acquired; any other one opens a
      hole at the end of its first slab. */
  lemma MergeExact(s: seq<Slab>, owned: Memory, k: nat)
    requires Apart(s) && k + 1 < |s| && Exact(s, owned)
    ensures s[k].End() == s[k + 1].addr ==> Exact(Merge(s, k), owned)
    ensures s[k].End() != s[k + 1].addr ==> Hole(Merge(s, k), owned, s[k].End())
  {
    var r := Merge(s, k);
    MergeCovers(s, k, s[k].End());
    forall p: nat
      ensures s[k].End() == s[k + 1].addr || p < s[k].End() ==> (Covers(r, p) <==> p in owned)
    {
      MergeCovers(s, k, p);
      assert Covers(s, p) <==> p in owned;
    }
    assert Covers(s, s[k].End()) <==> s[k].End() in owned;
  }

  /** A hole stays, unless the merge opens one below it. */
  lemma MergeHole(s: seq<Slab>, owned: Memory, k: nat, h: nat) returns (h1: nat)
    requires Apart(s) && k + 1 < |s| && Hole(s, owned, h)
    ensures Hole(Merge(s, k), owned, h1)
  {
    var r, e := Merge(s, k), s[k].End();
    MergeCovers(s, k, e);
    MergeCovers(s, k, h);
    h1 := if e < s[k + 1].addr && e < h then e else h;
    forall p: nat | p < h1
      ensures Covers(r, p) <==> p in owned
    {
      MergeCovers(s, k, p);
      assert Covers(s, p) <==> p in owned;
    }
    assert Covers(s, h1) <==> h1 == h || h1 in owned;
  }

  // ---------------------------------------------------------------- kfree

  /** No free list neighbour that kfree joins with slab k lies apart from it. */
  predicate FreeSnug(s: seq<Slab>, k: nat)
    requires k < |s|
  {
    && (k + 1 < |s| && s[k + 1].free ==> s[k].End() == s[k + 1].addr)
    && (0 < k && s[k - 1].free ==> s[k - 1].End() == s[k].addr)
  }

  lemma MarkExact(s: seq<Slab>, owned: Memory, k: nat, free: bool)
    requires k < |s|
    ensures Exact(s, owned) ==> Exact(Mark(s, k, free), owned)
    ensures forall h: nat :: Hole(s, owned, h) ==> Hole(Mark(s, k, free), owned, h)
  {
    forall p: nat
      ensures Covers(Mark(s, k, free), p) <==> Covers(s, p)
    {
      MarkCovers(s, k, free, p);
    }
  }

  /** kfree, step by step: the list after marking and the list after the first join. */
  lemma FreeSteps(s: seq<Slab>, k: nat)
    requires Apart(s) && k < |s|
    ensures var m := Mark(s, k, true);
      var r := JoinNext(m, k);
      && Apart(m) && Apart(r) && k < |r| && FreeAt(s, k) == JoinPrevious(r, k)
      && r == (if k + 1 < |s| && s[k + 1].free then Merge(m, k) else m)
      && r[k].addr == s[k].addr && (0 < k ==> r[k - 1] == s[k - 1])
  {
    var m := Mark(s, k, true);
    MarkApart(s, k, true);
    if k + 1 < |m| && m[k + 1].free {
      MergeApart(m, k);
      MergeAt(m, k);
    }
  }

  /** kfree keeps the slabs on the memory acquired exactly when it joins nothing across a hole. */
  lemma FreeExactly(s: seq<Slab>, owned: Memory, k: nat)
    requires Apart(s) && k < |s| && Exact(s, owned)
    ensures FreeSnug(s, k) ==> Exact(FreeAt(s, k), owned)
    ensures !FreeSnug(s, k) ==> Holed(FreeAt(s, k), owned)
  {
    FreeSteps(s, k);
    MarkExact(s, owned, k, true);
    var m := Mark(s, k, true);
    var r := JoinNext(m, k);
    if r != m {
      MergeExact(m, owned, k);
    }
    if 0 < k && s[k - 1].free {
      if Exact(r, owned) {
        MergeExact(r, owned, k - 1);
      } else {
        var h := MergeHole(r, owned, k - 1, s[k].End());
      }
    }
  }

  lemma FreeHole(s: seq<Slab>, owned: Memory, k: nat, h: nat) returns (h1: nat)
    requires Apart(s) && k < |s| && Hole(s, owned, h)
    ensures Hole(FreeAt(s, k), owned, h1)
  {
    FreeSteps(s, k);
    MarkExact(s, owned, k, true);
    var m := Mark(s, k, true);
    var r := JoinNext(m, k);
    h1 := h;
    if r != m {
      h1 := MergeHole(m, owned, k, h1);
    }
    if 0 < k && s[k - 1].free {
      h1 := MergeHole(r, owned, k - 1, h1);
    }
  }

  /** The same without a ledger: the slabs after kfree cover only bytes they covered before
      exactly when nothing is joined across a hole. */
  lemma FreeWithin(s: seq<Slab>, k: nat)
    requires Apart(s) && k < |s|
    ensures (forall p: nat :: Covers(FreeAt(s, k), p) ==> Covers(s, p)) <==> FreeSnug(s, k)
  {
    FreeExactly(s, (iset p: nat | Covers(s, p)), k);
  }

  // ---------------------------------------------------------------- kallocate

  lemma CarveCovers(s: seq<Slab>, k: nat, n: nat, p: nat)
    requires k < |s| && n <= s[k].size
    ensures Covers(Carve(s, k, n), p) <==> Covers(s, p)
  {
    if n + HEADER < s[k].size {
      SplitCovers(s, k, n, p);
      MarkCovers(Split(s, k, n), k, false, p);
    } else {
      MarkCovers(s, k, false, p);
    }
  }

  lemma GrowCovers(s: seq<Slab>, base: nat, pages: nat, p: nat)
    requires 0 < pages
    ensures Covers(Grow(s, base, pages), p) <==> Covers(s, p) || InRun(base, pages, p)
  {
    SnocCovers(s, Slab(base, pages * PAGE - HEADER, true), p);
  }

  lemma PlainCovers(s: seq<Slab>, n: nat, base: nat, p: nat)
    ensures Covers(AllocPlain(s, n, base), p) <==> Covers(s, p) || InRun(base, PlainPages(s, n), p)
  {
    var k := FirstFit(s, n);
    if k < |s| {
      CarveCovers(s, k, n, p);
    } else {
      GrowCovers(s, base, PagesFor(n), p);
      CarveCovers(Grow(s, base, PagesFor(n)), k, n, p);
    }
  }

  /** Where the new bytes of an aligned allocation lie: behind a tail with room, whatever base. */
  function AlignedStart(s: seq<Slab>, base: nat): nat
    requires 0 < |s|
  {
    if TailHasRoom(s) then Last(s).End() else base
  }

  lemma AlignedCovers(s: seq<Slab>, n: nat, base: nat, p: nat)
    requires 0 < |s|
    ensures Covers(AllocAligned(s, n, base), p) <==> Covers(s, p) || InRun(AlignedStart(s, base), AlignedPages(s, n), p)
  {
    var w := WholePages(n);
    if TailHasRoom(s) {
      var t := Split(s, |s| - 1, Last(s).size - HEADER);
      SplitAt(s, |s| - 1, Last(s).size - HEADER);
      SplitCovers(s, |s| - 1, Last(s).size - HEADER, p);
      ExtendCovers(t, w * PAGE, p);
      MarkCovers(AlignTail(s, w), |s|, false, p);
    } else {
      var t := Grow(s, base, w + 1);
      GrowCovers(s, base, w + 1, p);
      SplitCovers(t, |s|, PAGE - 2 * HEADER, p);
      MarkCovers(AlignFresh(s, base, w), |s| + 1, false, p);
    }
  }

  lemma CoveredBelowEnd(s: seq<Slab>, p: nat)
    requires Apart(s) && 0 < |s| && Covers(s, p)
    ensures p < Last(s).End()
  {
    var i :| 0 <= i < |s| && s[i].addr <= p < s[i].End();
    ApartAt(s, |s| - 1);
  }

  // ---------------------------------------------------------------- one operation

  /** What decides whether the operation stays on the memory acquired: kfree joins nothing across
      a hole, and the aligned path uses a tail with room only where its new pages follow it. */
  predicate Snug(h: Heap, op: Op)
    requires Legal(Anywhere, h, op)
  {
    match op
    case Plain(_, _) => true
    case Aligned(n, base) => PAGE <= n && TailHasRoom(h.slabs) ==> base == Last(h.slabs).End()
    case Release(k) => FreeSnug(h.slabs, k)
  }

  lemma PlainExact(s: seq<Slab>, owned: Memory, n: nat, base: nat)
    requires Exact(s, owned)
    ensures Exact(AllocPlain(s, n, base), owned + RunOf(base, PlainPages(s, n)))
  {
    forall p: nat
      ensures Covers(AllocPlain(s, n, base), p) <==> p in owned + RunOf(base, PlainPages(s, n))
    {
      PlainCovers(s, n, base, p);
      assert Covers(s, p) <==> p in owned;
    }
  }

  lemma AlignedExactly(s: seq<Slab>, owned: Memory, n: nat, base: nat)
    requires Apart(s) && 0 < |s| && Last(s).End() <= base && Exact(s, owned)
    ensures var r, o := AllocAligned(s, n, base), owned + RunOf(base, AlignedPages(s, n));
      if PAGE <= n && TailHasRoom(s) && base != Last(s).End() then Hole(r, o, Last(s).End()) else Exact(r, o)
  {
    var r, o := AllocAligned(s, n, base), owned + RunOf(base, AlignedPages(s, n));
    var e := Last(s).End();
    forall p: nat
      ensures Covers(r, p) <==> Covers(s, p) || InRun(AlignedStart(s, base), AlignedPages(s, n), p)
      ensures p in o <==> Covers(s, p) || InRun(base, AlignedPages(s, n), p)
    {
      AlignedCovers(s, n, base, p);
      assert Covers(s, p) <==> p in owned;
    }
    assert InRun(e, AlignedPages(s, n), e) <==> 0 < AlignedPages(s, n);
    if Covers(s, e) { CoveredBelowEnd(s, e); }
  }

  /** One operation keeps the slabs on the memory acquired if and only if it is snug. */
  lemma StepExactly(h: Heap, owned: Memory, op: Op)
    requires Sound(Ascending, h) && Legal(Ascending, h, op) && Exact(h.slabs, owned)
    ensures var r, o := Apply(h, op).slabs, owned + NewMemory(h.slabs, op);
      if Snug(h, op) then Exact(r, o) else Holed(r, o)
  {
    match op
    case Plain(n, base) => PlainExact(h.slabs, owned, n, base);
    case Aligned(n, base) =>
      AlignedExactly(h.slabs, owned, n, base);
      assert !Snug(h, op) ==> Hole(AllocAligned(h.slabs, n, base), owned + NewMemory(h.slabs, op), Last(h.slabs).End());
    case Release(k) =>
      FreeExactly(h.slabs, owned, k);
      assert owned + iset{} == owned;
  }

  /** Growth behind a hole does not reach it. */
  lemma GrowthHole(s: seq<Slab>, r: seq<Slab>, owned: Memory, start: nat, base: nat, pages: nat, h: nat)
    requires Apart(s) && 0 < |s| && Hole(s, owned, h)
    requires Last(s).End() <= start && Last(s).End() <= base
    requires forall p: nat :: Covers(r, p) <==> Covers(s, p) || InRun(start, pages, p)
    ensures Hole(r, owned + RunOf(base, pages), h)
  {
    CoveredBelowEnd(s, h);
    forall p: nat | p <= h
      ensures Covers(r, p) <==> Covers(s, p)
      ensures p in owned + RunOf(base, pages) <==> p in owned
    {
      assert !InRun(start, pages, p) && !InRun(base, pages, p);
    }
  }

  /** Once there is a hole no later operation repairs it. */
  lemma StepHole(h: Heap, owned: Memory, op: Op, e: nat) returns (e1: nat)
    requires Sound(Ascending, h) && Legal(Ascending, h, op) && Hole(h.slabs, owned, e)
    ensures Hole(Apply(h, op).slabs, owned + NewMemory(h.slabs, op), e1)
  {
    var s := h.slabs;
    e1 := e;
    match op
    case Plain(n, base) =>
      forall p: nat
        ensures Covers(AllocPlain(s, n, base), p) <==> Covers(s, p) || InRun(base, PlainPages(s, n), p)
      {
        PlainCovers(s, n, base, p);
      }
      GrowthHole(s, AllocPlain(s, n, base), owned, base, base, PlainPages(s, n), e);
    case Aligned(n, base) =>
      forall p: nat
        ensures Covers(AllocAligned(s, n, base), p) <==>
          Covers(s, p) || InRun(AlignedStart(s, base), AlignedPages(s, n), p)
      {
        AlignedCovers(s, n, base, p);
      }
      GrowthHole(s, AllocAligned(s, n, base), owned, AlignedStart(s, base), base, AlignedPages(s, n), e);
    case Release(k) =>
      e1 := FreeHole(s, owned, k, e);
      assert owned + iset{} == owned;
  }

  // ---------------------------------------------------------------- whole runs

  predicate AllSnug(g: Growth, h: Heap, ops: seq<Op>)
    requires LegalRun(g, h, ops)
    decreases |ops|
  {
    |ops| == 0 || (Snug(h, ops[0]) && AllSnug(g, Apply(h, ops[0]), ops[1..]))
  }

  lemma {:induction false} RunHole(h: Heap, owned: Memory, ops: seq<Op>, e: nat) returns (e1: nat)
    requires Sound(Ascending, h) && LegalRun(Ascending, h, ops) && Hole(h.slabs, owned, e)
    ensures Hole(Run(Ascending, h, ops).slabs, Acquired(Ascending, h, ops, owned), e1)
    decreases |ops|
  {
    e1 := e;
    if |ops| != 0 {
      StepSound(Ascending, h, ops[0]);
      e1 := StepHole(h, owned, ops[0], e);
      e1 := RunHole(Apply(h, ops[0]), owned + NewMemory(h.slabs, ops[0]), ops[1..], e1);
    }
  }

  lemma {:induction false} RunSnug(h: Heap, owned: Memory, ops: seq<Op>)
    requires Sound(Ascending, h) && LegalRun(Ascending, h, ops) && AllSnug(Ascending, h, ops) && Exact(h.slabs, owned)
    ensures Exact(Run(Ascending, h, ops).slabs, Acquired(Ascending, h, ops, owned))
    decreases |ops|
  {
    if |ops| != 0 {
      StepSound(Ascending, h, ops[0]);
      StepExactly(h, owned, ops[0]);
      RunSnug(Apply(h, ops[0]), owned + NewMemory(h.slabs, ops[0]), ops[1..]);
    }
  }

  /** After a run the slabs cover exactly the memory acquired if every step was snug; otherwise
      some slab covers a byte that was never acquired. */
  lemma {:induction false} RunNotSnug(h: Heap, owned: Memory, ops: seq<Op>)
    requires Sound(Ascending, h) && LegalRun(Ascending, h, ops) && !AllSnug(Ascending, h, ops) && Exact(h.slabs, owned)
    ensures Holed(Run(Ascending, h, ops).slabs, Acquired(Ascending, h, ops, owned))
    decreases |ops|
  {
    var h1, o1 := Apply(h, ops[0]), owned + NewMemory(h.slabs, ops[0]);
    StepSound(Ascending, h, ops[0]);
    StepExactly(h, owned, ops[0]);
    if Snug(h, ops[0]) {
      RunNotSnug(h1, o1, ops[1..]);
    } else {
      var e: nat :| Hole(h1.slabs, o1, e);
      var e1 := RunHole(h1, o1, ops[1..], e);
      assert Hole(Run(Ascending, h1, ops[1..]).slabs, Acquired(Ascending, h1, ops[1..], o1), e1);
    }
  }

  lemma FreshExact(base0: nat)
    ensures Exact(Fresh(base0).slabs, RunOf(base0, 1))
  {
    forall p: nat
      ensures Covers(Fresh(base0).slabs, p) <==> InRun(base0, 1, p)
    {
      SnocCovers([], Slab(base0, PAGE - HEADER, true), p);
    }
  }

  /** Every slab covers only memory acquired. */
  ghost predicate Contained(s: seq<Slab>, owned: Memory) {
    forall p: nat {:trigger Covers(s, p)} :: Covers(s, p) ==> p in owned
  }

  lemma HoledOutside(s: seq<Slab>, owned: Memory)
    requires Holed(s, owned)
    ensures !Contained(s, owned)
  {
    var e: nat :| Hole(s, owned, e);
    assert Covers(s, e);
  }

  /** From init and with ascending growth: every slab covers only memory that was acquired if
      and only if every step of the run was snug. */
  lemma RunOwned(base0: nat, ops: seq<Op>)
    requires base0 % PAGE == 0 && LegalRun(Ascending, Fresh(base0), ops)
    ensures var r := Run(Ascending, Fresh(base0), ops).slabs;
      var o := Acquired(Ascending, Fresh(base0), ops, RunOf(base0, 1));
      Contained(r, o) <==> AllSnug(Ascending, Fresh(base0), ops)
  {
    FreshSound(Ascending, base0);
    FreshExact(base0);
    if AllSnug(Ascending, Fresh(base0), ops) {
      RunSnug(Fresh(base0), RunOf(base0, 1), ops);
    } else {
      RunNotSnug(Fresh(base0), RunOf(base0, 1), ops);
      HoledOutside(Run(Ascending, Fresh(base0), ops).slabs, Acquired(Ascending, Fresh(base0), ops, RunOf(base0, 1)));
    }
  }

  lemma StepSnug(h: Heap, op: Op)
    requires Sound(Contiguous, h) && Legal(Contiguous, h, op)
    ensures Legal(Ascending, h, op) && Snug(h, op)
  {
  }

  /** With contiguous growth every step is snug. */
  lemma {:induction false} ContiguousSnug(h: Heap, ops: seq<Op>)
    requires Sound(Contiguous, h) && LegalRun(Contiguous, h, ops)
    ensures LegalRun(Ascending, h, ops) && AllSnug(Ascending, h, ops)
    ensures Run(Ascending, h, ops) == Run(Contiguous, h, ops)
    decreases |ops|
  {
    if |ops| != 0 {
      StepSound(Contiguous, h, ops[0]);
      StepSnug(h, ops[0]);
      ContiguousSnug(Apply(h, ops[0]), ops[1..]);
    }
  }

  // ---------------------------------------------------------------- what goes wrong otherwise

  /** kfree across a hole. Pages 0 and 2 from b on are acquired in ascending order and each holds
      a block; both are freed, and one free slab covers page 1. */
  lemma HoleSwallowed(b: nat)
    requires 0 < b && b % PAGE == 0
    ensures var s := AllocPlain(AllocPlain(Fresh(b).slabs, 4064, b + PAGE), 4064, b + 2 * PAGE);
      && s == [Slab(b, 4064, false), Slab(b + 2 * PAGE, 4064, false)]
      && Placed(Ascending, [Slab(b, 4064, false)], b + 2 * PAGE)
      && FreeSnug(s, 0) && !FreeSnug(FreeAt(s, 0), 1)
      && FreeAt(FreeAt(s, 0), 1) == [Slab(b, 8160, true)]
  {
    var s0 := Fresh(b).slabs;
    var s1 := AllocPlain(s0, 4064, b + PAGE);
    assert s1 == [Slab(b, 4064, false)];
    PlainBlock(s1, 4064, b + 2 * PAGE);
    assert FirstFit(s1, 4064) == 1;
    assert PagesFor(4064) == 1;
  }

  /** The aligned path over a hole: with pages 0 and 2 acquired the block lies in page 1. */
  lemma AlignedInHole(b: nat)
    requires 0 < b && b % PAGE == 0
    ensures var s := Fresh(b).slabs;
      && Placed(Ascending, s, b + 2 * PAGE) && TailHasRoom(s) && AlignedPages(s, PAGE) == 1
      && AllocAligned(s, PAGE, b + 2 * PAGE) == [Slab(b, 4032, true), Slab(b + 4064, PAGE, false)]
      && Slab(b + 4064, PAGE, false).Payload() == b + PAGE
  {
    var s := Fresh(b).slabs;
    assert Split(s, 0, 4032) == [Slab(b, 4032, true), Slab(b + 4064, 0, true)];
  }

  /** Freed, that block lets a plain request put a header into page 1. */
  lemma HeaderInHole(b: nat)
    requires 0 < b && b % PAGE == 0
    ensures var s := FreeAt([Slab(b, 4032, true), Slab(b + 4064, PAGE, false)], 1);
      && s == [Slab(b, 8160, true)]
      && AllocPlain(s, 5000, b + 3 * PAGE) == [Slab(b, 5000, false), Slab(b + 5032, 3128, true)]
      && b + PAGE <= b + 5032 && b + 5032 + HEADER <= b + 2 * PAGE
  {
    var s := FreeAt([Slab(b, 4032, true), Slab(b + 4064, PAGE, false)], 1);
    assert s == [Slab(b, 8160, true)];
    assert FirstFit(s, 5000) == 0;
  }
}
