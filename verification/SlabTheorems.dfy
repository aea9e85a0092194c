/** What kallocate and kfree promise their callers, call by call and over whole runs. */
module SlabTheorems {
  import opened Slabs
  import opened SlabRuns

  // ---------------------------------------------------------------- the block handed out

  /** First fit: the block holds the request and wastes at most one header; it is an
      old slab exactly when some slab fits. Of what the slab found has, the rest becomes a free
      slab behind the block exactly when it is more than a header. */
  lemma PlainBlock(s: seq<Slab>, n: nat, base: nat)
    ensures var r, k := AllocPlain(s, n, base), FirstFit(s, n);
      && k < |r|
      && !r[k].free
      && n <= r[k].size <= n + HEADER
      && (k < |s| <==> exists j :: 0 <= j < |s| && s[j].Fits(n))
      && r[k].addr == (if k < |s| then s[k].addr else base)
      && var size := if k < |s| then s[k].size else PagesFor(n) * PAGE - HEADER;
        if size <= n + HEADER then r[k].size == size && |r| == (if k < |s| then |s| else |s| + 1)
        else r[k].size == n && k + 1 < |r| && r[k + 1] == Slab(r[k].End(), size - n - HEADER, true)
  {
  }

  /** The block is page aligned whatever the tail looked like, and it can hold
      the request exactly when the request is whole pages: both branches round down.
      A block of a page or more lies in the pages acquired for it exactly when a tail
      with room ends where they start. */
  lemma AlignedBlock(s: seq<Slab>, n: nat, base: nat)
    requires Laid(Anywhere, s) && Placed(Anywhere, s, base)
    ensures var b := Last(AllocAligned(s, n, base));
      && !b.free
      && b.Payload() % PAGE == 0
      && b.size == n - n % PAGE
      && (n <= b.size <==> n % PAGE == 0)
      && (PAGE <= n ==>
        (base <= b.Payload() && b.End() <= base + AlignedPages(s, n) * PAGE <==>
         (TailHasRoom(s) ==> base == Last(s).End())))
  {
    AllocAlignedLaid(Anywhere, s, n, base);
    AlignedLast(s, n, base);
    var b := Last(AllocAligned(s, n, base));
    assert b.size == WholePages(n) * PAGE;
    assert Congruent(b.End(), 0);
  }

  lemma AlignedLast(s: seq<Slab>, n: nat, base: nat)
    requires 0 < |s|
    ensures Last(AllocAligned(s, n, base)) ==
      Slab((if TailHasRoom(s) then Last(s).End() else base + PAGE) - HEADER, WholePages(n) * PAGE, false)
  {
    if TailHasRoom(s) {
      SplitAt(s, |s| - 1, Last(s).size - HEADER);
    } else {
      SplitAt(Grow(s, base, WholePages(n) + 1), |s|, PAGE - 2 * HEADER);
    }
  }

  /** Page alignment over every run from init, with no assumption on where new pages lie. */
  lemma RunAligned(base0: nat, ops: seq<Op>, n: nat, base: nat)
    requires base0 % PAGE == 0 && base % PAGE == 0
    requires LegalRun(Anywhere, Fresh(base0), ops)
    ensures var s := Run(Anywhere, Fresh(base0), ops).slabs;
      0 < |s| && Last(AllocAligned(s, n, base)).Payload() % PAGE == 0
  {
    FreshSound(Anywhere, base0);
    RunSound(Anywhere, Fresh(base0), ops);
    AlignedBlock(Run(Anywhere, Fresh(base0), ops).slabs, n, base);
  }

  // ---------------------------------------------------------------- live blocks

  ghost predicate Live(s: seq<Slab>, b: Slab) { b in s && !b.free }

  lemma SplitLive(s: seq<Slab>, k: nat, n: nat, b: Slab)
    requires k < |s| && n + HEADER <= s[k].size && Live(s, b) && b != s[k]
    ensures Live(Split(s, k, n), b)
  {
    var i :| 0 <= i < |s| && s[i] == b;
    assert Split(s, k, n)[if i < k then i else i + 1] == b;
  }

  lemma MarkLive(s: seq<Slab>, k: nat, free: bool, b: Slab)
    requires k < |s| && Live(s, b) && b != s[k]
    ensures Live(Mark(s, k, free), b)
  {
    var i :| 0 <= i < |s| && s[i] == b;
    assert Mark(s, k, free)[i] == b;
  }

  lemma MergeLive(s: seq<Slab>, k: nat, b: Slab)
    requires k + 1 < |s| && Live(s, b) && b != s[k] && b != s[k + 1]
    ensures Live(Merge(s, k), b)
  {
    var i :| 0 <= i < |s| && s[i] == b;
    assert Merge(s, k)[if i < k then i else i - 1] == b;
  }

  lemma CarveLive(s: seq<Slab>, k: nat, n: nat, b: Slab)
    requires k < |s| && s[k].Fits(n) && Live(s, b)
    ensures Live(Carve(s, k, n), b)
  {
    if n + HEADER < s[k].size {
      SplitLive(s, k, n, b);
      MarkLive(Split(s, k, n), k, false, b);
    } else {
      MarkLive(s, k, false, b);
    }
  }

  lemma AlignedLive(s: seq<Slab>, n: nat, base: nat, b: Slab)
    requires 0 < |s| && Live(s, b)
    ensures Live(AllocAligned(s, n, base), b)
  {
    var p := WholePages(n);
    if TailHasRoom(s) {
      var t := Split(s, |s| - 1, Last(s).size - HEADER);
      SplitLive(s, |s| - 1, Last(s).size - HEADER, b);
      var i :| 0 <= i < |t| && t[i] == b;
      assert Last(t).free;
      assert AlignTail(s, p)[i] == b;
      assert AllocAligned(s, n, base)[i] == b;
    } else {
      var t := Grow(s, base, p + 1);
      assert Live(t, b);
      SplitLive(t, |s|, PAGE - 2 * HEADER, b);
      var r := AlignFresh(s, base, p);
      MarkLive(r, |r| - 1, false, b);
    }
  }

  lemma FreeLive(s: seq<Slab>, k: nat, b: Slab)
    requires k < |s| && Live(s, b) && b != s[k]
    ensures Live(FreeAt(s, k), b)
  {
    var m := Mark(s, k, true);
    MarkLive(s, k, true, b);
    if k + 1 < |m| && m[k + 1].free { MergeLive(m, k, b); }
    var r := JoinNext(m, k);
    if 0 < k && r[k - 1].free { MergeLive(r, k - 1, b); }
  }

  lemma StepLive(h: Heap, op: Op, b: Slab)
    requires Legal(Anywhere, h, op) && Live(h.slabs, b)
    requires op.Release? ==> h.slabs[op.k] != b
    ensures Live(Apply(h, op).slabs, b)
  {
    var s := h.slabs;
    match op
    case Plain(n, base) =>
      var k := FirstFit(s, n);
      if k < |s| {
        CarveLive(s, k, n, b);
      } else {
        assert Live(Grow(s, base, PagesFor(n)), b);
        CarveLive(Grow(s, base, PagesFor(n)), |s|, n, b);
      }
    case Aligned(n, base) => AlignedLive(s, n, base, b);
    case Release(k) => FreeLive(s, k, b);
  }

  /** No operation of the run frees block b. */
  predicate Keeps(g: Growth, h: Heap, ops: seq<Op>, b: Slab)
    requires LegalRun(g, h, ops)
    decreases |ops|
  {
    |ops| == 0 ||
    ((ops[0].Release? ==> h.slabs[ops[0].k] != b) && Keeps(g, Apply(h, ops[0]), ops[1..], b))
  }

  /** A block keeps its address and size until it is freed itself. */
  lemma {:induction false} RunLive(g: Growth, h: Heap, ops: seq<Op>, b: Slab)
    requires LegalRun(g, h, ops) && Live(h.slabs, b) && Keeps(g, h, ops, b)
    ensures Live(Run(g, h, ops).slabs, b)
    decreases |ops|
  {
    if |ops| != 0 {
      StepLive(h, ops[0], b);
      RunLive(g, Apply(h, ops[0]), ops[1..], b);
    }
  }

  /** With pages acquired in ascending order, two blocks of one list never overlap,
      headers included, over every run from init. */
  lemma RunDisjoint(g: Growth, base0: nat, ops: seq<Op>, a: Slab, b: Slab)
    requires g != Anywhere && base0 % PAGE == 0 && LegalRun(g, Fresh(base0), ops)
    requires a in Run(g, Fresh(base0), ops).slabs && b in Run(g, Fresh(base0), ops).slabs && a != b
    ensures a.End() <= b.addr || b.End() <= a.addr
  {
    FreshSound(g, base0);
    RunSound(g, Fresh(base0), ops);
    var s := Run(g, Fresh(base0), ops).slabs;
    var i :| 0 <= i < |s| && s[i] == a;
    var j :| 0 <= j < |s| && s[j] == b;
    ApartAt(s, i);
  }

  // ---------------------------------------------------------------- tiling

  lemma {:induction false} TiledFootprint(s: seq<Slab>)
    requires Tiled(s) && 0 < |s|
    ensures Last(s).End() == s[0].addr + Footprint(s)
  {
    if |s| > 1 {
      TiledFootprint(s[1..]);
    } else {
      assert s[1..] == [];
    }
  }

  /** Every byte between the first header and the tail's end lies in some slab. */
  lemma {:induction false} TiledCovers(s: seq<Slab>, a: nat) returns (i: nat)
    requires Tiled(s) && 0 < |s| && s[0].addr <= a < Last(s).End()
    ensures i < |s| && s[i].addr <= a < s[i].End()
  {
    if a < s[0].End() {
      i := 0;
    } else {
      var j := TiledCovers(s[1..], a);
      i := j + 1;
    }
  }

  lemma StepHead(h: Heap, op: Op)
    requires Legal(Anywhere, h, op)
    ensures var r := Apply(h, op).slabs; 0 < |r| && r[0].addr == h.slabs[0].addr
  {
    var s := h.slabs;
    match op
    case Plain(n, base) =>
      var k := FirstFit(s, n);
      var t := if k < |s| then s else Grow(s, base, PagesFor(n));
      if n + HEADER < t[k].size { SplitAt(t, k, n); }
    case Aligned(n, base) =>
      if TailHasRoom(s) {
        SplitAt(s, |s| - 1, Last(s).size - HEADER);
      } else {
        SplitAt(Grow(s, base, WholePages(n) + 1), |s|, PAGE - 2 * HEADER);
      }
    case Release(k) =>
      var m := Mark(s, k, true);
      if k + 1 < |m| && m[k + 1].free { MergeAt(m, k); }
      var r := JoinNext(m, k);
      if 0 < k && r[k - 1].free { MergeAt(r, k - 1); }
  }

  /** The head stays where init put it. */
  lemma {:induction false} RunHead(g: Growth, h: Heap, ops: seq<Op>)
    requires LegalRun(g, h, ops) && 0 < |h.slabs|
    ensures var r := Run(g, h, ops).slabs; 0 < |r| && r[0].addr == h.slabs[0].addr
    decreases |ops|
  {
    if |ops| != 0 {
      StepHead(h, ops[0]);
      RunHead(g, Apply(h, ops[0]), ops[1..]);
    }
  }

  /** With contiguous growth the slabs tile exactly the pages acquired, which start where init
      put the first: every byte of them lies in one slab and in no other. */
  lemma RunTiles(base0: nat, ops: seq<Op>, a: nat)
    requires base0 % PAGE == 0 && LegalRun(Contiguous, Fresh(base0), ops)
    requires base0 <= a < base0 + Run(Contiguous, Fresh(base0), ops).pages * PAGE
    ensures var s := Run(Contiguous, Fresh(base0), ops).slabs;
      && (exists i :: 0 <= i < |s| && s[i].addr <= a < s[i].End())
      && (forall i, j :: 0 <= i < j < |s| ==> !(s[i].addr <= a < s[i].End() && s[j].addr <= a < s[j].End()))
  {
    FreshSound(Contiguous, base0);
    RunSound(Contiguous, Fresh(base0), ops);
    RunHead(Contiguous, Fresh(base0), ops);
    var s := Run(Contiguous, Fresh(base0), ops).slabs;
    TiledFootprint(s);
    var i := TiledCovers(s, a);
    ApartAt(s, i);
  }

  /** The hypothesis is needed at every growth: the new run must start at the tail's end. */
  lemma GrowTiledExactly(s: seq<Slab>, base: nat, pages: nat)
    requires Tiled(s) && 0 < |s| && 0 < pages
    ensures Tiled(Grow(s, base, pages)) <==> base == Last(s).End()
  {
    var r := Grow(s, base, pages);
    assert r[|s| - 1] == Last(s) && r[|s|].addr == base;
    assert forall i {:trigger s[i]} :: 0 <= i < |s| ==> r[i] == s[i];
  }

  // ---------------------------------------------------------------- coalescing

  lemma PlainCoalesced(s: seq<Slab>, n: nat, base: nat)
    requires Coalesced(s)
    ensures Coalesced(AllocPlain(s, n, base))
  {
    var k := FirstFit(s, n);
    var t := if k < |s| then s else Grow(s, base, PagesFor(n));
    assert t[k].size >= n && AllocPlain(s, n, base) == Carve(t, k, n);
    assert forall i :: 0 <= i < k - 1 ==> !(t[i].free && t[i + 1].free);
    if n + HEADER < t[k].size { SplitAt(t, k, n); }
  }

  lemma FreeCoalesced(s: seq<Slab>, k: nat)
    requires Coalesced(s) && k < |s| && !s[k].free
    ensures Coalesced(FreeAt(s, k))
  {
    var m := Mark(s, k, true);
    var r := JoinNext(m, k);
    if k + 1 < |m| && m[k + 1].free { MergeAt(m, k); }
    if 0 < k && r[k - 1].free { MergeAt(r, k - 1); }
  }

  /** The aligned path leaves two free neighbours exactly when the tail is free but
      too small to give up a header. */
  lemma AlignedCoalescedExactly(s: seq<Slab>, n: nat, base: nat)
    requires Coalesced(s) && 0 < |s|
    ensures Coalesced(AllocAligned(s, n, base)) <==> !(Last(s).free && Last(s).size < HEADER)
  {
    var r := AllocAligned(s, n, base);
    if TailHasRoom(s) {
      SplitAt(s, |s| - 1, Last(s).size - HEADER);
    } else {
      var t := Grow(s, base, WholePages(n) + 1);
      SplitAt(t, |s|, PAGE - 2 * HEADER);
      assert r[|s| - 1].free == Last(s).free && r[|s|].free;
      assert forall i {:trigger r[i]} :: 0 <= i < |s| ==> r[i] == s[i];
    }
  }

  /** Over runs of plain kallocate and kfree from init no two neighbours are free. */
  lemma {:induction false} RunCoalesced(g: Growth, h: Heap, ops: seq<Op>)
    requires LegalRun(g, h, ops) && Coalesced(h.slabs)
    requires forall i :: 0 <= i < |ops| ==> !ops[i].Aligned?
    ensures Coalesced(Run(g, h, ops).slabs)
    decreases |ops|
  {
    if |ops| != 0 {
      match ops[0] {
        case Plain(n, base) => PlainCoalesced(h.slabs, n, base);
        case Release(k) => FreeCoalesced(h.slabs, k);
      }
      RunCoalesced(g, Apply(h, ops[0]), ops[1..]);
    }
  }

  // ---------------------------------------------------------------- allocate, then free

  lemma UndoSplit(t: seq<Slab>, k: nat, n: nat)
    requires k < |t| && t[k].free && n + HEADER <= t[k].size
    ensures Merge(Mark(Mark(Split(t, k, n), k, false), k, true), k) == t
  {
    SplitAt(t, k, n);
    var m := Mark(Mark(Split(t, k, n), k, false), k, true);
    assert m == Split(t, k, n);
    MergeAt(m, k);
  }

  /** The slabs that kfree merges are the neighbours the slab had before it was carved. */
  lemma FreeAfterCarve(t: seq<Slab>, k: nat, n: nat)
    requires k < |t| && t[k].Fits(n)
    ensures var whole := t[k].size <= n + HEADER;
      var x := if whole && k + 1 < |t| && t[k + 1].free then Merge(t, k) else t;
      FreeAt(Carve(t, k, n), k) == (if 0 < k && t[k - 1].free then Merge(x, k - 1) else x)
  {
    if n + HEADER < t[k].size {
      UndoSplit(t, k, n);
      SplitAt(t, k, n);
    } else {
      assert Mark(Mark(t, k, false), k, true) == t;
    }
  }

  /** kfree right after a plain kallocate that found a slab restores the list exactly
      when the slab has no free list neighbour that kfree would swallow with it; a
      split leaves the remainder as the only one. In a coalesced list that is always. */
  lemma AllocThenFree(s: seq<Slab>, n: nat, base: nat)
    requires FirstFit(s, n) < |s|
    ensures var k := FirstFit(s, n);
      FreeAt(AllocPlain(s, n, base), k) == s <==>
      && (0 < k ==> !s[k - 1].free)
      && (s[k].size <= n + HEADER && k + 1 < |s| ==> !s[k + 1].free)
    ensures Coalesced(s) ==> FreeAt(AllocPlain(s, n, base), FirstFit(s, n)) == s
  {
    var k := FirstFit(s, n);
    FreeAfterCarve(s, k, n);
  }

  /** When the allocation had to grow the heap, the free leaves the new pages as one
      free slab, coalesced into the tail if the tail was free. */
  lemma GrowThenFree(s: seq<Slab>, n: nat, base: nat)
    requires FirstFit(s, n) == |s| && 0 < |s|
    ensures var t := Grow(s, base, PagesFor(n));
      FreeAt(AllocPlain(s, n, base), |s|) == if Last(s).free then Merge(t, |s| - 1) else t
  {
    FreeAfterCarve(Grow(s, base, PagesFor(n)), |s|, n);
  }
}
