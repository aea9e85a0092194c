/** Whole runs of kallocate and kfree over the slab list. */
module SlabRuns {
  import opened Slabs

  /** What is known about the address of each new page run: only that it is page
      aligned, that it lies behind the tail, or that it starts where the tail ends. */
  datatype Growth = Anywhere | Ascending | Contiguous

  predicate Placed(g: Growth, s: seq<Slab>, base: nat)
    requires 0 < |s|
  {
    && base % PAGE == 0
    && (g != Anywhere ==> Last(s).End() <= base)
    && (g == Contiguous ==> Last(s).End() == base)
  }

  ghost predicate Laid(g: Growth, s: seq<Slab>) {
    && 0 < |s|
    && Paged(s)
    && (g != Anywhere ==> Apart(s))
    && (g == Contiguous ==> Tiled(s))
  }

  lemma MarkLaid(g: Growth, s: seq<Slab>, k: nat, free: bool)
    requires Laid(g, s) && k < |s|
    ensures Laid(g, Mark(s, k, free)) && Footprint(Mark(s, k, free)) == Footprint(s)
  {
    MarkFootprint(s, k, free);
    MarkPaged(s, k, free);
    if g != Anywhere { MarkApart(s, k, free); }
    if g == Contiguous { MarkTiled(s, k, free); }
  }

  lemma SplitLaid(g: Growth, s: seq<Slab>, k: nat, n: nat)
    requires Laid(g, s) && k < |s| && n + HEADER <= s[k].size
    ensures Laid(g, Split(s, k, n)) && Footprint(Split(s, k, n)) == Footprint(s)
  {
    SplitFootprint(s, k, n);
    SplitPaged(s, k, n);
    if g != Anywhere { SplitApart(s, k, n); }
    if g == Contiguous { SplitTiled(s, k, n); }
  }

  lemma MergeLaid(g: Growth, s: seq<Slab>, k: nat)
    requires Laid(g, s) && k + 1 < |s|
    ensures Laid(g, Merge(s, k)) && Footprint(Merge(s, k)) == Footprint(s)
  {
    MergeFootprint(s, k);
    MergePaged(s, k);
    if g != Anywhere { MergeApart(s, k); }
    if g == Contiguous { MergeTiled(s, k); }
  }

  lemma GrowLaid(g: Growth, s: seq<Slab>, base: nat, pages: nat)
    requires Laid(g, s) && 0 < pages && Placed(g, s, base)
    ensures Laid(g, Grow(s, base, pages))
    ensures Footprint(Grow(s, base, pages)) == Footprint(s) + pages * PAGE
  {
    GrowFootprint(s, base, pages);
    assert Congruent(base, 0);
    GrowPaged(s, base, pages);
    if g != Anywhere { GrowApart(s, Slab(base, pages * PAGE - HEADER, true)); }
  }

  lemma ExtendLaid(g: Growth, s: seq<Slab>, pages: nat)
    requires Laid(g, s)
    ensures Laid(g, Extend(s, pages * PAGE))
    ensures Footprint(Extend(s, pages * PAGE)) == Footprint(s) + pages * PAGE
  {
    ExtendFootprint(s, pages * PAGE);
    ExtendPaged(s, pages);
    if g != Anywhere { ResizeApart(s, Last(s).size + pages * PAGE); }
  }

  // ---------------------------------------------------------------- operations keep the layout

  lemma CarveLaid(g: Growth, s: seq<Slab>, k: nat, n: nat)
    requires Laid(g, s) && k < |s| && n <= s[k].size
    ensures Laid(g, Carve(s, k, n)) && Footprint(Carve(s, k, n)) == Footprint(s)
  {
    if n + HEADER < s[k].size {
      SplitLaid(g, s, k, n);
      MarkLaid(g, Split(s, k, n), k, false);
    } else {
      MarkLaid(g, s, k, false);
    }
  }

  /** Pages that kallocate asks the frame allocator for. */
  function PlainPages(s: seq<Slab>, n: nat): nat {
    if FirstFit(s, n) < |s| then 0 else PagesFor(n)
  }

  function AlignedPages(s: seq<Slab>, n: nat): nat
    requires 0 < |s|
  {
    if TailHasRoom(s) then WholePages(n) else WholePages(n) + 1
  }

  lemma AllocPlainLaid(g: Growth, s: seq<Slab>, n: nat, base: nat)
    requires Laid(g, s) && Placed(g, s, base)
    ensures Laid(g, AllocPlain(s, n, base))
    ensures Footprint(AllocPlain(s, n, base)) == Footprint(s) + PlainPages(s, n) * PAGE
  {
    var k := FirstFit(s, n);
    if k < |s| {
      CarveLaid(g, s, k, n);
    } else {
      GrowLaid(g, s, base, PagesFor(n));
      CarveLaid(g, Grow(s, base, PagesFor(n)), |s|, n);
    }
  }

  lemma AlignTailLaid(g: Growth, s: seq<Slab>, pages: nat)
    requires Laid(g, s) && TailHasRoom(s)
    ensures Laid(g, AlignTail(s, pages))
    ensures Footprint(AlignTail(s, pages)) == Footprint(s) + pages * PAGE
  {
    SplitLaid(g, s, |s| - 1, Last(s).size - HEADER);
    ExtendLaid(g, Split(s, |s| - 1, Last(s).size - HEADER), pages);
  }

  lemma AlignFreshLaid(g: Growth, s: seq<Slab>, base: nat, pages: nat)
    requires Laid(g, s) && Placed(g, s, base)
    ensures Laid(g, AlignFresh(s, base, pages))
    ensures Footprint(AlignFresh(s, base, pages)) == Footprint(s) + (pages + 1) * PAGE
  {
    GrowLaid(g, s, base, pages + 1);
    SplitLaid(g, Grow(s, base, pages + 1), |s|, PAGE - 2 * HEADER);
  }

  lemma AllocAlignedLaid(g: Growth, s: seq<Slab>, n: nat, base: nat)
    requires Laid(g, s) && Placed(g, s, base)
    ensures Laid(g, AllocAligned(s, n, base))
    ensures Footprint(AllocAligned(s, n, base)) == Footprint(s) + AlignedPages(s, n) * PAGE
  {
    if TailHasRoom(s) {
      var r := AlignTail(s, WholePages(n));
      AlignTailLaid(g, s, WholePages(n));
      MarkLaid(g, r, |r| - 1, false);
    } else {
      var r := AlignFresh(s, base, WholePages(n));
      AlignFreshLaid(g, s, base, WholePages(n));
      MarkLaid(g, r, |r| - 1, false);
    }
  }

  lemma FreeLaid(g: Growth, s: seq<Slab>, k: nat)
    requires Laid(g, s) && k < |s|
    ensures Laid(g, FreeAt(s, k)) && Footprint(FreeAt(s, k)) == Footprint(s)
  {
    var m := Mark(s, k, true);
    MarkLaid(g, s, k, true);
    if k + 1 < |m| && m[k + 1].free { MergeLaid(g, m, k); }
    var r := JoinNext(m, k);
    if 0 < k && r[k - 1].free { MergeLaid(g, r, k - 1); }
  }

  // ---------------------------------------------------------------- runs

  datatype Op =
    | Plain(n: nat, base: nat)
    | Aligned(n: nat, base: nat)
    | Release(k: nat)

  /** The list and the number of pages acquired for it so far. */
  datatype Heap = Heap(slabs: seq<Slab>, pages: nat)

  predicate Legal(g: Growth, h: Heap, op: Op) {
    && 0 < |h.slabs|
    && match op
       case Plain(_, base) => Placed(g, h.slabs, base)
       case Aligned(_, base) => Placed(g, h.slabs, base)
       case Release(k) => k < |h.slabs| && !h.slabs[k].free
  }

  function Apply(h: Heap, op: Op): Heap
    requires Legal(Anywhere, h, op)
  {
    match op
    case Plain(n, base) => Heap(AllocPlain(h.slabs, n, base), h.pages + PlainPages(h.slabs, n))
    case Aligned(n, base) => Heap(AllocAligned(h.slabs, n, base), h.pages + AlignedPages(h.slabs, n))
    case Release(k) => Heap(FreeAt(h.slabs, k), h.pages)
  }

  predicate LegalRun(g: Growth, h: Heap, ops: seq<Op>)
    decreases |ops|
  {
    |ops| == 0 || (Legal(g, h, ops[0]) && LegalRun(g, Apply(h, ops[0]), ops[1..]))
  }

  function Run(g: Growth, h: Heap, ops: seq<Op>): Heap
    requires LegalRun(g, h, ops)
    decreases |ops|
  {
    if |ops| == 0 then h else Run(g, Apply(h, ops[0]), ops[1..])
  }

  /** The heap that init leaves: one free slab over the first page. */
  function Fresh(base: nat): Heap { Heap([Slab(base, PAGE - HEADER, true)], 1) }

  ghost predicate Sound(g: Growth, h: Heap) {
    Laid(g, h.slabs) && Footprint(h.slabs) == h.pages * PAGE
  }

  lemma FreshSound(g: Growth, base: nat)
    requires base % PAGE == 0
    ensures Sound(g, Fresh(base))
  {
    var s := Fresh(base).slabs;
    assert Footprint(s) == s[0].size + HEADER;
    assert Congruent(Last(s).End(), 0);
  }

  lemma StepSound(g: Growth, h: Heap, op: Op)
    requires Sound(g, h) && Legal(g, h, op)
    ensures Sound(g, Apply(h, op))
  {
    match op
    case Plain(n, base) => AllocPlainLaid(g, h.slabs, n, base);
    case Aligned(n, base) => AllocAlignedLaid(g, h.slabs, n, base);
    case Release(k) => FreeLaid(g, h.slabs, k);
  }

  lemma {:induction false} RunSound(g: Growth, h: Heap, ops: seq<Op>)
    requires Sound(g, h) && LegalRun(g, h, ops)
    ensures Sound(g, Run(g, h, ops))
    decreases |ops|
  {
    if |ops| != 0 {
      StepSound(g, h, ops[0]);
      RunSound(g, Apply(h, ops[0]), ops[1..]);
    }
  }
}
