/** When calls are fair, said of the pages that the frame allocator hands to the heap: they come in
    ascending order, or in any order as long as slabs are joined on their own memory. And what
    happens to the headers otherwise. */
module HeapRegimes {
  import opened Common
  import opened Slabs
  import opened SlabRuns
  import opened SlabTheorems
  import opened SlabIntact
  import opened SlabMemory
  import opened SlabOwnership
  import opened SlabPartition
  import opened HeaderStores
  import opened KernelHeap
  import opened HeapRuns
  import opened Words

  /** The heap stays below 2^63 bytes. */
  predicate Roomy(s: seq<Slab>, n: nat) { Footprint(s) + n + 2 * PAGE <= W63 }

  lemma RoomyPages(s: seq<Slab>, n: nat)
    requires 0 < |s|
    ensures PlainPages(s, n) * PAGE <= n + 2 * PAGE && AlignedPages(s, n) * PAGE <= n + 2 * PAGE
  {
  }

  // ---------------------------------------------------------------- ascending pages

  /** The new pages lie behind the tail, within the address space. */
  predicate Behind(s: seq<Slab>, call: Call)
    requires 0 < |s|
  {
    call.Kallocate? ==>
      && Last(s).End() <= call.base && Roomy(s, Bytes64(call))
      && call.base + Bytes64(call) + 2 * PAGE <= W64
  }

  predicate AscendingRun(h: Heap, calls: seq<Call>, b: Watched)
    decreases |calls|
  {
    |calls| == 0 ||
    (Proper(h.slabs, calls[0], b) && Behind(h.slabs, calls[0]) && AscendingRun(After(h, calls[0], b), calls[1..], b))
  }

  lemma BehindVacant(s: seq<Slab>, a: nat)
    requires Apart(s) && 0 < |s| && Last(s).End() <= a
    ensures Vacant(s, a) && !Covers(s, a)
  {
    ApartAt(s, |s| - 1);
    if Covers(s, a) { CoveredBelowEnd(s, a); }
  }

  /** Headers that lie in the heap or in the new pages lie below the end of those. */
  lemma StoreBelow(s: seq<Slab>, base: nat, pages: nat, a: nat)
    requires Apart(s) && 0 < |s| && Last(s).End() <= base && FreeOrNew(s, base, pages, a)
    ensures a + HEADER <= base + pages * PAGE
  {
    ApartAt(s, |s| - 1);
  }

  lemma PlainInSpace(s: seq<Slab>, n: nat, base: nat)
    requires Apart(s) && 0 < |s| && Last(s).End() <= base && base + n + 2 * PAGE <= W64
    ensures InSpace(PlainStores(s, n, base))
  {
    PlainStoresFreeOrNew(s, n, base);
    RoomyPages(s, n);
    forall a | a in PlainStores(s, n, base)
      ensures a + HEADER <= W64
    {
      StoreBelow(s, base, PlainPages(s, n), a);
    }
  }

  lemma AlignedInSpace(s: seq<Slab>, n: nat, base: nat)
    requires Apart(s) && 0 < |s| && Last(s).End() <= base && base + n + 2 * PAGE <= W64
    ensures InSpace(AlignedStores(s, base))
  {
    StoreBelow(s, base, 0, s[0].addr);
    assert forall a :: a in AlignedStores(s, base) ==> a + HEADER <= base + 2 * PAGE;
  }

  lemma BehindPlain(s: seq<Slab>, n: nat, base: nat)
    requires Laid(Ascending, s) && base % PAGE == 0 && Last(s).End() <= base
    requires n < W64 && Roomy(s, n) && base + n + 2 * PAGE <= W64
    ensures PlainClear(s, n, base)
  {
    RoomyPages(s, n);
    AllocPlainLaid(Ascending, s, n, base);
    ApartIntact(AllocPlain(s, n, base));
    PlainInSpace(s, n, base);
  }

  lemma BehindIntact(s: seq<Slab>, n: nat, base: nat)
    requires Laid(Ascending, s) && base % PAGE == 0 && Last(s).End() <= base
    ensures Intact(AllocAligned(s, n, base))
  {
    AllocAlignedLaid(Ascending, s, n, base);
    ApartIntact(AllocAligned(s, n, base));
  }

  lemma RoomyAligned(s: seq<Slab>, n: nat, base: nat)
    requires 0 < |s| && Roomy(s, n)
    ensures Footprint(AllocAligned(s, n, base)) <= W63
  {
    RoomyPages(s, n);
    AlignedFootprint(s, n, base);
  }

  lemma BehindAligned(s: seq<Slab>, n: nat, base: nat)
    requires Laid(Ascending, s) && base % PAGE == 0 && Last(s).End() <= base
    requires Roomy(s, n) && base + n + 2 * PAGE <= W64
    ensures AlignedClear(s, n, base)
  {
    BehindIntact(s, n, base);
    RoomyAligned(s, n, base);
    AlignedInSpace(s, n, base);
    VacantBehind(s, base);
  }

  lemma VacantBehind(s: seq<Slab>, base: nat)
    requires Apart(s) && 0 < |s| && Last(s).End() <= base
    ensures AlignedVacant(s, base)
  {
    BehindVacant(s, base);
    BehindVacant(s, base + PAGE);
  }

  lemma BehindFair(h: Heap, call: Call, b: Watched)
    requires Sound(Ascending, h) && Proper(h.slabs, call, b) && Behind(h.slabs, call)
    ensures Fair(h.slabs, call, b) && Elsewhere(h.slabs, call)
  {
    if call.Kallocate? {
      if call.align {
        BehindAligned(h.slabs, Bytes64(call), call.base);
        BehindVacant(h.slabs, TopHeader(h.slabs, call.base));
      } else {
        BehindPlain(h.slabs, Bytes64(call), call.base);
      }
    }
  }

  lemma AfterSound(h: Heap, call: Call, b: Watched)
    requires Sound(Ascending, h) && Proper(h.slabs, call, b) && Behind(h.slabs, call)
    ensures Sound(Ascending, After(h, call, b))
  {
    if !call.Store? {
      StepSound(Ascending, h, OpOf(h.slabs, call));
    }
  }

  /** With pages in ascending order every proper call is fair. */
  lemma {:induction false} AscendingFair(h: Heap, calls: seq<Call>, b: Watched)
    requires Sound(Ascending, h) && AscendingRun(h, calls, b)
    ensures FairRun(h, calls, b) && AllElsewhere(h, calls, b)
    decreases |calls|
  {
    if |calls| != 0 {
      BehindFair(h, calls[0], b);
      AfterSound(h, calls[0], b);
      AscendingFair(After(h, calls[0], b), calls[1..], b);
    }
  }

  // ---------------------------------------------------------------- pages in any order

  /** A header at a lies outside the memory. */
  ghost predicate HeaderOut(a: nat, owned: Memory) {
    forall p: nat :: a <= p < a + HEADER ==> p !in owned
  }

  ghost predicate Below64(owned: Memory) { forall p :: p in owned ==> p < W64 }

  /** The call acquires memory that is new and in the address space, and joins slabs only on their
      own memory. With less than a page asked for, the header behind the new pages is not theirs. */
  ghost predicate Own(s: seq<Slab>, owned: Memory, call: Call, b: Watched)
    requires Proper(s, call, b)
  {
    && (!call.Store? ==> NewTo(owned, CallMemory(s, call)) && Adjacent(s, OpOf(s, call)))
    && (call.Kallocate? ==>
      && call.base != NULL && Roomy(s, Bytes64(call)) && Below64(CallMemory(s, call))
      && (call.align && Bytes64(call) < PAGE ==>
        HeaderOut(TopHeader(s, call.base), owned) && TopHeader(s, call.base) + HEADER <= W64))
  }

  ghost predicate OwnCalls(h: Heap, owned: Memory, calls: seq<Call>, b: Watched)
    decreases |calls|
  {
    |calls| == 0 ||
    (Proper(h.slabs, calls[0], b) && Own(h.slabs, owned, calls[0], b) &&
     OwnCalls(After(h, calls[0], b), owned + CallMemory(h.slabs, calls[0]), calls[1..], b))
  }

  lemma OutVacant(s: seq<Slab>, owned: Memory, a: nat)
    requires Contained(s, owned) && HeaderOut(a, owned)
    ensures Vacant(s, a) && !Covers(s, a)
  {
    assert a !in owned;
    forall i | 0 <= i < |s|
      ensures VacantAt(s, a, i)
    {
      if !VacantAt(s, a, i) {
        var p := if a < s[i].addr then s[i].addr else a;
        CoversAt(s, i, p);
      }
    }
  }

  lemma RunOut(owned: Memory, base: nat, pages: nat, a: nat)
    requires NewTo(owned, RunOf(base, pages)) && base <= a && a + HEADER <= base + pages * PAGE
    ensures HeaderOut(a, owned)
  {
    forall p: nat | a <= p < a + HEADER
      ensures p !in owned
    {
      assert InRun(base, pages, p) && p in RunOf(base, pages);
    }
  }

  lemma InSpaceAt(s: seq<Slab>, owned: Memory, base: nat, pages: nat, a: nat)
    requires Contained(s, owned) && FreeOrNew(s, base, pages, a)
    requires Below64(owned) && Below64(RunOf(base, pages))
    ensures a + HEADER <= W64
  {
    FreeOrNewOwned(s, owned, base, pages, a);
    assert a + HEADER - 1 in owned + RunOf(base, pages);
  }

  lemma PlainOwn(s: seq<Slab>, owned: Memory, n: nat, base: nat)
    requires Partition(s, owned) && 0 < |s| && Below64(owned) && n < W64 && base != NULL && Roomy(s, n)
    requires NewTo(owned, RunOf(base, PlainPages(s, n))) && Below64(RunOf(base, PlainPages(s, n)))
    ensures PlainClear(s, n, base)
  {
    PlainPartition(s, owned, n, base);
    SeparateIntact(AllocPlain(s, n, base));
    PlainFootprint(s, n, base);
    RoomyPages(s, n);
    PlainStoresFreeOrNew(s, n, base);
    forall a | a in PlainStores(s, n, base)
      ensures a + HEADER <= W64
    {
      InSpaceAt(s, owned, base, PlainPages(s, n), a);
    }
  }

  lemma TopOut(s: seq<Slab>, owned: Memory, n: nat, base: nat)
    requires 0 < |s| && NewTo(owned, RunOf(base, AlignedPages(s, n))) && Below64(RunOf(base, AlignedPages(s, n)))
    requires n < PAGE ==> HeaderOut(TopHeader(s, base), owned) && TopHeader(s, base) + HEADER <= W64
    ensures HeaderOut(TopHeader(s, base), owned) && HeaderOut(base, owned) && TopHeader(s, base) + HEADER <= W64
  {
    var pages := AlignedPages(s, n);
    if PAGE <= n {
      RunOut(owned, base, pages, TopHeader(s, base));
      assert InRun(base, pages, TopHeader(s, base) + HEADER - 1);
      assert TopHeader(s, base) + HEADER - 1 in RunOf(base, pages);
    }
    if !TailHasRoom(s) { RunOut(owned, base, pages, base); }
  }

  lemma AlignedOwn(s: seq<Slab>, owned: Memory, n: nat, base: nat)
    requires Partition(s, owned) && 0 < |s| && Below64(owned) && base != NULL && Roomy(s, n)
    requires NewTo(owned, RunOf(base, AlignedPages(s, n))) && Below64(RunOf(base, AlignedPages(s, n)))
    requires PAGE <= n && TailHasRoom(s) ==> base == Last(s).End()
    requires n < PAGE ==> HeaderOut(TopHeader(s, base), owned) && TopHeader(s, base) + HEADER <= W64
    ensures AlignedClear(s, n, base) && !Covers(s, TopHeader(s, base))
  {
    AlignedSeparate(s, owned, n, base);
    SeparateIntact(AllocAligned(s, n, base));
    RoomyAligned(s, n, base);
    TopOut(s, owned, n, base);
    OutVacant(s, owned, base);
    OutVacant(s, owned, TopHeader(s, base));
    forall a | a in AlignedStores(s, base)
      ensures a + HEADER <= W64
    {
      if a != TopHeader(s, base) {
        AlignedStoreAt(s, n, base, a);
        InSpaceAt(s, owned, base, AlignedPages(s, n), a);
      }
    }
    if TailHasRoom(s) && n < PAGE { TailOut(s, owned, base); }
  }

  /** A header outside the memory acquired does not touch the end of the tail. */
  lemma TailOut(s: seq<Slab>, owned: Memory, base: nat)
    requires Contained(s, owned) && 0 < |s| && TailHasRoom(s) && HeaderOut(base, owned)
    ensures base + HEADER <= Last(s).End() - HEADER || Last(s).End() <= base
  {
    var e := Last(s).End();
    if base < e && e - HEADER < base + HEADER {
      var p := if base < e - HEADER then e - HEADER else base;
      CoversAt(s, |s| - 1, p);
    }
  }

  lemma OwnFair(h: Heap, owned: Memory, call: Call, b: Watched)
    requires Partition(h.slabs, owned) && Below64(owned) && Proper(h.slabs, call, b) && Own(h.slabs, owned, call, b)
    ensures Fair(h.slabs, call, b) && Elsewhere(h.slabs, call)
    ensures Partition(After(h, call, b).slabs, owned + CallMemory(h.slabs, call))
    ensures Below64(owned + CallMemory(h.slabs, call))
  {
    if call.Kallocate? {
      if call.align {
        AlignedOwn(h.slabs, owned, Bytes64(call), call.base);
      } else {
        PlainOwn(h.slabs, owned, Bytes64(call), call.base);
      }
    }
    if call.Store? {
      assert owned + iset{} == owned;
    } else {
      StepPartition(h, owned, OpOf(h.slabs, call));
    }
  }

  /** With pages in any order, joined on their own memory only, every proper call is fair, and the
      slabs partition the memory acquired at every step. */
  lemma {:induction false} OwnCallsFair(h: Heap, owned: Memory, calls: seq<Call>, b: Watched)
    requires Partition(h.slabs, owned) && Below64(owned) && OwnCalls(h, owned, calls, b)
    ensures FairRun(h, calls, b) && AllElsewhere(h, calls, b) && OwnRun(h, owned, OpsOf(h, calls, b))
    decreases |calls|
  {
    if |calls| != 0 {
      OwnFair(h, owned, calls[0], b);
      OwnCallsFair(After(h, calls[0], b), owned + CallMemory(h.slabs, calls[0]), calls[1..], b);
      OpsStep(h, calls, b);
      if calls[0].Store? { assert owned + iset{} == owned; }
    }
  }

  // ---------------------------------------------------------------- from init

  /** From init with pages in ascending order: memory holds the list of the run, which keeps the
      layout, and its headers lie in free or new memory exactly for aligned calls of a page or more. */
  method AscendingFromInit(base0: nat, calls: seq<Call>) returns (a: Allocator, ghost h: Heap)
    requires base0 != NULL && base0 % PAGE == 0 && base0 + PAGE <= W64 && AscendingRun(Fresh(base0), calls, None)
    ensures fresh(a) && a.Valid() && a.slabs == h.slabs && FairRun(Fresh(base0), calls, None)
    ensures LegalRun(Anywhere, Fresh(base0), OpsOf(Fresh(base0), calls, None))
    ensures h == Run(Anywhere, Fresh(base0), OpsOf(Fresh(base0), calls, None)) && Sound(Ascending, h)
    ensures AllFreeOrNewWhenWritten(Fresh(base0), calls, None) <==> forall call :: call in calls ==> PageAsked(call)
  {
    FreshSound(Ascending, base0);
    AscendingFair(Fresh(base0), calls, None);
    AscendingEnd(Fresh(base0), calls, None);
    RunStoresExactly(Fresh(base0), calls, None);
    a := ReplayFromInit(base0, calls);
    h := Run(Anywhere, Fresh(base0), OpsOf(Fresh(base0), calls, None));
  }

  lemma {:induction false} AscendingEnd(h: Heap, calls: seq<Call>, b: Watched)
    requires Sound(Ascending, h) && AscendingRun(h, calls, b) && FairRun(h, calls, b)
    ensures LegalRun(Anywhere, h, OpsOf(h, calls, b)) && Sound(Ascending, Run(Anywhere, h, OpsOf(h, calls, b)))
    decreases |calls|
  {
    FairRunLegal(h, calls, b);
    if |calls| != 0 {
      AfterSound(h, calls[0], b);
      AscendingEnd(After(h, calls[0], b), calls[1..], b);
    }
  }

  /** From init with pages in any order: memory holds the list of the run, whose slabs partition
      the memory acquired, and when no aligned call asks for less than a page every header written
      lies in it. */
  method OwnFromInit(base0: nat, calls: seq<Call>) returns (a: Allocator, ghost owned: Memory)
    requires base0 != NULL && base0 + PAGE <= W64 && OwnCalls(Fresh(base0), RunOf(base0, 1), calls, None)
    ensures fresh(a) && a.Valid() && FairRun(Fresh(base0), calls, None)
    ensures LegalRun(Anywhere, Fresh(base0), OpsOf(Fresh(base0), calls, None))
    ensures a.slabs == Run(Anywhere, Fresh(base0), OpsOf(Fresh(base0), calls, None)).slabs
    ensures owned == Acquired(Anywhere, Fresh(base0), OpsOf(Fresh(base0), calls, None), RunOf(base0, 1))
    ensures Partition(a.slabs, owned)
    ensures (forall call :: call in calls ==> PageAsked(call)) ==>
      HeadersIn(AllStores(Fresh(base0), calls, None), owned)
  {
    FreshPartition(base0);
    forall p | p in RunOf(base0, 1)
      ensures p < W64
    {
    }
    OwnCallsFair(Fresh(base0), RunOf(base0, 1), calls, None);
    RunPartition(Fresh(base0), RunOf(base0, 1), OpsOf(Fresh(base0), calls, None));
    if forall call :: call in calls ==> PageAsked(call) {
      RunStoresOwned(Fresh(base0), calls, None, RunOf(base0, 1));
    }
    a := ReplayFromInit(base0, calls);
    owned := Acquired(Anywhere, Fresh(base0), OpsOf(Fresh(base0), calls, None), RunOf(base0, 1));
  }

  // ---------------------------------------------------------------- what goes wrong otherwise

  function FullPage(base: nat): Call { Kallocate(4064, 1, false, base) }

  /** Three disjoint pages in the order 2, 0, 3 from b on, each with a block, of which those in pages 2
      and 0 are freed again. */
  function PagesOutOfOrder(b: nat): seq<Call> {
    [FullPage(b), FullPage(b), FullPage(b + 3 * PAGE), Kfree(b + 2 * PAGE + HEADER), Kfree(b + HEADER)]
  }

  lemma FullPageStep(h: Heap, owned: Memory, base: nat)
    requires Partition(h.slabs, owned) && Below64(owned) && 0 < |h.slabs| && Roomy(h.slabs, 4064)
    requires 0 < base && base % PAGE == 0 && base + PAGE <= W64
    requires FirstFit(h.slabs, 4064) < |h.slabs| || NewTo(owned, RunOf(base, 1))
    ensures Fair(h.slabs, FullPage(base), None)
    ensures var more := if FirstFit(h.slabs, 4064) < |h.slabs| then iset{} else RunOf(base, 1);
      Partition(After(h, FullPage(base), None).slabs, owned + more) && Below64(owned + more)
  {
    var pages := PlainPages(h.slabs, 4064);
    assert PagesFor(4064) == 1 && pages == if FirstFit(h.slabs, 4064) < |h.slabs| then 0 else 1;
    assert RunOf(base, 0) == iset{};
    assert CallMemory(h.slabs, FullPage(base)) == RunOf(base, pages);
    OwnFair(h, owned, FullPage(base), None);
  }

  function Overlapping(b: nat): seq<Slab> { [Slab(b + 2 * PAGE, 8160, true), Slab(b + 3 * PAGE, 4064, false)] }

  /** Memory follows the calls from h. They end with the slab of page 2, which swallowed that of
      page 0 and so covers page 3, where a block is in use. */
  ghost predicate EndsOverlapping(h: Heap, calls: seq<Call>, b: nat) {
    && FairRun(h, calls, None) && LegalRun(Anywhere, h, OpsOf(h, calls, None))
    && Run(Anywhere, h, OpsOf(h, calls, None)).slabs == Overlapping(b)
  }

  lemma PagesOutOfOrderFair(b: nat)
    requires 0 < b && b % PAGE == 0 && b + 4 * PAGE <= W64
    ensures EndsOverlapping(Fresh(b + 2 * PAGE), PagesOutOfOrder(b), b)
  {
    var h, owned, calls := Fresh(b + 2 * PAGE), RunOf(b + 2 * PAGE, 1), PagesOutOfOrder(b);
    FreshPartition(b + 2 * PAGE);
    assert FirstFit(h.slabs, 4064) == 0;
    FullPageStep(h, owned, b);
    var h1 := After(h, FullPage(b), None);
    assert h1.slabs == [Slab(b + 2 * PAGE, 4064, false)] && owned + iset{} == owned;
    SecondOutOfOrder(h1, owned, b);
    assert calls == [FullPage(b)] + calls[1..];
    FairCons(h, FullPage(b), calls[1..]);
  }

  lemma SecondOutOfOrder(h: Heap, owned: Memory, b: nat)
    requires 0 < b && b % PAGE == 0 && b + 4 * PAGE <= W64
    requires h.slabs == [Slab(b + 2 * PAGE, 4064, false)] && owned == RunOf(b + 2 * PAGE, 1)
    requires Partition(h.slabs, owned) && Below64(owned)
    ensures EndsOverlapping(h, PagesOutOfOrder(b)[1..], b)
  {
    var calls := PagesOutOfOrder(b)[1..];
    FullFits(h.slabs);
    FullPageStep(h, owned, b);
    var h1 := After(h, FullPage(b), None);
    assert h1.slabs == [Slab(b + 2 * PAGE, 4064, false), Slab(b, 4064, false)];
    ThirdOutOfOrder(h1, owned + RunOf(b, 1), b);
    assert calls == [FullPage(b)] + PagesOutOfOrder(b)[2..];
    FairCons(h, FullPage(b), PagesOutOfOrder(b)[2..]);
  }

  lemma ThirdOutOfOrder(h: Heap, owned: Memory, b: nat)
    requires 0 < b && b % PAGE == 0 && b + 4 * PAGE <= W64
    requires h.slabs == [Slab(b + 2 * PAGE, 4064, false), Slab(b, 4064, false)]
    requires owned == RunOf(b + 2 * PAGE, 1) + RunOf(b, 1) && Partition(h.slabs, owned) && Below64(owned)
    ensures EndsOverlapping(h, PagesOutOfOrder(b)[2..], b)
  {
    var call := FullPage(b + 3 * PAGE);
    FullFits(h.slabs);
    assert h.slabs[1..] == [h.slabs[1]];
    FootprintOne(h.slabs[1]);
    FullPageStep(h, owned, b + 3 * PAGE);
    var h1 := After(h, call, None);
    assert h1.slabs == [Slab(b + 2 * PAGE, 4064, false), Slab(b, 4064, false), Slab(b + 3 * PAGE, 4064, false)];
    FreeOutOfOrder(h1, b);
    assert PagesOutOfOrder(b)[2..] == [call] + [Kfree(b + 2 * PAGE + HEADER), Kfree(b + HEADER)];
    FairCons(h, call, [Kfree(b + 2 * PAGE + HEADER), Kfree(b + HEADER)]);
  }

  lemma FreeOutOfOrder(h: Heap, b: nat)
    requires h.slabs == [Slab(b + 2 * PAGE, 4064, false), Slab(b, 4064, false), Slab(b + 3 * PAGE, 4064, false)]
    ensures EndsOverlapping(h, [Kfree(b + 2 * PAGE + HEADER), Kfree(b + HEADER)], b)
  {
    var h1 := Apply(h, Release(0));
    assert h1.slabs == [h.slabs[0].(free := true), h.slabs[1], h.slabs[2]];
    var h2 := Apply(h1, Release(1));
    assert h2.slabs == [Slab(b + 2 * PAGE, 8160, true), h.slabs[2]];
    FairCons(h1, Kfree(b + HEADER), []);
    FairCons(h, Kfree(b + 2 * PAGE + HEADER), [Kfree(b + HEADER)]);
  }

  lemma FullFits(s: seq<Slab>)
    requires forall i :: 0 <= i < |s| ==> !s[i].free
    ensures FirstFit(s, 4064) == |s|
  {
  }

  lemma FairCons(h: Heap, call: Call, calls: seq<Call>)
    requires Fair(h.slabs, call, None) && FairRun(After(h, call, None), calls, None)
    ensures FairRun(h, [call] + calls, None)
    ensures LegalRun(Anywhere, h, OpsOf(h, [call] + calls, None))
    ensures var h1 := After(h, call, None);
      LegalRun(Anywhere, h1, OpsOf(h1, calls, None)) &&
      Run(Anywhere, h, OpsOf(h, [call] + calls, None)) == Run(Anywhere, h1, OpsOf(h1, calls, None))
  {
    assert ([call] + calls)[1..] == calls;
    FairRunLegal(h, [call] + calls, None);
  }

  /** There a plain request of a page less its header is not fair. Its stores put the header
      of the remainder over the header of the block in use: memory then says that the block is
      free and its own neighbour on both sides, while the list still has it in use. */
  lemma HeaderLost(b: nat, m: Headers, base: nat)
    requires 0 < b && b % PAGE == 0
    requires Linked(m, Overlapping(b))
    ensures var s, a, c := Overlapping(b), b + 2 * PAGE, b + 3 * PAGE;
      && !PlainClear(s, 4064, base)
      && AllocPlain(s, 4064, base) == [Slab(a, 4064, false), Slab(c, 4064, true), Slab(c, 4064, false)]
      && Live(AllocPlain(s, 4064, base), Slab(c, 4064, false))
      && PlainStores(s, 4064, base) == [a, c, c, a, a]
      && a in m && m[a].next in m
      && var m1 := SetFree(LinkSplit(m, a, c, 4064, 4064), a, false);
      && c in m1 && m1[c].isFree && m1[c].next == c && m1[c].previous == c
  {
    var s, a, c := Overlapping(b), b + 2 * PAGE, b + 3 * PAGE;
    assert HeaderAt(m, s, 0) && HeaderAt(m, s, 1);
    assert FirstFit(s, 4064) == 0;
    var r := AllocPlain(s, 4064, base);
    assert r == [Slab(a, 4064, false), Slab(c, 4064, true), Slab(c, 4064, false)];
    assert r[2] == Slab(c, 4064, false);
    if Intact(r) { IntactDistinctAddresses(r, 1, 2); }
  }
}
