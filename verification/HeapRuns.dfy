/** Whole runs of calls on the allocator in memory, with the owners writing in between. */
module HeapRuns {
  import opened Common
  import opened Slabs
  import opened SlabRuns
  import opened SlabTheorems
  import opened SlabIntact
  import opened SlabOwnership
  import opened SlabPartition
  import opened HeaderStores
  import opened KernelHeap
  import opened Words

  /** What the kernel does with its heap. base is where the frame allocator puts a new run of
      pages; a store goes to a block in use. */
  datatype Call =
    | Kallocate(objsize: nat, num: nat, align: bool, base: nat)
    | Kfree(vaddr: nat)
    | Store(p: nat, v: bv8)

  /** Position of the slab with that payload address, |s| when there is none. */
  function BlockAt(s: seq<Slab>, vaddr: nat): (k: nat)
    ensures k <= |s| && (k < |s| ==> s[k].Payload() == vaddr)
    ensures forall j :: 0 <= j < k ==> s[j].Payload() != vaddr
  {
    FirstBy(s, (x: Slab) => x.Payload(), vaddr)
  }

  /** Position of the slab whose payload contains the address, |s| when there is none. */
  function OwnerOf(s: seq<Slab>, p: nat): (k: nat)
    ensures k <= |s| && (k < |s| ==> !s[k].free && s[k].Payload() <= p < s[k].End())
  {
    if |s| == 0 || (!s[0].free && s[0].Payload() <= p < s[0].End()) then 0 else OwnerOf(s[1..], p) + 1
  }

  function Bytes64(call: Call): nat
    requires call.Kallocate?
  {
    call.objsize * call.num % W64
  }

  /** The list operation that a call other than a store stands for. */
  function OpOf(s: seq<Slab>, call: Call): Op
    requires !call.Store?
  {
    match call
    case Kallocate(_, _, align, base) => if align then Aligned(Bytes64(call), base) else Plain(Bytes64(call), base)
    case Kfree(vaddr) => Release(BlockAt(s, vaddr))
  }

  /** A block in use that a run is to leave alone, if there is one to speak of. */
  type Watched = Option<Slab>

  ghost predicate Watching(s: seq<Slab>, b: Watched) { b.Some? ==> Live(s, b.value) }

  /** Only blocks in use are freed and stored to, and the watched block is neither. */
  predicate Proper(s: seq<Slab>, call: Call, b: Watched) {
    && 0 < |s|
    && match call
       case Kallocate(_, _, _, base) => base % PAGE == 0
       case Kfree(vaddr) =>
         var k := BlockAt(s, vaddr);
         k < |s| && !s[k].free && (b.Some? ==> vaddr != b.value.Payload())
       case Store(p, _) =>
         var k := OwnerOf(s, p);
         k < |s| && (b.Some? ==> s[k] != b.value)
  }

  /** The calls that memory can follow, wherever new pages lie: a new block and its headers hit
      nothing in use. */
  ghost predicate Fair(s: seq<Slab>, call: Call, b: Watched) {
    && Proper(s, call, b)
    && (call.Kallocate? ==>
      if call.align then AlignedClear(s, Bytes64(call), call.base) else PlainClear(s, Bytes64(call), call.base))
  }

  function After(h: Heap, call: Call, b: Watched): Heap
    requires Proper(h.slabs, call, b)
  {
    if call.Store? then h else Apply(h, OpOf(h.slabs, call))
  }

  lemma FairKeeps(h: Heap, call: Call, b: Watched)
    requires Watching(h.slabs, b) && Fair(h.slabs, call, b)
    ensures Watching(After(h, call, b).slabs, b)
  {
    if !call.Store? && b.Some? {
      StepLive(h, OpOf(h.slabs, call), b.value);
    }
  }

  /** Every call of the run is fair when its turn comes. */
  ghost predicate FairRun(h: Heap, calls: seq<Call>, b: Watched)
    decreases |calls|
  {
    |calls| == 0 || (Fair(h.slabs, calls[0], b) && FairRun(After(h, calls[0], b), calls[1..], b))
  }

  /** The list operations of the whole run. */
  ghost function OpsOf(h: Heap, calls: seq<Call>, b: Watched): seq<Op>
    requires FairRun(h, calls, b)
    decreases |calls|
  {
    if |calls| == 0 then []
    else (if calls[0].Store? then [] else [OpOf(h.slabs, calls[0])]) + OpsOf(After(h, calls[0], b), calls[1..], b)
  }

  lemma OpsStep(h: Heap, calls: seq<Call>, b: Watched)
    requires FairRun(h, calls, b) && |calls| > 0
    ensures var ops, rest := OpsOf(h, calls, b), OpsOf(After(h, calls[0], b), calls[1..], b);
      if calls[0].Store? then ops == rest else |ops| > 0 && ops[0] == OpOf(h.slabs, calls[0]) && ops[1..] == rest
  {
    var rest := OpsOf(After(h, calls[0], b), calls[1..], b);
    if calls[0].Store? {
      assert [] + rest == rest;
    } else {
      assert ([OpOf(h.slabs, calls[0])] + rest)[1..] == rest;
    }
  }

  /** A fair run of calls is a legal run of list operations. */
  lemma {:induction false} FairRunLegal(h: Heap, calls: seq<Call>, b: Watched)
    requires FairRun(h, calls, b)
    ensures LegalRun(Anywhere, h, OpsOf(h, calls, b))
    ensures |calls| > 0 ==>
      var h1 := After(h, calls[0], b);
      var rest := OpsOf(h1, calls[1..], b);
      LegalRun(Anywhere, h1, rest) && Run(Anywhere, h, OpsOf(h, calls, b)) == Run(Anywhere, h1, rest)
    decreases |calls|
  {
    if |calls| != 0 {
      FairRunLegal(After(h, calls[0], b), calls[1..], b);
      OpsStep(h, calls, b);
    }
  }

  // ---------------------------------------------------------------- headers written

  /** Addresses of the headers that a call writes, in order. */
  function StoresOf(s: seq<Slab>, call: Call): seq<nat>
    requires 0 < |s| && (call.Kfree? ==> BlockAt(s, call.vaddr) < |s|)
  {
    match call
    case Kallocate(_, _, align, base) => if align then AlignedStores(s, base) else PlainStores(s, Bytes64(call), base)
    case Kfree(vaddr) => FreeStores(s, BlockAt(s, vaddr))
    case Store(_, _) => []
  }

  ghost function AllStores(h: Heap, calls: seq<Call>, b: Watched): seq<nat>
    requires FairRun(h, calls, b)
    decreases |calls|
  {
    if |calls| == 0 then [] else StoresOf(h.slabs, calls[0]) + AllStores(After(h, calls[0], b), calls[1..], b)
  }

  /** An aligned call asks for at least a page. */
  predicate PageAsked(call: Call) {
    call.Kallocate? && call.align ==> PAGE <= Bytes64(call)
  }

  /** The new pages of an aligned call are not the heap's. */
  ghost predicate Elsewhere(s: seq<Slab>, call: Call)
    requires 0 < |s|
  {
    call.Kallocate? && call.align ==> !Covers(s, TopHeader(s, call.base))
  }

  /** Every header that the call writes lies in memory that was free, or new, when it came. */
  ghost predicate CallFreeOrNew(s: seq<Slab>, call: Call)
    requires 0 < |s| && (call.Kfree? ==> BlockAt(s, call.vaddr) < |s|)
  {
    match call
    case Kallocate(_, _, align, base) =>
      var n := Bytes64(call);
      AllFreeOrNew(s, base, if align then AlignedPages(s, n) else PlainPages(s, n), StoresOf(s, call))
    case _ => forall a :: a in StoresOf(s, call) ==> OldHeader(s, a)
  }

  lemma CallStores(s: seq<Slab>, call: Call)
    requires 0 < |s| && (call.Kfree? ==> BlockAt(s, call.vaddr) < |s|)
    ensures PageAsked(call) ==> CallFreeOrNew(s, call)
    ensures Elsewhere(s, call) ==> (CallFreeOrNew(s, call) <==> PageAsked(call))
  {
    match call
    case Kallocate(_, _, align, base) =>
      var n := Bytes64(call);
      if !align {
        PlainStoresFreeOrNew(s, n, base);
      } else if PAGE <= n {
        AlignedStoresFreeOrNew(s, n, base);
      } else if Elsewhere(s, call) {
        AlignedStoresExactly(s, n, base);
      }
    case Kfree(vaddr) => FreeStoresOld(s, BlockAt(s, vaddr));
    case Store(_, _) =>
  }

  ghost predicate AllFreeOrNewWhenWritten(h: Heap, calls: seq<Call>, b: Watched)
    requires FairRun(h, calls, b)
    decreases |calls|
  {
    |calls| == 0 ||
    (CallFreeOrNew(h.slabs, calls[0]) && AllFreeOrNewWhenWritten(After(h, calls[0], b), calls[1..], b))
  }

  ghost predicate AllElsewhere(h: Heap, calls: seq<Call>, b: Watched)
    requires FairRun(h, calls, b)
    decreases |calls|
  {
    |calls| == 0 || (Elsewhere(h.slabs, calls[0]) && AllElsewhere(After(h, calls[0], b), calls[1..], b))
  }

  /** Over a whole run every header is written to memory that was free or new at that time, if
      and only if every aligned call asks for at least a page. */
  lemma {:induction false} RunStoresExactly(h: Heap, calls: seq<Call>, b: Watched)
    requires FairRun(h, calls, b)
    ensures (forall call :: call in calls ==> PageAsked(call)) ==> AllFreeOrNewWhenWritten(h, calls, b)
    ensures AllElsewhere(h, calls, b) && AllFreeOrNewWhenWritten(h, calls, b) ==>
      forall call :: call in calls ==> PageAsked(call)
    decreases |calls|
  {
    if |calls| != 0 {
      CallStores(h.slabs, calls[0]);
      RunStoresExactly(After(h, calls[0], b), calls[1..], b);
      assert forall call :: call in calls <==> call == calls[0] || call in calls[1..];
    }
  }

  /** Every byte of every header written lies in the memory. */
  ghost predicate HeadersIn(stores: seq<nat>, owned: Memory) {
    forall a :: a in stores ==> HeaderIn(a, owned)
  }

  lemma {:induction false} AcquiredGrows(h: Heap, ops: seq<Op>, owned: Memory)
    requires LegalRun(Anywhere, h, ops)
    ensures owned <= Acquired(Anywhere, h, ops, owned)
    decreases |ops|
  {
    if |ops| != 0 {
      AcquiredGrows(Apply(h, ops[0]), ops[1..], owned + NewMemory(h.slabs, ops[0]));
    }
  }

  ghost function CallMemory(s: seq<Slab>, call: Call): Memory
    requires 0 < |s|
  {
    if call.Store? then iset{} else NewMemory(s, OpOf(s, call))
  }

  lemma CallStoresOwned(s: seq<Slab>, call: Call, owned: Memory)
    requires 0 < |s| && (call.Kfree? ==> BlockAt(s, call.vaddr) < |s|)
    requires PageAsked(call) && Contained(s, owned)
    ensures HeadersIn(StoresOf(s, call), owned + CallMemory(s, call))
  {
    CallStores(s, call);
    forall a | a in StoresOf(s, call)
      ensures HeaderIn(a, owned + CallMemory(s, call))
    {
      match call
      case Kallocate(_, _, align, base) =>
        var n := Bytes64(call);
        FreeOrNewOwned(s, owned, base, if align then AlignedPages(s, n) else PlainPages(s, n), a);
      case Kfree(_) =>
        FreeOrNewOwned(s, owned, 0, 0, a);
      case Store(_, _) =>
    }
  }

  /** When moreover each call acquires new memory and joins on its own, every header written over
      the run lies in memory that was acquired, in any order of pages. */
  lemma {:induction false} RunStoresOwned(h: Heap, calls: seq<Call>, b: Watched, owned: Memory)
    requires FairRun(h, calls, b) && Partition(h.slabs, owned) && OwnRun(h, owned, OpsOf(h, calls, b))
    requires forall call :: call in calls ==> PageAsked(call)
    ensures LegalRun(Anywhere, h, OpsOf(h, calls, b))
    ensures HeadersIn(AllStores(h, calls, b), Acquired(Anywhere, h, OpsOf(h, calls, b), owned))
    decreases |calls|
  {
    FairRunLegal(h, calls, b);
    if |calls| != 0 {
      var h1, owned1 := After(h, calls[0], b), owned + CallMemory(h.slabs, calls[0]);
      CallStoresOwned(h.slabs, calls[0], owned);
      OpsStep(h, calls, b);
      if calls[0].Store? {
        assert owned1 == owned;
      } else {
        StepPartition(h, owned, OpOf(h.slabs, calls[0]));
      }
      RunStoresOwned(h1, calls[1..], b, owned1);
      AcquiredGrows(h1, OpsOf(h1, calls[1..], b), owned1);
    }
  }

  // ---------------------------------------------------------------- the run in memory

  /** The block has the same bytes. */
  ghost predicate Same(b0: Bytes, b1: Bytes, b: Slab) {
    forall p :: b.Payload() <= p < b.End() ==> (p in b0 <==> p in b1) && (p in b0 ==> b0[p] == b1[p])
  }

  ghost predicate WatchedSame(b0: Bytes, b1: Bytes, b: Watched) { b.Some? ==> Same(b0, b1, b.value) }

  lemma KeptSame(b0: Bytes, b1: Bytes, s: seq<Slab>, b: Watched)
    requires Kept(b0, b1, s) && Watching(s, b)
    ensures WatchedSame(b0, b1, b)
  {
    if b.Some? {
      var i :| 0 <= i < |s| && s[i] == b.value;
      assert KeptAt(b0, b1, s, i);
    }
  }

  method PerformKallocate(a: Allocator, objsize: nat, num: nat, align: bool, base: nat, ghost h: Heap, ghost b: Watched)
    requires a.Valid() && a.slabs == h.slabs && Watching(h.slabs, b)
    requires Fair(h.slabs, Kallocate(objsize, num, align, base), b)
    modifies a
    ensures a.Valid() && a.slabs == After(h, Kallocate(objsize, num, align, base), b).slabs
    ensures a.log == old(a.log) + StoresOf(h.slabs, Kallocate(objsize, num, align, base))
    ensures WatchedSame(old(a.bytes), a.bytes, b)
  {
    var _ := a.Kallocate(objsize, num, align, base);
    KeptSame(old(a.bytes), a.bytes, h.slabs, b);
  }

  method PerformStore(a: Allocator, p: nat, v: bv8, ghost h: Heap, ghost b: Watched)
    requires a.Valid() && a.slabs == h.slabs && Watching(h.slabs, b) && Fair(h.slabs, Store(p, v), b)
    modifies a`bytes
    ensures a.Valid() && WatchedSame(old(a.bytes), a.bytes, b)
  {
    a.WriteByte(p, v, OwnerOf(h.slabs, p));
    if b.Some? {
      ghost var i :| 0 <= i < |h.slabs| && h.slabs[i] == b.value;
      assert KeptAt(old(a.bytes), a.bytes, h.slabs, i);
    }
  }

  method Perform(a: Allocator, call: Call, ghost h: Heap, ghost b: Watched)
    requires a.Valid() && a.slabs == h.slabs && Watching(h.slabs, b) && Fair(h.slabs, call, b)
    modifies a
    ensures a.Valid() && a.slabs == After(h, call, b).slabs && a.log == old(a.log) + StoresOf(h.slabs, call)
    ensures WatchedSame(old(a.bytes), a.bytes, b)
  {
    match call
    case Kallocate(objsize, num, align, base) =>
      PerformKallocate(a, objsize, num, align, base, h, b);
    case Kfree(vaddr) =>
      a.Kfree(vaddr, BlockAt(h.slabs, vaddr));
      KeptSame(old(a.bytes), a.bytes, h.slabs, b);
    case Store(p, v) =>
      PerformStore(a, p, v, h, b);
  }

  /** Over any fair run of calls and stores the headers in memory hold exactly the list that the run
      of list operations gives, and a watched block keeps address, size and every byte. */
  method Replay(a: Allocator, calls: seq<Call>, ghost h: Heap, ghost b: Watched)
    requires a.Valid() && a.slabs == h.slabs && Watching(h.slabs, b) && FairRun(h, calls, b)
    modifies a
    ensures LegalRun(Anywhere, h, OpsOf(h, calls, b))
    ensures a.Valid() && a.slabs == Run(Anywhere, h, OpsOf(h, calls, b)).slabs
    ensures Watching(a.slabs, b) && WatchedSame(old(a.bytes), a.bytes, b)
    ensures a.log == old(a.log) + AllStores(h, calls, b)
    decreases |calls|
  {
    FairRunLegal(h, calls, b);
    if |calls| > 0 {
      FairKeeps(h, calls[0], b);
      Perform(a, calls[0], h, b);
      ghost var h1 := After(h, calls[0], b);
      Regroup(old(a.log), StoresOf(h.slabs, calls[0]), AllStores(h1, calls[1..], b));
      Replay(a, calls[1..], h1, b);
    }
  }

  /** The same from init, for any fair run, also one that frees every block. Sizes then add up to the
      pages acquired, and ends and addresses agree modulo the page size, in any order of pages. */
  method ReplayFromInit(base0: nat, calls: seq<Call>) returns (a: Allocator)
    requires base0 != NULL && base0 + PAGE <= W64 && FairRun(Fresh(base0), calls, None)
    ensures fresh(a) && a.Valid()
    ensures LegalRun(Anywhere, Fresh(base0), OpsOf(Fresh(base0), calls, None))
    ensures a.slabs == Run(Anywhere, Fresh(base0), OpsOf(Fresh(base0), calls, None)).slabs
    ensures a.log == [base0] + AllStores(Fresh(base0), calls, None)
    ensures base0 % PAGE == 0 ==> Sound(Anywhere, Run(Anywhere, Fresh(base0), OpsOf(Fresh(base0), calls, None)))
  {
    if base0 % PAGE == 0 {
      FreshSound(Anywhere, base0);
      FairRunLegal(Fresh(base0), calls, None);
      RunSound(Anywhere, Fresh(base0), OpsOf(Fresh(base0), calls, None));
    }
    a := new Allocator(base0);
    Replay(a, calls, Fresh(base0), None);
  }
}
