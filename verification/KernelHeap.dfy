/** The kernel allocator over memory that holds both headers and payload bytes. */
module KernelHeap {
  import opened Slabs
  import opened SlabRuns
  import opened SlabIntact
  import opened SlabMemory
  import opened HeaderStores
  import opened Words

  const NULL: nat := 0

  /** Split and Merge with sizes reduced modulo 2^64, as the machine computes them. */
  function Split64(s: seq<Slab>, k: nat, n: nat): seq<Slab>
    requires k < |s|
  {
    s[..k] + [s[k].(size := n), Slab(s[k].addr + HEADER + n, (s[k].size - n - HEADER) % W64, true)] + s[k + 1..]
  }

  function Merge64(s: seq<Slab>, k: nat): seq<Slab>
    requires k + 1 < |s|
  {
    s[..k] + [Slab(s[k].addr, (s[k].size + s[k + 1].size + HEADER) % W64, true)] + s[k + 2..]
  }

  // ---------------------------------------------------------------- memory

  type Bytes = map<nat, bv8>

  /** A header written at a replaces the payload bytes that were there. */
  function Scrub(b: Bytes, a: nat): Bytes {
    map p | p in b && !(a <= p < a + HEADER) :: b[p]
  }

  ghost predicate HarmlessAt(s: seq<Slab>, a: nat, i: nat)
    requires i < |s|
  {
    s[i].addr == a || VacantAt(s, a, i)
  }

  /** A header at a overlaps no other header of the list and no payload in use. */
  ghost predicate Harmless(s: seq<Slab>, a: nat) {
    forall i :: 0 <= i < |s| ==> HarmlessAt(s, a, i)
  }

  ghost predicate KeptAt(b0: Bytes, b1: Bytes, s: seq<Slab>, i: nat)
    requires i < |s|
  {
    !s[i].free ==>
      forall p :: s[i].Payload() <= p < s[i].End() ==> (p in b0 <==> p in b1) && (p in b0 ==> b0[p] == b1[p])
  }

  /** Every payload in use in s has the same bytes in b0 and b1. */
  ghost predicate Kept(b0: Bytes, b1: Bytes, s: seq<Slab>) {
    forall i :: 0 <= i < |s| ==> KeptAt(b0, b1, s, i)
  }

  lemma ScrubKept(b0: Bytes, b1: Bytes, s: seq<Slab>, a: nat)
    requires Kept(b0, b1, s) && Harmless(s, a)
    ensures Kept(b0, Scrub(b1, a), s)
  {
    forall i | 0 <= i < |s|
      ensures KeptAt(b0, Scrub(b1, a), s, i)
    {
      assert KeptAt(b0, b1, s, i) && HarmlessAt(s, a, i);
    }
  }

  lemma HarmlessHeader(s: seq<Slab>, k: nat)
    requires Intact(s) && k < |s|
    ensures Harmless(s, s[k].addr)
  {
    IntactAt(s, k);
  }

  lemma VacantHarmless(s: seq<Slab>, a: nat)
    requires Vacant(s, a)
    ensures Harmless(s, a) && Unused(s, a)
  {
    forall i | 0 <= i < |s|
      ensures HarmlessAt(s, a, i) && s[i].addr != a
    {
      assert VacantAt(s, a, i);
    }
  }

  lemma HarmlessPrefix(s: seq<Slab>, t: seq<Slab>, a: nat)
    requires s <= t && Harmless(t, a)
    ensures Harmless(s, a)
  {
    forall i | 0 <= i < |s|
      ensures HarmlessAt(s, a, i)
    {
      assert HarmlessAt(t, a, i);
    }
  }

  lemma IntactDistinct(s: seq<Slab>)
    requires Intact(s)
    ensures Distinct(s)
  {
    forall i, j | 0 <= i < j < |s|
      ensures s[i].addr != s[j].addr
    {
      IntactDistinctAddresses(s, i, j);
    }
  }

  predicate Splittable(s: seq<Slab>, k: nat) { k < |s| && s[k].free }

  lemma Split64Intact(s: seq<Slab>, k: nat, n: nat)
    requires Intact(s) && Splittable(s, k) && Vacant(s, s[k].addr + HEADER + n)
    ensures Intact(Split64(s, k, n))
  {
    var r, a := Split64(s, k, n), s[k].addr + HEADER + n;
    forall i, j | 0 <= i < j < |r|
      ensures Asunder(r, i, j)
    {
      var i', j' := if i <= k then i else i - 1, if j <= k then j else j - 1;
      if i == k + 1 {
        assert VacantAt(s, a, j');
      } else if j == k + 1 {
        assert VacantAt(s, a, i');
      } else {
        assert Asunder(s, i', j');
      }
    }
  }

  lemma Split64NotNull(s: seq<Slab>, k: nat, n: nat)
    requires NotNull(s) && k < |s|
    ensures NotNull(Split64(s, k, n))
  {
    var r := Split64(s, k, n);
    forall i | 0 <= i < |r|
      ensures NotNullAt(r, i)
    {
      assert NotNullAt(s, if i <= k then i else i - 1);
    }
  }

  lemma Merge64NotNull(s: seq<Slab>, k: nat)
    requires NotNull(s) && k + 1 < |s|
    ensures NotNull(Merge64(s, k))
  {
    var r := Merge64(s, k);
    forall i | 0 <= i < |r|
      ensures NotNullAt(r, i)
    {
      assert NotNullAt(s, if i <= k then i else i + 1);
    }
  }

  /** What the stores of a bifurcation need to know about the list before and after. */
  lemma SplitReady(m: Headers, s: seq<Slab>, k: nat, n: nat) returns (r: seq<Slab>)
    requires Intact(s) && NotNull(s) && Linked(m, s) && Splittable(s, k) && Vacant(s, s[k].addr + HEADER + n)
    ensures r == Split64(s, k, n) && SplitShape(s, r, k, n) && Intact(r) && NotNull(r)
    ensures Harmless(s, s[k].addr) && Harmless(s, Next(s, k)) && Harmless(s, s[k].addr + HEADER + n)
    ensures HeaderAt(m, s, k) && HeaderAt(m, s, Successor(s, k))
    ensures s[k].addr + HEADER + n != Next(s, k)
    ensures r[k + 1].size == (s[k].size - n - HEADER) % W64
    ensures Linked(LinkSplit(m, s[k].addr, s[k].addr + HEADER + n, n, r[k + 1].size), r)
  {
    r := Split64(s, k, n);
    IntactDistinct(s);
    HarmlessHeader(s, k);
    HarmlessHeader(s, Successor(s, k));
    VacantHarmless(s, s[k].addr + HEADER + n);
    Split64Intact(s, k, n);
    Split64NotNull(s, k, n);
    assert HeaderAt(m, s, k) && HeaderAt(m, s, Successor(s, k));
    SplitLinked(m, s, r, k, n);
  }

  predicate Mergeable(s: seq<Slab>, k: nat) { k + 1 < |s| && s[k].free && s[k + 1].free }

  /** What the stores of a merge need to know about the list before and after. */
  lemma MergeReady(m: Headers, s: seq<Slab>, k: nat) returns (r: seq<Slab>)
    requires Intact(s) && NotNull(s) && Linked(m, s) && Mergeable(s, k)
    ensures r == Merge64(s, k) && Intact(r) && NotNull(r) && 0 < |r| && r[0].addr == s[0].addr
    ensures HeaderAt(m, s, k) && HeaderAt(m, s, k + 1)
    ensures Harmless(s, s[k].addr) && Harmless(s, Next(s, k + 1)) && s[k].addr != s[k + 1].addr
    ensures var a, gone, size := s[k].addr, s[k + 1].addr, (s[k].size + s[k + 1].size + HEADER) % W64;
      && m[a].next == gone && m[gone].previous == a && m[gone].next in m && m[gone].next != gone
      && Linked(LinkMergeNext(m, a, size), r)
      && Linked(LinkMergePrevious(m, gone, size), r)
  {
    r := Merge64(s, k);
    IntactDistinct(s);
    IntactAt(s, k + 1);
    HarmlessHeader(s, k);
    HarmlessHeader(s, Successor(s, k + 1));
    assert HeaderAt(m, s, k) && HeaderAt(m, s, k + 1);
    assert r[k].size == (s[k].size + s[k + 1].size + HEADER) % W64;
    MergeLinked(m, s, r, k);
    FewerIntact(s, r, k, 1);
    Merge64NotNull(s, k);
  }

  /** kfree stores only into headers of the list. */
  lemma FreeHarmless(s: seq<Slab>, k: nat)
    requires Intact(s) && k < |s|
    ensures Harmless(s, s[0].addr) && Harmless(s, s[k].addr)
    ensures 0 < k ==> Harmless(s, s[k - 1].addr)
    ensures k + 1 < |s| ==> Harmless(s, s[k + 1].addr)
    ensures k + 2 < |s| ==> Harmless(s, s[k + 2].addr)
    ensures forall i {:trigger s[i]} :: 0 < i < |s| ==> s[i].addr != s[0].addr
  {
    IntactAt(s, 0);
    HarmlessHeader(s, 0);
    HarmlessHeader(s, k);
    if 0 < k { HarmlessHeader(s, k - 1); }
    if k + 1 < |s| { HarmlessHeader(s, k + 1); }
    if k + 2 < |s| { HarmlessHeader(s, k + 2); }
  }

  /** Coalescing with the next slab leaves the slabs up to k where they are. */
  lemma JoinedBounds(m: seq<Slab>, k: nat)
    requires k < |m| && m[k].free
    ensures var r := JoinNext(m, k);
      && k < |r| && r[k].addr == m[k].addr && r[k].free && (0 < k ==> r[k - 1] == m[k - 1])
      && Next(r, k) == (if |r| < |m| then Next(m, k + 1) else Next(m, k))
  {
    if k + 1 < |m| && m[k + 1].free { MergeAt(m, k); }
  }

  /** The 64-bit arithmetic of the bifurcation computes the size of the rest, negative
      when a header does not fit. */
  lemma RestSize(size: nat, n: nat)
    requires n <= size && size + HEADER <= W63
    ensures Signed(Signed((size + HEADER) % W64 - n - HEADER) - HEADER) == size - n - HEADER
  {
  }

  lemma SplitExact(s: seq<Slab>, k: nat, n: nat)
    requires k < |s| && n + HEADER <= s[k].size < W64
    ensures Split64(s, k, n) == Split(s, k, n)
  {
  }

  /** Growing, splitting the old tail and merging the new pages into the header split
      off, in 64-bit arithmetic, is AlignTail even when no page is asked for. */
  lemma AlignTailSteps(s: seq<Slab>, base: nat, pages: nat)
    requires 0 < |s| && TailHasRoom(s) && Last(s).size < W64 && pages * PAGE < W64
    ensures var t, n := |s| - 1, Last(s).size - HEADER;
      var g := s + [Slab(base, (pages * PAGE - HEADER) % W64, true)];
      var b := Split64(g, t, n);
      && Splittable(g, t) && Next(g, t) == base && g[t] == Last(s)
      && Mergeable(b, t + 1) && Next(b, t + 2) == s[0].addr && b[t + 1].addr == Last(s).End() - HEADER
      && Merge64(b, t + 1) == AlignTail(s, pages)
      && Last(AlignTail(s, pages)).addr == b[t + 1].addr && Last(AlignTail(s, pages)).free
  {
    var t, n := |s| - 1, Last(s).size - HEADER;
    var g := s + [Slab(base, (pages * PAGE - HEADER) % W64, true)];
    var b := Split64(g, t, n);
    assert b == s[..t] + [Last(s).(size := n), Slab(Last(s).End() - HEADER, 0, true), g[t + 1]];
    assert (HEADER + (pages * PAGE - HEADER) % W64) % W64 == pages * PAGE;
    assert Merge64(b, t + 1) == s[..t] + [Last(s).(size := n), Slab(Last(s).End() - HEADER, pages * PAGE, true)];
    assert AlignTail(s, pages) == s[..t] + [Last(s).(size := n), Slab(Last(s).End() - HEADER, pages * PAGE, true)];
  }

  /** The two bifurcations and the merge of the other branch, in 64-bit arithmetic. */
  lemma AlignFreshSteps(s: seq<Slab>, base: nat, pages: nat)
    requires 0 < |s| && (pages + 1) * PAGE < W64
    ensures var k := |s|;
      var g := s + [Slab(base, ((pages + 1) * PAGE - HEADER) % W64, true)];
      var b := Split64(g, k, PAGE - HEADER);
      var c := Split64(b, k, PAGE - 2 * HEADER);
      && Splittable(g, k) && Next(g, k) == s[0].addr && g[k].addr == base
      && Splittable(b, k) && Next(b, k) == base + PAGE && b[k].addr == base
      && Mergeable(c, k + 1) && Next(c, k + 2) == s[0].addr && c[k + 1].addr == base + PAGE - HEADER
      && Merge64(c, k + 1) == AlignFresh(s, base, pages)
      && Last(AlignFresh(s, base, pages)).addr == base + PAGE - HEADER && Last(AlignFresh(s, base, pages)).free
  {
    var k := |s|;
    var g := s + [Slab(base, ((pages + 1) * PAGE - HEADER) % W64, true)];
    var b := Split64(g, k, PAGE - HEADER);
    var c := Split64(b, k, PAGE - 2 * HEADER);
    var rest := (pages * PAGE - HEADER) % W64;
    assert b == s + [Slab(base, PAGE - HEADER, true), Slab(base + PAGE, rest, true)];
    assert c == s + [
      Slab(base, PAGE - 2 * HEADER, true), Slab(base + PAGE - HEADER, 0, true), Slab(base + PAGE, rest, true)];
    assert (HEADER + rest) % W64 == pages * PAGE;
    assert Merge64(c, k + 1) == s + [
      Slab(base, PAGE - 2 * HEADER, true), Slab(base + PAGE - HEADER, pages * PAGE, true)];
  }

  /** As long as all slabs together are at most 2^63 bytes the 64-bit sum of a merge is exact. */
  lemma MergeExact(s: seq<Slab>, k: nat)
    requires k + 1 < |s| && Footprint(s) <= W63
    ensures Merge64(s, k) == Merge(s, k) && Merge(s, k)[0].addr == s[0].addr
  {
    MergeNoWrap(s, k);
    MergeSame(s, k);
  }

  lemma MergeSame(s: seq<Slab>, k: nat)
    requires k + 1 < |s| && (s[k].size + s[k + 1].size + HEADER) % W64 == s[k].size + s[k + 1].size + HEADER
    ensures Merge64(s, k) == Merge(s, k) && Merge(s, k)[0].addr == s[0].addr
  {
  }

  lemma MergeNoWrap(s: seq<Slab>, k: nat)
    requires k + 1 < |s| && Footprint(s) <= W63
    ensures (s[k].size + s[k + 1].size + HEADER) % W64 == s[k].size + s[k + 1].size + HEADER
  {
    FootprintTwo(s, k);
  }

  /** The page count that plain kallocate computes, in 64-bit arithmetic. */
  function PageCount(n: nat): nat {
    var bytes := (n + HEADER) % W64;
    bytes / PAGE + if bytes % PAGE != 0 then 1 else 0
  }

  /** It is the number of pages needed exactly for the requests whose sum with the header
      does not wrap. The others get almost nothing: 2^64 - 32 bytes ask for no page, and
      create_new_pages then makes a slab that claims to hold them. */
  lemma PageCountExactly(n: nat)
    requires n < W64
    ensures PageCount(n) == PagesFor(n) <==> n + HEADER < W64
    ensures n + HEADER >= W64 ==> PageCount(n) <= 1
    ensures n + HEADER == W64 ==> PageCount(n) == 0 && (PageCount(n) * PAGE - HEADER) % W64 == n
  {
    if n + HEADER >= W64 {
      assert (n + HEADER) % W64 == n + HEADER - W64 < HEADER;
    }
  }

  // ---------------------------------------------------------------- what a call needs

  /** Every header lies in the 64-bit address space. */
  ghost predicate InSpace(stores: seq<nat>) { forall a :: a in stores ==> a + HEADER <= W64 }

  /** Plain kallocate keeps headers and payloads in use apart, and sizes below 2^63. */
  ghost predicate PlainClear(s: seq<Slab>, n: nat, base: nat) {
    && 0 < |s| && n < W64 && (FirstFit(s, n) == |s| ==> base != NULL)
    && Intact(AllocPlain(s, n, base)) && Footprint(AllocPlain(s, n, base)) <= W63
    && InSpace(PlainStores(s, n, base))
  }

  /** The headers that the aligned path writes and merges away again hit nothing. */
  ghost predicate AlignedVacant(s: seq<Slab>, base: nat)
    requires 0 < |s|
  {
    && base != NULL && Vacant(s, base)
    && if TailHasRoom(s) then base + HEADER <= Last(s).End() - HEADER || Last(s).End() <= base
       else Vacant(s, base + PAGE)
  }

  ghost predicate AlignedClear(s: seq<Slab>, n: nat, base: nat) {
    && 0 < |s|
    && Intact(AllocAligned(s, n, base)) && Footprint(AllocAligned(s, n, base)) <= W63
    && InSpace(AlignedStores(s, base)) && AlignedVacant(s, base)
  }

  /** A plain call that has to grow finds the place of its first header vacant. */
  lemma GrownVacant(s: seq<Slab>, n: nat, base: nat)
    requires FirstFit(s, n) == |s| && Intact(AllocPlain(s, n, base))
    ensures Vacant(s, base)
  {
    var t := Grow(s, base, PagesFor(n));
    if n + HEADER < t[|s|].size { SplitAt(t, |s|, n); }
    LastVacant(s, AllocPlain(s, n, base), |s|);
  }

  /** So does an aligned call for the header of its block. */
  lemma BlockVacant(s: seq<Slab>, n: nat, base: nat)
    requires 0 < |s| && Intact(AllocAligned(s, n, base))
    ensures Vacant(s, BlockHeader(s, base))
  {
    var r := AllocAligned(s, n, base);
    if TailHasRoom(s) {
      SplitAt(s, |s| - 1, Last(s).size - HEADER);
    } else {
      SplitAt(Grow(s, base, WholePages(n) + 1), |s|, PAGE - 2 * HEADER);
    }
    LastVacant(s, r, |r| - 1);
  }

  /** Splitting off a header elsewhere keeps a place vacant. */
  lemma VacantBesides(s: seq<Slab>, r: seq<Slab>, k: nat, a: nat)
    requires Vacant(s, a) && k < |s| && s[k].free && |r| == |s| + 1 && k == |s| - 1
    requires (forall i {:trigger r[i]} :: 0 <= i < k ==> r[i] == s[i]) && r[k].addr == s[k].addr && r[k].free
    requires r[k + 1].free && (a + HEADER <= r[k + 1].addr || r[k + 1].Payload() <= a)
    ensures Vacant(r, a)
  {
    forall i | 0 <= i < |r|
      ensures VacantAt(r, a, i)
    {
      if i <= k { assert VacantAt(s, a, i); }
    }
  }

  /** What the two branches of the aligned path need. */
  lemma AlignedReady(s: seq<Slab>, n: nat, base: nat)
    requires AlignedClear(s, n, base)
    ensures Last(s).size < W64 && AlignedPages(s, n) * PAGE < W64
    ensures Vacant(s, BlockHeader(s, base))
  {
    AlignedFootprint(s, n, base);
    FootprintPart(s, |s| - 1);
    BlockVacant(s, n, base);
  }

  /** What growing for a plain request needs, and what it leaves. */
  lemma PlainReady(s: seq<Slab>, n: nat, base: nat)
    requires PlainClear(s, n, base) && FirstFit(s, n) == |s|
    ensures Vacant(s, base) && base != NULL && n + HEADER < W64 && PagesFor(n) * PAGE < W64
    ensures Footprint(Grow(s, base, PagesFor(n))) <= W63
  {
    PlainFootprint(s, n, base);
    GrownVacant(s, n, base);
    GrowFootprint(s, base, PagesFor(n));
  }

  lemma VacantSnoc(s: seq<Slab>, x: Slab, a: nat)
    requires Vacant(s, a) && (a + HEADER <= x.addr || BusyEnd(x) <= a)
    ensures Vacant(s + [x], a)
  {
    forall i | 0 <= i < |s + [x]|
      ensures VacantAt(s + [x], a, i)
    {
      if i < |s| { assert VacantAt(s, a, i); }
    }
  }

  ghost predicate NotNullAt(s: seq<Slab>, i: nat)
    requires i < |s|
  {
    s[i].addr != NULL
  }

  /** No header is at the address that means none. */
  ghost predicate NotNull(s: seq<Slab>) { forall i :: 0 <= i < |s| ==> NotNullAt(s, i) }

  lemma NotNullSnoc(s: seq<Slab>, x: Slab)
    requires NotNull(s) && x.addr != NULL
    ensures NotNull(s + [x])
  {
    forall i | 0 <= i < |s + [x]|
      ensures NotNullAt(s + [x], i)
    {
      assert i < |s| ==> NotNullAt(s, i);
    }
  }

  lemma NotNullMark(s: seq<Slab>, k: nat, free: bool)
    requires NotNull(s) && k < |s|
    ensures NotNull(Mark(s, k, free))
  {
    forall i | 0 <= i < |s|
      ensures NotNullAt(Mark(s, k, free), i)
    {
      assert NotNullAt(s, i);
    }
  }

  class Allocator {
    var headers: Headers
    var bytes: Bytes
    var slabHead: nat

    // The list that the headers hold.
    ghost var slabs: seq<Slab>
    // Where headers have been written, in order.
    ghost var log: seq<nat>

    ghost predicate Ring()
      reads this
    {
      && 0 < |slabs|
      && slabHead == slabs[0].addr
      && Intact(slabs) && NotNull(slabs)
      && Linked(headers, slabs)
    }

    /** The ring holds the list, and all slabs together are at most 2^63 bytes. */
    ghost predicate Valid()
      reads this
    {
      Ring() && Footprint(slabs) <= W63
    }

    /** init: the first page, and a ring of one slab linked to itself. */
    constructor (base: nat)
      requires base != NULL && base + PAGE <= W64
      ensures Valid() && slabHead == base && slabs == [Slab(base, PAGE - HEADER, true)] && log == [base]
    {
      headers := map[base := Header(base, base, PAGE - HEADER, true, false, false)];
      bytes := map[];
      slabHead := base;
      slabs := [Slab(base, PAGE - HEADER, true)];
      log := [base];
      FootprintOne(Slab(base, PAGE - HEADER, true));
    }

    /** One header store. s0 and b0 are the list and the bytes when the call began. */
    method StoreHeader(a: nat, h: Header, ghost s0: seq<Slab>, ghost b0: Bytes)
      requires Harmless(slabs, a) && Harmless(s0, a) && Kept(b0, bytes, s0)
      modifies this`headers, this`bytes, this`log
      ensures headers == old(headers)[a := h] && bytes == Scrub(old(bytes), a) && log == old(log) + [a]
      ensures Kept(b0, bytes, s0)
    {
      headers := headers[a := h];
      bytes := Scrub(bytes, a);
      log := log + [a];
      ScrubKept(b0, old(bytes), s0, a);
    }

    method FindLastSlab() returns (tail: nat)
      requires Ring()
      ensures tail == Last(slabs).addr
    {
      assert HeaderAt(headers, slabs, 0);
      tail := headers[slabHead].previous;
    }

    /** base is the virtual address of the frames that the frame allocator returned. */
    method CreateNewPages(numPages: nat, base: nat, ghost s0: seq<Slab>, ghost b0: Bytes) returns (slab: nat)
      requires Ring() && s0 == slabs && Kept(b0, bytes, s0) && Vacant(slabs, base) && base != NULL
      modifies this`headers, this`bytes, this`slabs, this`log
      ensures Ring() && slab == base && Kept(b0, bytes, s0)
      ensures slabs == old(slabs) + [Slab(base, (numPages * PAGE - HEADER) % W64, true)]
      ensures log == old(log) + GrowStores(old(slabs), base)
    {
      var slabSize := numPages * PAGE % W64;
      var size := (slabSize - HEADER) % W64;
      assert size == (numPages * PAGE - HEADER) % W64;
      IntactDistinct(slabs);
      VacantHarmless(slabs, base);
      HarmlessHeader(slabs, 0);
      HarmlessHeader(slabs, |slabs| - 1);
      GrowLinked(headers, slabs, base, size);
      StoreHeader(base, Header(base, base, size, true, false, false), s0, b0);
      assert HeaderAt(old(headers), slabs, 0);
      var lastSlab := headers[slabHead].previous;
      StoreHeader(lastSlab, headers[lastSlab].(next := base), s0, b0);
      StoreHeader(base, headers[base].(previous := lastSlab), s0, b0);
      StoreHeader(base, headers[base].(next := slabHead), s0, b0);
      StoreHeader(slabHead, headers[slabHead].(previous := base), s0, b0);
      slabs := slabs + [Slab(base, size, true)];
      SnocIntact(old(slabs), Slab(base, size, true));
      NotNullSnoc(old(slabs), Slab(base, size, true));
      slab := base;
    }

    /** First fit by walking the ring from the head; the tail is checked after the loop. */
    method FindFreeSlab(size: nat, readonly: bool, executable: bool) returns (slab: nat)
      requires Ring()
      ensures !readonly && !executable ==>
        slab == if FirstFit(slabs, size) < |slabs| then slabs[FirstFit(slabs, size)].addr else NULL
      ensures readonly || executable ==> slab == NULL
    {
      var cur := slabHead;
      ghost var i := 0;
      IntactAt(slabs, 0);
      assert HeaderAt(headers, slabs, 0);
      while headers[cur].next != slabHead
        invariant 0 <= i < |slabs| && cur == slabs[i].addr && HeaderAt(headers, slabs, i)
        invariant forall j :: 0 <= j < i ==> !slabs[j].Fits(size) || readonly || executable
        decreases |slabs| - i
      {
        if headers[cur].isFree && headers[cur].size >= size
          && headers[cur].isReadonly == readonly && headers[cur].isExecutable == executable {
          break;
        }
        assert HeaderAt(headers, slabs, i + 1);
        cur := headers[cur].next;
        i := i + 1;
      }
      if headers[cur].size >= size {
        if headers[cur].isFree && headers[cur].isReadonly == readonly && headers[cur].isExecutable == executable {
          return cur;
        }
      }
      return NULL;
    }

    /** The bifurcation of slab k when n bytes and a header leave room for more. */
    method Bifurcate(slab: nat, n: nat, ghost k: nat, ghost s0: seq<Slab>, ghost b0: Bytes)
      requires Ring() && Splittable(slabs, k) && slabs[k].addr == slab && Vacant(slabs, slab + HEADER + n)
      requires Kept(b0, bytes, s0)
      requires Harmless(s0, slab) && Harmless(s0, slab + HEADER + n) && Harmless(s0, Next(slabs, k))
      modifies this`headers, this`bytes, this`slabs, this`log
      ensures Ring() && slabHead == old(slabHead)
      ensures slabs == Split64(old(slabs), k, n) && Kept(b0, bytes, s0)
      ensures log == old(log) + SplitStores(old(slabs), k, n)
    {
      var newSlab := slab + HEADER + n;
      ghost var r := SplitReady(headers, slabs, k, n);
      var rest := (headers[slab].size - n - HEADER) % W64;
      StoreHeader(slab, headers[slab].(size := n), s0, b0);
      StoreHeader(newSlab,
        Header(headers[slab].next, slab, rest, true, headers[slab].isReadonly, headers[slab].isExecutable), s0, b0);
      StoreHeader(headers[slab].next, headers[headers[slab].next].(previous := newSlab), s0, b0);
      StoreHeader(slab, headers[slab].(next := newSlab), s0, b0);
      slabs := r;
    }

    method SetFreeFlag(slab: nat, isFree: bool, ghost k: nat, ghost s0: seq<Slab>, ghost b0: Bytes)
      requires Ring() && k < |slabs| && slabs[k].addr == slab
      requires Kept(b0, bytes, s0) && Harmless(s0, slab) && Intact(Mark(slabs, k, isFree))
      modifies this`headers, this`bytes, this`slabs, this`log
      ensures Ring() && slabs == Mark(old(slabs), k, isFree) && Kept(b0, bytes, s0)
      ensures log == old(log) + [slab]
    {
      IntactDistinct(slabs);
      HarmlessHeader(slabs, k);
      MarkLinked(headers, slabs, k, isFree);
      StoreHeader(slab, headers[slab].(isFree := isFree), s0, b0);
      NotNullMark(slabs, k, isFree);
      slabs := Mark(slabs, k, isFree);
    }

    /** The last part of plain kallocate: split if the rest is worth a slab, mark used. */
    method Carve(slab: nat, n: nat, ghost k: nat, ghost s0: seq<Slab>, ghost b0: Bytes)
      requires Valid() && k < |slabs| && slabs[k].addr == slab && slabs[k].Fits(n)
      requires Kept(b0, bytes, s0) && s0 <= slabs && Intact(Slabs.Carve(slabs, k, n))
      modifies this`headers, this`bytes, this`slabs, this`log
      ensures Ring() && slabs == Slabs.Carve(old(slabs), k, n) && Kept(b0, bytes, s0)
      ensures log == old(log) + CarveStores(old(slabs), k, n)
    {
      HarmlessHeader(slabs, k);
      HarmlessHeader(slabs, Successor(slabs, k));
      HarmlessPrefix(s0, slabs, slab);
      HarmlessPrefix(s0, slabs, Next(slabs, k));
      FootprintPart(slabs, k);
      assert HeaderAt(headers, slabs, k);
      var size := headers[slab].size;
      if size > n {
        var oldFullSize := (size + HEADER) % W64;
        var newFullSize := Signed(oldFullSize - n - HEADER);
        var newSize := Signed(newFullSize - HEADER);
        RestSize(size, n);
        if newSize > 0 {
          SplitExact(slabs, k, n);
          CarveVacant(slabs, k, n);
          VacantHarmless(slabs, slab + HEADER + n);
          HarmlessPrefix(s0, slabs, slab + HEADER + n);
          Bifurcate(slab, n, k, s0, b0);
        }
      } else {
        StoreHeader(slab, headers[slab].(size := n, isReadonly := false, isExecutable := false), s0, b0);
        assert headers == old(headers);
      }
      SetFreeFlag(slab, false, k, s0, b0);
    }

    method FindOrGrow(n: nat, base: nat) returns (slab: nat)
      requires Valid() && PlainClear(slabs, n, base)
      modifies this`headers, this`bytes, this`slabs, this`log
      ensures Valid() && slabHead == old(slabHead) && Kept(old(bytes), bytes, old(slabs)) && old(slabs) <= slabs
      ensures var k := FirstFit(old(slabs), n);
        && slabs == (if k < |old(slabs)| then old(slabs) else Grow(old(slabs), base, PagesFor(n)))
        && slab == slabs[k].addr && slabs[k].Fits(n)
        && log == old(log) + (if k < |old(slabs)| then [] else GrowStores(old(slabs), base))
    {
      ghost var k := FirstFit(slabs, n);
      slab := FindFreeSlab(n, false, false);
      if k < |slabs| {
        assert HeaderAt(headers, slabs, k) && NotNullAt(slabs, k);
      }
      if slab == NULL || headers[slab].size < n {
        // Room for both the object and the slab_t, rounded up to whole pages.
        var numPages := (n + HEADER) % W64 / PAGE;
        if (n + HEADER) % W64 % PAGE != 0 {
          numPages := numPages + 1;
        }
        PageCountExactly(n);
        PlainReady(slabs, n, base);
        slab := CreateNewPages(numPages, base, slabs, bytes);
      }
    }

    method KallocatePlain(n: nat, base: nat) returns (ptr: nat)
      requires Valid() && PlainClear(slabs, n, base)
      modifies this`headers, this`bytes, this`slabs, this`log
      ensures Valid() && slabHead == old(slabHead)
      ensures slabs == AllocPlain(old(slabs), n, base)
      ensures FirstFit(old(slabs), n) < |slabs| && ptr == slabs[FirstFit(old(slabs), n)].Payload()
      ensures Kept(old(bytes), bytes, old(slabs)) && log == old(log) + PlainStores(old(slabs), n, base)
    {
      ghost var s0, b0 := slabs, bytes;
      var slab := FindOrGrow(n, base);
      PlainFootprint(s0, n, base);
      PlainParts(s0, slabs, if FirstFit(s0, n) < |s0| then [] else GrowStores(s0, base), n, base, old(log));
      Carve(slab, n, FirstFit(s0, n), s0, b0);
      ptr := slab + HEADER;
    }

    /** First half of kfree's coalescing: the slab swallows its list successor. */
    method CoalesceNext(slab: nat, ghost k: nat, ghost s0: seq<Slab>, ghost b0: Bytes)
      requires Ring() && Mergeable(slabs, k) && slabs[k].addr == slab
      requires Kept(b0, bytes, s0) && Harmless(s0, slab) && Harmless(s0, Next(slabs, k + 1))
      modifies this`headers, this`bytes, this`slabs, this`log
      ensures Ring() && slabHead == old(slabHead)
      ensures slabs == Merge64(old(slabs), k) && Kept(b0, bytes, s0)
      ensures log == old(log) + MergeNextStores(old(slabs), k)
    {
      ghost var r := MergeReady(headers, slabs, k);
      var oldNext := headers[slab].next;
      if headers[slab].isReadonly == headers[oldNext].isReadonly
        && headers[slab].isExecutable == headers[oldNext].isExecutable {
        StoreHeader(slab, headers[slab].(next := headers[oldNext].next), s0, b0);
        StoreHeader(headers[slab].next, headers[headers[slab].next].(previous := slab), s0, b0);
        var size := (headers[slab].size + headers[oldNext].size + HEADER) % W64;
        StoreHeader(slab, headers[slab].(size := size,
          isReadonly := headers[oldNext].isReadonly, isExecutable := headers[oldNext].isExecutable), s0, b0);
        slabs := r;
      }
    }

    /** Second half: the list predecessor swallows the slab. */
    method CoalescePrevious(slab: nat, ghost k: nat, ghost s0: seq<Slab>, ghost b0: Bytes)
      requires Ring() && Mergeable(slabs, k) && slabs[k + 1].addr == slab
      requires Kept(b0, bytes, s0) && Harmless(s0, slabs[k].addr) && Harmless(s0, Next(slabs, k + 1))
      modifies this`headers, this`bytes, this`slabs, this`log
      ensures Ring() && slabHead == old(slabHead)
      ensures slabs == Merge64(old(slabs), k) && Kept(b0, bytes, s0)
      ensures log == old(log) + MergePreviousStores(old(slabs), k)
    {
      ghost var r := MergeReady(headers, slabs, k);
      if headers[slab].isReadonly == headers[headers[slab].previous].isReadonly
        && headers[slab].isExecutable == headers[headers[slab].previous].isExecutable {
        var rhs := headers[slab].next;
        var lhs := headers[slab].previous;
        StoreHeader(rhs, headers[rhs].(previous := lhs), s0, b0);
        StoreHeader(lhs, headers[lhs].(next := rhs), s0, b0);
        var size := (headers[lhs].size + headers[slab].size + HEADER) % W64;
        StoreHeader(lhs, headers[lhs].(size := size,
          isReadonly := headers[slab].isReadonly, isExecutable := headers[slab].isExecutable), s0, b0);
        slabs := r;
      }
    }

    method JoinNext(slab: nat, ghost k: nat, ghost s0: seq<Slab>, ghost b0: Bytes)
      requires Valid() && k < |slabs| && slabs[k].addr == slab && slabs[k].free
      requires Kept(b0, bytes, s0) && Harmless(s0, slab) && (k + 1 < |slabs| ==> Harmless(s0, Next(slabs, k + 1)))
      modifies this`headers, this`bytes, this`slabs, this`log
      ensures Valid() && slabHead == old(slabHead) && Kept(b0, bytes, s0)
      ensures slabs == Slabs.JoinNext(old(slabs), k)
      ensures log == old(log) + JoinNextStores(old(slabs), k)
    {
      FreeHarmless(slabs, k);
      assert HeaderAt(headers, slabs, k) && HeaderAt(headers, slabs, Successor(slabs, k));
      if headers[slab].next != slabHead && headers[headers[slab].next].isFree {
        MergeExact(slabs, k);
        MergeFootprint(slabs, k);
        CoalesceNext(slab, k, s0, b0);
      }
    }

    method JoinPrevious(slab: nat, ghost k: nat, ghost s0: seq<Slab>, ghost b0: Bytes)
      requires Valid() && k < |slabs| && slabs[k].addr == slab && slabs[k].free
      requires Kept(b0, bytes, s0) && Harmless(s0, Next(slabs, k)) && (0 < k ==> Harmless(s0, slabs[k - 1].addr))
      modifies this`headers, this`bytes, this`slabs, this`log
      ensures Valid() && slabHead == old(slabHead) && Kept(b0, bytes, s0)
      ensures slabs == Slabs.JoinPrevious(old(slabs), k)
      ensures log == old(log) + JoinPreviousStores(old(slabs), k)
    {
      FreeHarmless(slabs, k);
      assert HeaderAt(headers, slabs, k);
      assert 0 < k ==> HeaderAt(headers, slabs, k - 1);
      if slab != slabHead && headers[headers[slab].previous].isFree {
        MergeExact(slabs, k - 1);
        MergeFootprint(slabs, k - 1);
        CoalescePrevious(slab, k - 1, s0, b0);
      }
    }

    /** k is the position of the block that kallocate returned at vaddr. */
    method Kfree(vaddr: nat, ghost k: nat)
      requires Valid() && k < |slabs| && !slabs[k].free && slabs[k].Payload() == vaddr
      modifies this`headers, this`bytes, this`slabs, this`log
      ensures Valid() && slabHead == old(slabHead)
      ensures slabs == FreeAt(old(slabs), k)
      ensures Kept(old(bytes), bytes, old(slabs)) && log == old(log) + FreeStores(old(slabs), k)
    {
      ghost var s0, b0 := slabs, bytes;
      var slab := vaddr - HEADER;
      FreeHarmless(s0, k);
      MarkFreeIntact(s0, k);
      MarkFootprint(s0, k, true);
      SetFreeFlag(slab, true, k, s0, b0);
      ghost var m := slabs;
      JoinedBounds(m, k);
      JoinNext(slab, k, s0, b0);
      Regroup(old(log), [slab], JoinNextStores(m, k));
      Regroup(old(log), [slab] + JoinNextStores(m, k), JoinPreviousStores(slabs, k));
      JoinPrevious(slab, k, s0, b0);
    }

    /** The bifurcation as the aligned path does it: the slab is linked before its successor. */
    method BifurcateLinkFirst(slab: nat, n: nat, next: nat, ghost k: nat, ghost s0: seq<Slab>, ghost b0: Bytes)
      requires Ring() && Splittable(slabs, k) && slabs[k].addr == slab && next == Next(slabs, k)
      requires Kept(b0, bytes, s0) && Vacant(slabs, slab + HEADER + n)
      requires Harmless(s0, slab) && Harmless(s0, slab + HEADER + n) && Harmless(s0, next)
      modifies this`headers, this`bytes, this`slabs, this`log
      ensures Ring() && slabHead == old(slabHead)
      ensures slabs == Split64(old(slabs), k, n) && Kept(b0, bytes, s0)
      ensures log == old(log) + SplitLinkStores(old(slabs), k, n)
    {
      var newSlab := slab + HEADER + n;
      ghost var r := SplitReady(headers, slabs, k, n);
      var rest := (headers[slab].size - n - HEADER) % W64;
      ghost var m := headers;
      SplitOrder(m, slab, newSlab, n, rest);
      StoreHeader(slab, headers[slab].(size := n), s0, b0);
      StoreHeader(newSlab,
        Header(next, slab, rest, true, headers[slab].isReadonly, headers[slab].isExecutable), s0, b0);
      StoreHeader(slab, headers[slab].(next := newSlab), s0, b0);
      StoreHeader(next, headers[next].(previous := newSlab), s0, b0);
      assert headers == LinkSplitFirst(m, slab, newSlab, n, rest);
      slabs := r;
    }

    /** The slab takes the size of its successor, then its place in the ring. */
    method Swallow(slab: nat, ghost k: nat, ghost s0: seq<Slab>, ghost b0: Bytes)
      requires Ring() && Mergeable(slabs, k) && slabs[k].addr == slab && slabs[k].size == 0
      requires Kept(b0, bytes, s0) && Harmless(s0, slab) && Harmless(s0, Next(slabs, k + 1))
      modifies this`headers, this`bytes, this`slabs, this`log
      ensures Ring() && slabHead == old(slabHead)
      ensures slabs == Merge64(old(slabs), k) && Kept(b0, bytes, s0)
      ensures log == old(log) + SwallowStores(old(slabs), k)
    {
      ghost var r := MergeReady(headers, slabs, k);
      ghost var m := headers;
      var gone := headers[slab].next;
      var size := (headers[gone].size + HEADER) % W64;
      StoreHeader(slab, headers[slab].(size := size), s0, b0);
      StoreHeader(slab, headers[slab].(next := headers[gone].next), s0, b0);
      StoreHeader(headers[slab].next, headers[headers[slab].next].(previous := slab), s0, b0);
      assert headers == LinkMergeNext(m, slab, size);
      slabs := r;
    }

    /** The tail is free: its last HEADER bytes become the header of the aligned block,
        which swallows the new pages. */
    method AlignInTail(lastSlab: nat, numPages: nat, base: nat) returns (slab: nat)
      requires Ring() && TailHasRoom(slabs) && Last(slabs).addr == lastSlab && Last(slabs).size < W64
      requires numPages * PAGE < W64 && AlignedVacant(slabs, base) && Vacant(slabs, Last(slabs).End() - HEADER)
      modifies this`headers, this`bytes, this`slabs, this`log
      ensures Ring() && slabHead == old(slabHead) && Kept(old(bytes), bytes, old(slabs))
      ensures slabs == AlignTail(old(slabs), numPages) && slab == Last(slabs).addr && Last(slabs).free
      ensures slab == Last(old(slabs)).End() - HEADER && log == old(log) + TailStores(old(slabs), base)
    {
      ghost var s0, b0, t := slabs, bytes, |slabs| - 1;
      HarmlessHeader(s0, 0);
      HarmlessHeader(s0, t);
      VacantHarmless(s0, base);
      VacantHarmless(s0, Last(s0).End() - HEADER);
      AlignTailSteps(s0, base, numPages);
      assert HeaderAt(headers, slabs, t);
      var lhsNewSize := headers[lastSlab].size - HEADER;
      slab := lastSlab + HEADER + lhsNewSize;
      var newPage := CreateNewPages(numPages, base, s0, b0);
      VacantSnoc(s0, Last(slabs), slab);
      BifurcateLinkFirst(lastSlab, lhsNewSize, newPage, t, s0, b0);
      Swallow(slab, t + 1, s0, b0);
    }

    /** One page more than asked for: the header of the aligned block ends where the
        second page begins. */
    method AlignInFreshPage(numPages: nat, base: nat) returns (slab: nat)
      requires Ring() && (numPages + 1) * PAGE < W64 && !TailHasRoom(slabs)
      requires AlignedVacant(slabs, base) && Vacant(slabs, base + PAGE - HEADER)
      modifies this`headers, this`bytes, this`slabs, this`log
      ensures Ring() && slabHead == old(slabHead) && Kept(old(bytes), bytes, old(slabs))
      ensures slabs == AlignFresh(old(slabs), base, numPages) && slab == Last(slabs).addr && Last(slabs).free
      ensures slab == base + PAGE - HEADER && log == old(log) + FreshStores(old(slabs), base)
    {
      ghost var s0, b0, k := slabs, bytes, |slabs|;
      HarmlessHeader(s0, 0);
      VacantHarmless(s0, base);
      VacantHarmless(s0, base + PAGE);
      VacantHarmless(s0, base + PAGE - HEADER);
      AlignFreshSteps(s0, base, numPages);
      var newPage := CreateNewPages(numPages + 1, base, s0, b0);
      VacantSnoc(s0, Last(slabs), base + PAGE);
      VacantSnoc(s0, Last(slabs), base + PAGE - HEADER);
      ghost var g := slabs;
      BifurcateLinkFirst(newPage, PAGE - HEADER, slabHead, k, s0, b0);
      VacantBesides(g, slabs, k, base + PAGE - HEADER);
      Bifurcate(newPage, PAGE - 2 * HEADER, k, s0, b0);
      slab := newPage + HEADER + (PAGE - 2 * HEADER);
      Swallow(slab, k + 1, s0, b0);
    }

    /** The free slab that the aligned path makes of the new pages. */
    method MakeAligned(n: nat, base: nat) returns (slab: nat)
      requires Ring() && Last(slabs).size < W64 && AlignedPages(slabs, n) * PAGE < W64
      requires AlignedVacant(slabs, base) && Vacant(slabs, BlockHeader(slabs, base))
      modifies this`headers, this`bytes, this`slabs, this`log
      ensures Ring() && slabHead == old(slabHead) && Kept(old(bytes), bytes, old(slabs))
      ensures slabs == Aligning(old(slabs), n, base) && slab == Last(slabs).addr && Harmless(old(slabs), slab)
      ensures slab == BlockHeader(old(slabs), base) && log == old(log) + MakeStores(old(slabs), base)
    {
      ghost var s0 := slabs;
      var lastSlab := FindLastSlab();
      assert HeaderAt(headers, slabs, |slabs| - 1);
      VacantHarmless(s0, BlockHeader(s0, base));
      if headers[lastSlab].size >= HEADER && headers[lastSlab].isFree {
        slab := AlignInTail(lastSlab, n / PAGE, base);
      } else {
        slab := AlignInFreshPage(n / PAGE, base);
      }
    }

    method KallocateAligned(n: nat, base: nat) returns (ptr: nat)
      requires Valid() && AlignedClear(slabs, n, base)
      modifies this`headers, this`bytes, this`slabs, this`log
      ensures Valid() && slabHead == old(slabHead)
      ensures slabs == AllocAligned(old(slabs), n, base) && ptr == Last(slabs).Payload()
      ensures Kept(old(bytes), bytes, old(slabs)) && log == old(log) + AlignedStores(old(slabs), base)
    {
      ghost var s0, b0 := slabs, bytes;
      AlignedReady(s0, n, base);
      var slab := MakeAligned(n, base);
      Regroup(old(log), MakeStores(s0, base), [slab]);
      SetFreeFlag(slab, false, |slabs| - 1, s0, b0);
      ptr := slab + HEADER;
    }

    /** num objects of objsize bytes; the product is a 64-bit one. */
    method Kallocate(objsize: nat, num: nat, align: bool, base: nat) returns (ptr: nat)
      requires Valid()
      requires var n := objsize * num % W64;
        if align then AlignedClear(slabs, n, base) else PlainClear(slabs, n, base)
      modifies this`headers, this`bytes, this`slabs, this`log
      ensures Valid() && slabHead == old(slabHead)
      ensures var n := objsize * num % W64;
        if align then slabs == AllocAligned(old(slabs), n, base) && ptr == Last(slabs).Payload()
        else
          && slabs == AllocPlain(old(slabs), n, base)
          && FirstFit(old(slabs), n) < |slabs| && ptr == slabs[FirstFit(old(slabs), n)].Payload()
      ensures Kept(old(bytes), bytes, old(slabs))
      ensures log == old(log) +
        if align then AlignedStores(old(slabs), base) else PlainStores(old(slabs), objsize * num % W64, base)
    {
      var numbytes := objsize * num % W64;
      if align {
        ptr := KallocateAligned(numbytes, base);
      } else {
        ptr := KallocatePlain(numbytes, base);
      }
    }

    /** The owner of block k writes one of its bytes: no header is hit and every other
        byte in use stays. */
    method WriteByte(p: nat, v: bv8, ghost k: nat)
      requires Valid() && k < |slabs| && !slabs[k].free && slabs[k].Payload() <= p < slabs[k].End()
      modifies this`bytes
      ensures Valid() && bytes == old(bytes)[p := v]
      ensures forall i {:trigger slabs[i]} :: 0 <= i < |slabs| ==>
        && !(slabs[i].addr <= p < slabs[i].Payload())
        && (i != k ==> KeptAt(old(bytes), bytes, slabs, i))
    {
      bytes := bytes[p := v];
      IntactAt(slabs, k);
    }
  }
}
