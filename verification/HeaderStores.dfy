/** The headers that the allocator writes, store by store, and where they lie. */
module HeaderStores {
  import opened Slabs
  import opened SlabRuns
  import opened SlabMemory
  import opened SlabOwnership

  // ---------------------------------------------------------------- addresses, in source order

  /** create_new_pages: the new header, the tail's link, its own two links, the head's link. */
  function GrowStores(s: seq<Slab>, base: nat): seq<nat>
    requires 0 < |s|
  {
    [base, Last(s).addr, base, base, s[0].addr]
  }

  /** The bifurcation of plain kallocate. */
  function SplitStores(s: seq<Slab>, k: nat, n: nat): seq<nat>
    requires k < |s|
  {
    [s[k].addr, s[k].addr + HEADER + n, Next(s, k), s[k].addr]
  }

  /** The first bifurcation of the aligned path links the slab before its successor. */
  function SplitLinkStores(s: seq<Slab>, k: nat, n: nat): seq<nat>
    requires k < |s|
  {
    [s[k].addr, s[k].addr + HEADER + n, s[k].addr, Next(s, k)]
  }

  /** The aligned path lets slab k swallow its successor, size first. */
  function SwallowStores(s: seq<Slab>, k: nat): seq<nat>
    requires k + 1 < |s|
  {
    [s[k].addr, s[k].addr, Next(s, k + 1)]
  }

  function MergeNextStores(s: seq<Slab>, k: nat): seq<nat>
    requires k + 1 < |s|
  {
    [s[k].addr, Next(s, k + 1), s[k].addr]
  }

  function MergePreviousStores(s: seq<Slab>, k: nat): seq<nat>
    requires k + 1 < |s|
  {
    [Next(s, k + 1), s[k].addr, s[k].addr]
  }

  function CarveStores(s: seq<Slab>, k: nat, n: nat): seq<nat>
    requires k < |s|
  {
    (if n + HEADER < s[k].size then SplitStores(s, k, n) else if s[k].size == n then [s[k].addr] else []) + [s[k].addr]
  }

  function PlainStores(s: seq<Slab>, n: nat, base: nat): seq<nat>
    requires 0 < |s|
  {
    var k := FirstFit(s, n);
    if k < |s| then CarveStores(s, k, n)
    else GrowStores(s, base) + CarveStores(Grow(s, base, PagesFor(n)), k, n)
  }

  /** Plain kallocate in two parts: the list to take the block from, then the block. */
  lemma PlainParts(s: seq<Slab>, t: seq<Slab>, grown: seq<nat>, n: nat, base: nat, log: seq<nat>)
    requires 0 < |s|
    requires t == if FirstFit(s, n) < |s| then s else Grow(s, base, PagesFor(n))
    requires grown == if FirstFit(s, n) < |s| then [] else GrowStores(s, base)
    ensures var k := FirstFit(s, n);
      && k < |t| && t[k].Fits(n) && AllocPlain(s, n, base) == Carve(t, k, n)
      && log + grown + CarveStores(t, k, n) == log + PlainStores(s, n, base)
  {
  }

  /** The tail branch: grow, bifurcate the old tail, swallow the new pages. */
  function TailStores(s: seq<Slab>, base: nat): seq<nat>
    requires 0 < |s| && TailHasRoom(s)
  {
    var last, slab := Last(s).addr, Last(s).End() - HEADER;
    GrowStores(s, base) + [last, slab, last, base] + [slab, slab, s[0].addr]
  }

  /** The other branch: grow, bifurcate twice, swallow the second part of the new pages. */
  function FreshStores(s: seq<Slab>, base: nat): seq<nat>
    requires 0 < |s|
  {
    var second, slab := base + PAGE, base + PAGE - HEADER;
    GrowStores(s, base) + [base, second, base, s[0].addr] + [base, slab, second, base] + [slab, slab, s[0].addr]
  }

  /** Where the aligned path puts the header of its block. */
  function BlockHeader(s: seq<Slab>, base: nat): nat
    requires 0 < |s|
  {
    if TailHasRoom(s) then Last(s).End() - HEADER else base + PAGE - HEADER
  }

  function MakeStores(s: seq<Slab>, base: nat): seq<nat>
    requires 0 < |s|
  {
    if TailHasRoom(s) then TailStores(s, base) else FreshStores(s, base)
  }

  function AlignedStores(s: seq<Slab>, base: nat): seq<nat>
    requires 0 < |s|
  {
    MakeStores(s, base) + [BlockHeader(s, base)]
  }

  function JoinNextStores(s: seq<Slab>, k: nat): seq<nat>
    requires k < |s|
  {
    if k + 1 < |s| && s[k + 1].free then MergeNextStores(s, k) else []
  }

  function JoinPreviousStores(s: seq<Slab>, k: nat): seq<nat>
    requires k < |s|
  {
    if 0 < k && s[k - 1].free then MergePreviousStores(s, k - 1) else []
  }

  /** kfree: the mark, the join with the next slab and the join with the previous one. */
  function FreeStores(s: seq<Slab>, k: nat): seq<nat>
    requires k < |s|
  {
    var m := Mark(s, k, true);
    [s[k].addr] + JoinNextStores(m, k) + JoinPreviousStores(JoinNext(m, k), k)
  }

  /** Stores of one part behind those of another. */
  lemma Regroup(log: seq<nat>, a: seq<nat>, b: seq<nat>)
    ensures log + a + b == log + (a + b)
  {
  }

  // ---------------------------------------------------------------- where they lie

  ghost predicate OldHeader(s: seq<Slab>, a: nat) { exists i :: 0 <= i < |s| && s[i].addr == a }

  ghost predicate InFree(s: seq<Slab>, a: nat) {
    exists i :: 0 <= i < |s| && s[i].free && s[i].Payload() <= a && a + HEADER <= s[i].End()
  }

  /** A header at a takes the place of an old one, or lies in the payload of a free slab, or in
      the run of pages just acquired. */
  ghost predicate FreeOrNew(s: seq<Slab>, base: nat, pages: nat, a: nat) {
    OldHeader(s, a) || InFree(s, a) || (base <= a && a + HEADER <= base + pages * PAGE)
  }

  ghost predicate AllFreeOrNew(s: seq<Slab>, base: nat, pages: nat, stores: seq<nat>) {
    forall a :: a in stores ==> FreeOrNew(s, base, pages, a)
  }

  lemma OldAt(s: seq<Slab>, i: nat)
    requires i < |s|
    ensures OldHeader(s, s[i].addr) && OldHeader(s, Next(s, i))
  {
    assert s[Successor(s, i)].addr == Next(s, i);
  }

  lemma CarveStoresIn(s: seq<Slab>, k: nat, n: nat, a: nat)
    requires k < |s| && s[k].Fits(n) && a in CarveStores(s, k, n)
    ensures a == s[k].addr || a == Next(s, k) || (s[k].Payload() <= a && a + HEADER <= s[k].End())
  {
  }

  /** Every header that plain kallocate writes lies in memory that was free or new. */
  lemma PlainStoresFreeOrNew(s: seq<Slab>, n: nat, base: nat)
    requires 0 < |s|
    ensures AllFreeOrNew(s, base, PlainPages(s, n), PlainStores(s, n, base))
  {
    var k := FirstFit(s, n);
    OldAt(s, 0);
    OldAt(s, |s| - 1);
    forall a | a in PlainStores(s, n, base)
      ensures FreeOrNew(s, base, PlainPages(s, n), a)
    {
      if k < |s| {
        OldAt(s, k);
        CarveStoresIn(s, k, n, a);
      } else if a !in GrowStores(s, base) {
        CarveStoresIn(Grow(s, base, PagesFor(n)), k, n, a);
      }
    }
  }

  /** kfree writes headers of the list only. */
  lemma FreeStoresOld(s: seq<Slab>, k: nat)
    requires k < |s|
    ensures forall a :: a in FreeStores(s, k) ==> OldHeader(s, a)
  {
    var m := Mark(s, k, true);
    var r := JoinNext(m, k);
    if k + 1 < |s| && s[k + 1].free {
      MergeAt(m, k);
      OldAt(s, k + 1);
    }
    OldAt(s, k);
    if 0 < k { OldAt(s, k - 1); }
    assert forall i {:trigger m[i]} :: 0 <= i < |s| ==> m[i].addr == s[i].addr;
    assert OldHeader(s, Next(r, k));
  }

  /** The header of the new pages that the aligned path writes highest. */
  function TopHeader(s: seq<Slab>, base: nat): nat
    requires 0 < |s|
  {
    if TailHasRoom(s) then base else base + PAGE
  }

  lemma NotFreeOrNew(s: seq<Slab>, base: nat, pages: nat, a: nat)
    requires !Covers(s, a) && base <= a
    ensures FreeOrNew(s, base, pages, a) <==> a + HEADER <= base + pages * PAGE
  {
  }

  lemma AlignedStoreCases(s: seq<Slab>, base: nat, a: nat)
    requires 0 < |s| && a in AlignedStores(s, base)
    ensures a in [Last(s).addr, s[0].addr] || a == BlockHeader(s, base) || a == base || a == TopHeader(s, base)
  {
  }

  /** The headers of the aligned path, the highest one aside, whatever is asked for. */
  lemma AlignedStoreAt(s: seq<Slab>, n: nat, base: nat, a: nat)
    requires 0 < |s| && a in AlignedStores(s, base)
    ensures a != TopHeader(s, base) || PAGE <= n ==> FreeOrNew(s, base, AlignedPages(s, n), a)
  {
    AlignedStoreCases(s, base, a);
    if a in [Last(s).addr, s[0].addr] {
      OldAt(s, 0);
      OldAt(s, |s| - 1);
    } else if a == BlockHeader(s, base) && TailHasRoom(s) {
      assert InFree(s, a);
    } else {
      assert a != TopHeader(s, base) || PAGE <= n ==> base <= a && a + HEADER <= base + AlignedPages(s, n) * PAGE;
    }
  }

  /** From a page on the aligned path writes its headers to memory that was free or new. */
  lemma AlignedStoresFreeOrNew(s: seq<Slab>, n: nat, base: nat)
    requires 0 < |s| && PAGE <= n
    ensures AllFreeOrNew(s, base, AlignedPages(s, n), AlignedStores(s, base))
  {
    forall a | a in AlignedStores(s, base)
      ensures FreeOrNew(s, base, AlignedPages(s, n), a)
    {
      AlignedStoreAt(s, n, base, a);
    }
  }

  /** It does so exactly when at least a page is asked for, as long as no slab lies where its
      highest header goes; otherwise that one lies right behind the pages acquired. */
  lemma AlignedStoresExactly(s: seq<Slab>, n: nat, base: nat)
    requires 0 < |s| && !Covers(s, TopHeader(s, base))
    ensures AllFreeOrNew(s, base, AlignedPages(s, n), AlignedStores(s, base)) <==> PAGE <= n
  {
    var stores := AlignedStores(s, base);
    if PAGE <= n {
      AlignedStoresFreeOrNew(s, n, base);
    } else {
      NotFreeOrNew(s, base, AlignedPages(s, n), TopHeader(s, base));
      assert TopHeader(s, base) == stores[if TailHasRoom(s) then 0 else 6];
    }
  }

  /** Every byte of a header at a lies in the memory. */
  ghost predicate HeaderIn(a: nat, owned: Memory) {
    forall p: nat :: a <= p < a + HEADER ==> p in owned
  }

  /** As long as the slabs lie on the memory acquired, so do these headers. */
  lemma FreeOrNewOwned(s: seq<Slab>, owned: Memory, base: nat, pages: nat, a: nat)
    requires Contained(s, owned) && FreeOrNew(s, base, pages, a)
    ensures HeaderIn(a, owned + RunOf(base, pages))
  {
    forall p: nat | a <= p < a + HEADER
      ensures p in owned + RunOf(base, pages)
    {
      if OldHeader(s, a) {
        var i :| 0 <= i < |s| && s[i].addr == a;
        assert s[i].addr <= p < s[i].End();
        assert Covers(s, p);
      } else if InFree(s, a) {
        var i :| 0 <= i < |s| && s[i].free && s[i].Payload() <= a && a + HEADER <= s[i].End();
        assert s[i].addr <= p < s[i].End();
        assert Covers(s, p);
      } else {
        assert InRun(base, pages, p);
      }
    }
  }
}
