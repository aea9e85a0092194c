/** The invariant that lets memory hold the slab list: headers and payloads in use are pairwise
    disjoint. It says nothing about where free payloads lie, nor in which order. */
module SlabIntact {
  import opened Slabs
  import opened SlabRuns

  /** The end of what must not be written over: the header, and the payload of a slab in use. */
  function BusyEnd(x: Slab): nat { if x.free then x.Payload() else x.End() }

  ghost predicate Asunder(s: seq<Slab>, i: nat, j: nat)
    requires i < |s| && j < |s|
  {
    BusyEnd(s[i]) <= s[j].addr || BusyEnd(s[j]) <= s[i].addr
  }

  ghost predicate Intact(s: seq<Slab>) {
    forall i, j :: 0 <= i < j < |s| ==> Asunder(s, i, j)
  }

  ghost predicate VacantAt(s: seq<Slab>, a: nat, i: nat)
    requires i < |s|
  {
    a + HEADER <= s[i].addr || BusyEnd(s[i]) <= a
  }

  /** A header at a overlaps nothing that is in use. */
  ghost predicate Vacant(s: seq<Slab>, a: nat) {
    forall i :: 0 <= i < |s| ==> VacantAt(s, a, i)
  }

  lemma IntactAt(s: seq<Slab>, k: nat)
    requires Intact(s) && k < |s|
    ensures forall i {:trigger s[i]} :: 0 <= i < |s| && i != k ==>
      BusyEnd(s[i]) <= s[k].addr || BusyEnd(s[k]) <= s[i].addr
  {
    forall i {:trigger s[i]} | 0 <= i < |s| && i != k
      ensures BusyEnd(s[i]) <= s[k].addr || BusyEnd(s[k]) <= s[i].addr
    {
      assert if i < k then Asunder(s, i, k) else Asunder(s, k, i);
    }
  }

  lemma ApartIntact(s: seq<Slab>)
    requires Apart(s)
    ensures Intact(s)
  {
    forall i, j | 0 <= i < j < |s|
      ensures Asunder(s, i, j)
    {
      assert Before(s, i, j);
    }
  }

  /** r keeps no header and no payload in use that s does not have: its slabs, but one that is
      free, come from s in their order. */
  ghost predicate Fewer(s: seq<Slab>, r: seq<Slab>, k: nat, gone: nat) {
    && k < |r| && |r| + gone == |s|
    && r[k].addr == s[k].addr && (r[k].free || r[k] == s[k])
    && (forall i {:trigger r[i]} :: 0 <= i < |r| && i != k ==> r[i] == s[if i < k then i else i + gone])
  }

  lemma FewerIntact(s: seq<Slab>, r: seq<Slab>, k: nat, gone: nat)
    requires Intact(s) && Fewer(s, r, k, gone)
    ensures Intact(r)
  {
    forall i, j | 0 <= i < j < |r|
      ensures Asunder(r, i, j)
    {
      assert Asunder(s, if i <= k then i else i + gone, if j <= k then j else j + gone);
    }
  }

  lemma MarkFreeIntact(s: seq<Slab>, k: nat)
    requires Intact(s) && k < |s|
    ensures Intact(Mark(s, k, true))
  {
    FewerIntact(s, Mark(s, k, true), k, 0);
  }

  lemma SnocIntact(s: seq<Slab>, x: Slab)
    requires Intact(s) && x.free && Vacant(s, x.addr)
    ensures Intact(s + [x])
  {
    var r := s + [x];
    forall i, j | 0 <= i < j < |r|
      ensures Asunder(r, i, j)
    {
      if j < |s| {
        assert Asunder(s, i, j);
      } else {
        assert VacantAt(s, x.addr, i);
      }
    }
  }

  /** kfree never breaks the invariant, wherever the slabs it joins lie. */
  lemma FreeIntact(s: seq<Slab>, k: nat)
    requires Intact(s) && k < |s|
    ensures Intact(FreeAt(s, k))
  {
    var m := Mark(s, k, true);
    MarkFreeIntact(s, k);
    if k + 1 < |m| && m[k + 1].free {
      MergeAt(m, k);
      FewerIntact(m, Merge(m, k), k, 1);
    }
    var r := JoinNext(m, k);
    if 0 < k && r[k - 1].free {
      MergeAt(r, k - 1);
      FewerIntact(r, Merge(r, k - 1), k - 1, 1);
    }
  }

  /** An old list sees less than the list it was extended to. */
  lemma VacantPrefix(s: seq<Slab>, t: seq<Slab>, a: nat)
    requires s <= t && Vacant(t, a)
    ensures Vacant(s, a)
  {
    forall i | 0 <= i < |s|
      ensures VacantAt(s, a, i)
    {
      assert VacantAt(t, a, i);
    }
  }

  /** A block handed out leaves its header's place vacant before, and the remainder's. */
  lemma CarveVacant(s: seq<Slab>, k: nat, n: nat)
    requires k < |s| && s[k].Fits(n) && n + HEADER < s[k].size && Intact(Carve(s, k, n))
    ensures Vacant(s, s[k].addr + HEADER + n)
  {
    var r := Carve(s, k, n);
    SplitAt(s, k, n);
    IntactAt(r, k + 1);
    var a := s[k].addr + HEADER + n;
    forall i | 0 <= i < |s|
      ensures VacantAt(s, a, i)
    {
      var x := r[if i <= k then i else i + 1];
      assert BusyEnd(x) >= BusyEnd(s[i]) && x.addr == s[i].addr;
    }
  }

  /** A slab of r that s lacks, at the end: its header's place was vacant. */
  lemma LastVacant(s: seq<Slab>, r: seq<Slab>, j: nat)
    requires Intact(r) && |s| <= j < |r|
    requires forall i {:trigger s[i]} :: 0 <= i < |s| ==> r[i].addr == s[i].addr && BusyEnd(s[i]) <= BusyEnd(r[i])
    ensures Vacant(s, r[j].addr)
  {
    IntactAt(r, j);
    forall i | 0 <= i < |s|
      ensures VacantAt(s, r[j].addr, i)
    {
      assert BusyEnd(s[i]) <= BusyEnd(r[i]);
    }
  }

  lemma IntactDistinctAddresses(s: seq<Slab>, i: nat, j: nat)
    requires Intact(s) && i < j < |s|
    ensures s[i].addr != s[j].addr
  {
    assert Asunder(s, i, j);
  }

  // ---------------------------------------------------------------- accounting in any order

  lemma FootprintPart(s: seq<Slab>, k: nat)
    requires k < |s|
    ensures s[k].size + HEADER <= Footprint(s)
  {
    FootprintAt(s, k);
  }

  lemma FootprintTwo(s: seq<Slab>, k: nat)
    requires k + 1 < |s|
    ensures s[k].size + s[k + 1].size + 2 * HEADER <= Footprint(s)
  {
    FootprintAt(s, k);
    FootprintPart(s[k + 1..], 0);
  }

  lemma CarveFootprint(s: seq<Slab>, k: nat, n: nat)
    requires k < |s| && n <= s[k].size
    ensures Footprint(Carve(s, k, n)) == Footprint(s)
  {
    if n + HEADER < s[k].size {
      SplitFootprint(s, k, n);
      MarkFootprint(Split(s, k, n), k, false);
    } else {
      MarkFootprint(s, k, false);
    }
  }

  lemma PlainFootprint(s: seq<Slab>, n: nat, base: nat)
    ensures Footprint(AllocPlain(s, n, base)) == Footprint(s) + PlainPages(s, n) * PAGE
  {
    var k := FirstFit(s, n);
    if k < |s| {
      CarveFootprint(s, k, n);
    } else {
      GrowFootprint(s, base, PagesFor(n));
      CarveFootprint(Grow(s, base, PagesFor(n)), k, n);
    }
  }

  lemma ExtendPages(t: seq<Slab>, pages: nat)
    requires 0 < |t|
    ensures Footprint(Extend(t, pages * PAGE)) == Footprint(t) + pages * PAGE
  {
    ExtendFootprint(t, pages * PAGE);
  }

  lemma AlignTailFootprint(s: seq<Slab>, t: seq<Slab>, pages: nat)
    requires 0 < |s| && TailHasRoom(s) && t == Split(s, |s| - 1, Last(s).size - HEADER)
    ensures AlignTail(s, pages) == Extend(t, pages * PAGE) && Footprint(t) == Footprint(s)
  {
    SplitFootprint(s, |s| - 1, Last(s).size - HEADER);
  }

  lemma AlignFreshFootprint(s: seq<Slab>, base: nat, pages: nat)
    ensures Footprint(AlignFresh(s, base, pages)) == Footprint(s) + (pages + 1) * PAGE
  {
    GrowFootprint(s, base, pages + 1);
    SplitFootprint(Grow(s, base, pages + 1), |s|, PAGE - 2 * HEADER);
  }

  lemma AlignedFootprint(s: seq<Slab>, n: nat, base: nat)
    requires 0 < |s|
    ensures Footprint(AllocAligned(s, n, base)) == Footprint(s) + AlignedPages(s, n) * PAGE
  {
    var r := if TailHasRoom(s) then AlignTail(s, WholePages(n)) else AlignFresh(s, base, WholePages(n));
    if TailHasRoom(s) {
      var t := Split(s, |s| - 1, Last(s).size - HEADER);
      AlignTailFootprint(s, t, WholePages(n));
      ExtendPages(t, WholePages(n));
    } else {
      AlignFreshFootprint(s, base, WholePages(n));
    }
    MarkFootprint(r, |r| - 1, false);
  }

  lemma FreeFootprint(s: seq<Slab>, k: nat)
    requires k < |s|
    ensures Footprint(FreeAt(s, k)) == Footprint(s)
  {
    var m := Mark(s, k, true);
    MarkFootprint(s, k, true);
    if k + 1 < |m| && m[k + 1].free { MergeFootprint(m, k); }
    var r := JoinNext(m, k);
    if 0 < k && r[k - 1].free { MergeFootprint(r, k - 1); }
  }
}
