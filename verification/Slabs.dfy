/** The kernel slab list as a value: the slabs in ring order, starting at slab_head.
    Every list operation of the allocator is a composition of five moves (Mark,
    Split, Merge, Grow, Extend), so every invariant is proved once per move. */
module Slabs {

  // sizeof(slab_t) and PAGE_SIZE_BYTES
  const HEADER: nat := 32
  const PAGE: nat := 4096

  datatype Slab = Slab(addr: nat, size: nat, free: bool) {
    /** The address the caller gets: the first byte after the header. */
    function Payload(): nat { addr + HEADER }

    /** The first byte after the slab. */
    function End(): nat { addr + HEADER + size }

    predicate Fits(n: nat) { free && n <= size }
  }

  // ---------------------------------------------------------------- moves

  function Mark(s: seq<Slab>, k: nat, free: bool): seq<Slab>
    requires k < |s|
  {
    s[k := s[k].(free := free)]
  }

  /** Slab k keeps n bytes; the rest becomes a free slab behind it. */
  function Split(s: seq<Slab>, k: nat, n: nat): seq<Slab>
    requires k < |s| && n + HEADER <= s[k].size
  {
    s[..k] + [s[k].(size := n), Slab(s[k].addr + HEADER + n, s[k].size - n - HEADER, true)] + s[k + 1..]
  }

  /** Slab k swallows its list successor, wherever that one lies. */
  function Merge(s: seq<Slab>, k: nat): seq<Slab>
    requires k + 1 < |s|
  {
    s[..k] + [Slab(s[k].addr, s[k].size + s[k + 1].size + HEADER, true)] + s[k + 2..]
  }

  /** A free slab over a new run of pages, behind the tail. */
  function Grow(s: seq<Slab>, base: nat, pages: nat): seq<Slab>
    requires 0 < pages
  {
    s + [Slab(base, pages * PAGE - HEADER, true)]
  }

  function Extend(s: seq<Slab>, bytes: nat): seq<Slab>
    requires 0 < |s|
  {
    s[|s| - 1 := Last(s).(size := Last(s).size + bytes)]
  }

  function Last(s: seq<Slab>): Slab
    requires 0 < |s|
  {
    s[|s| - 1]
  }

  // ---------------------------------------------------------------- operations

  /** Index of the first free slab of at least n bytes, |s| when there is none. */
  function FirstFit(s: seq<Slab>, n: nat): (k: nat)
    ensures k <= |s|
    ensures k < |s| ==> s[k].Fits(n)
    ensures forall j :: 0 <= j < k ==> !s[j].Fits(n)
  {
    if |s| == 0 || s[0].Fits(n) then 0 else FirstFit(s[1..], n) + 1
  }

  /** Hand out slab k for n bytes: the remainder is split off only if it can hold
      a header and at least one byte. */
  function Carve(s: seq<Slab>, k: nat, n: nat): seq<Slab>
    requires k < |s| && n <= s[k].size
  {
    Mark(if n + HEADER < s[k].size then Split(s, k, n) else s, k, false)
  }

  /** Pages needed for one slab with n payload bytes. */
  function PagesFor(n: nat): (p: nat)
    ensures 0 < p && n + HEADER <= p * PAGE < n + HEADER + PAGE
  {
    (n + HEADER + PAGE - 1) / PAGE
  }

  function AllocPlain(s: seq<Slab>, n: nat, base: nat): seq<Slab> {
    var k := FirstFit(s, n);
    if k < |s| then Carve(s, k, n) else Carve(Grow(s, base, PagesFor(n)), |s|, n)
  }

  /** The tail is free and can give up a header's worth of bytes at its end. */
  predicate TailHasRoom(s: seq<Slab>)
    requires 0 < |s|
  {
    HEADER <= Last(s).size && Last(s).free
  }

  /** Whole pages asked for by an aligned request. */
  function WholePages(n: nat): nat { n / PAGE }

  /** The tail gives up a header's worth of bytes and the new pages join that header. */
  function AlignTail(s: seq<Slab>, pages: nat): (r: seq<Slab>)
    requires 0 < |s| && TailHasRoom(s)
    ensures 0 < |r|
  {
    Extend(Split(s, |s| - 1, Last(s).size - HEADER), pages * PAGE)
  }

  /** One page more than asked for, with the second header at the end of the first page. */
  function AlignFresh(s: seq<Slab>, base: nat, pages: nat): (r: seq<Slab>)
    ensures 0 < |r|
  {
    Split(Grow(s, base, pages + 1), |s|, PAGE - 2 * HEADER)
  }

  /** The aligned path before it marks its block, which is then the tail, as used. */
  function Aligning(s: seq<Slab>, n: nat, base: nat): (r: seq<Slab>)
    requires 0 < |s|
    ensures 0 < |r|
  {
    if TailHasRoom(s) then AlignTail(s, WholePages(n)) else AlignFresh(s, base, WholePages(n))
  }

  function AllocAligned(s: seq<Slab>, n: nat, base: nat): (r: seq<Slab>)
    requires 0 < |s|
    ensures 0 < |r|
  {
    var r := Aligning(s, n, base);
    Mark(r, |r| - 1, false)
  }

  function JoinNext(s: seq<Slab>, k: nat): (r: seq<Slab>)
    requires k < |s|
    ensures k < |r|
  {
    if k + 1 < |s| && s[k + 1].free then Merge(s, k) else s
  }

  function JoinPrevious(s: seq<Slab>, k: nat): seq<Slab>
    requires k < |s|
  {
    if 0 < k && s[k - 1].free then Merge(s, k - 1) else s
  }

  /** kfree of slab k: coalesce with the next slab, then with the previous one. */
  function FreeAt(s: seq<Slab>, k: nat): seq<Slab>
    requires k < |s|
  {
    JoinPrevious(JoinNext(Mark(s, k, true), k), k)
  }

  // ---------------------------------------------------------------- invariants

  /** Modulo the page size each slab ends where the next one starts, and the tail
      ends on a page boundary. */
  ghost predicate Paged(s: seq<Slab>) {
    && (forall i :: 0 <= i < |s| - 1 ==> Congruent(s[i].End(), s[i + 1].addr))
    && (0 < |s| ==> Congruent(Last(s).End(), 0))
  }

  ghost predicate Congruent(a: nat, b: nat) { a % PAGE == b % PAGE }

  /** Slabs, headers included, are pairwise disjoint and in ascending order. */
  ghost predicate Apart(s: seq<Slab>) {
    forall i, j :: 0 <= i < j < |s| ==> Before(s, i, j)
  }

  ghost predicate Before(s: seq<Slab>, i: nat, j: nat)
    requires i < |s| && j < |s|
  {
    s[i].End() <= s[j].addr
  }

  /** Each slab ends exactly where the next one starts. */
  ghost predicate Tiled(s: seq<Slab>) {
    forall i :: 0 <= i < |s| - 1 ==> s[i].End() == s[i + 1].addr
  }

  /** No two list neighbours are both free (tail and head are not neighbours). */
  ghost predicate Coalesced(s: seq<Slab>) {
    forall i :: 0 <= i < |s| - 1 ==> !(s[i].free && s[i + 1].free)
  }

  /** Bytes covered by headers and payloads together. */
  function Footprint(s: seq<Slab>): nat {
    if |s| == 0 then 0 else s[0].size + HEADER + Footprint(s[1..])
  }

  lemma {:induction false} FootprintConcat(a: seq<Slab>, b: seq<Slab>)
    ensures Footprint(a + b) == Footprint(a) + Footprint(b)
  {
    if |a| == 0 {
      assert a + b == b;
    } else {
      FootprintConcat(a[1..], b);
      assert (a + b)[1..] == a[1..] + b;
    }
  }

  lemma FootprintOne(x: Slab)
    ensures Footprint([x]) == x.size + HEADER
  {
    assert [x][1..] == [];
  }

  lemma FootprintMiddle(a: seq<Slab>, m: seq<Slab>, c: seq<Slab>)
    ensures Footprint(a + m + c) == Footprint(a) + Footprint(m) + Footprint(c)
  {
    FootprintConcat(a + m, c);
    FootprintConcat(a, m);
  }

  lemma FootprintAt(s: seq<Slab>, k: nat)
    requires k < |s|
    ensures Footprint(s) == Footprint(s[..k]) + (s[k].size + HEADER) + Footprint(s[k + 1..])
  {
    FootprintMiddle(s[..k], [s[k]], s[k + 1..]);
    assert s == s[..k] + [s[k]] + s[k + 1..];
  }

  lemma ApartAt(s: seq<Slab>, k: nat)
    requires Apart(s) && k < |s|
    ensures forall i {:trigger s[i]} :: 0 <= i < k ==> s[i].End() <= s[k].addr
    ensures forall i {:trigger s[i]} :: k < i < |s| ==> s[k].End() <= s[i].addr
  {
    forall i {:trigger s[i]} | 0 <= i < |s| && i != k
      ensures if i < k then s[i].End() <= s[k].addr else s[k].End() <= s[i].addr
    {
      assert if i < k then Before(s, i, k) else Before(s, k, i);
    }
  }

  // ---------------------------------------------------------------- the moves keep the layout

  lemma CongruentShift(a: nat, b: nat, d: nat)
    requires Congruent(a, b)
    ensures Congruent(a + d, b + d)
  {
  }

  lemma MarkFootprint(s: seq<Slab>, k: nat, free: bool)
    requires k < |s|
    ensures Footprint(Mark(s, k, free)) == Footprint(s)
  {
    var r := Mark(s, k, free);
    FootprintAt(s, k);
    FootprintAt(r, k);
    assert r[..k] == s[..k] && r[k + 1..] == s[k + 1..];
  }

  lemma MarkPaged(s: seq<Slab>, k: nat, free: bool)
    requires k < |s| && Paged(s)
    ensures Paged(Mark(s, k, free))
  {
    var r := Mark(s, k, free);
    forall i | 0 <= i < |r| - 1
      ensures Congruent(r[i].End(), r[i + 1].addr)
    {
      assert Congruent(s[i].End(), s[i + 1].addr);
    }
  }

  lemma MarkTiled(s: seq<Slab>, k: nat, free: bool)
    requires k < |s| && Tiled(s)
    ensures Tiled(Mark(s, k, free))
  {
  }

  lemma MarkApart(s: seq<Slab>, k: nat, free: bool)
    requires k < |s| && Apart(s)
    ensures Apart(Mark(s, k, free))
  {
    forall i, j | 0 <= i < j < |s|
      ensures Before(Mark(s, k, free), i, j)
    {
      assert Before(s, i, j);
    }
  }

  lemma SplitAt(s: seq<Slab>, k: nat, n: nat)
    requires k < |s| && n + HEADER <= s[k].size
    ensures var r := Split(s, k, n);
      && |r| == |s| + 1
      && (forall i {:trigger r[i]} :: 0 <= i < k ==> r[i] == s[i])
      && r[k] == s[k].(size := n)
      && r[k + 1].addr == r[k].End() && r[k + 1].End() == s[k].End() && r[k + 1].free
      && (forall i {:trigger r[i]} :: k + 1 < i < |r| ==> r[i] == s[i - 1])
  {
  }

  lemma SplitFootprint(s: seq<Slab>, k: nat, n: nat)
    requires k < |s| && n + HEADER <= s[k].size
    ensures Footprint(Split(s, k, n)) == Footprint(s)
  {
    var x, y := s[k].(size := n), Slab(s[k].addr + HEADER + n, s[k].size - n - HEADER, true);
    FootprintAt(s, k);
    FootprintMiddle(s[..k], [x, y], s[k + 1..]);
    FootprintConcat([x], [y]);
    FootprintOne(x);
    FootprintOne(y);
    assert [x] + [y] == [x, y];
  }

  lemma SplitPaged(s: seq<Slab>, k: nat, n: nat)
    requires k < |s| && n + HEADER <= s[k].size && Paged(s)
    ensures Paged(Split(s, k, n))
  {
    var r := Split(s, k, n);
    SplitAt(s, k, n);
    forall i | 0 <= i < |r| - 1
      ensures Congruent(r[i].End(), r[i + 1].addr)
    {
      if i < k {
        assert Congruent(s[i].End(), s[i + 1].addr);
      } else if i > k {
        assert Congruent(s[i - 1].End(), s[i].addr);
      }
    }
  }

  lemma SplitApart(s: seq<Slab>, k: nat, n: nat)
    requires k < |s| && n + HEADER <= s[k].size && Apart(s)
    ensures Apart(Split(s, k, n))
  {
    var r := Split(s, k, n);
    SplitAt(s, k, n);
    forall i, j | 0 <= i < j < |r|
      ensures Before(r, i, j)
    {
      var i', j' := if i <= k then i else i - 1, if j <= k then j else j - 1;
      assert i' < j' ==> Before(s, i', j');
    }
  }

  lemma SplitTiled(s: seq<Slab>, k: nat, n: nat)
    requires k < |s| && n + HEADER <= s[k].size && Tiled(s)
    ensures Tiled(Split(s, k, n))
  {
    SplitAt(s, k, n);
  }

  lemma MergeAt(s: seq<Slab>, k: nat)
    requires k + 1 < |s|
    ensures var r := Merge(s, k);
      && |r| == |s| - 1
      && (forall i {:trigger r[i]} :: 0 <= i < k ==> r[i] == s[i])
      && r[k].addr == s[k].addr && r[k].free
      && r[k].End() == s[k].End() + (s[k + 1].End() - s[k + 1].addr)
      && (forall i {:trigger r[i]} :: k < i < |r| ==> r[i] == s[i + 1])
  {
  }

  lemma MergeFootprint(s: seq<Slab>, k: nat)
    requires k + 1 < |s|
    ensures Footprint(Merge(s, k)) == Footprint(s)
  {
    FootprintAt(s, k);
    FootprintAt(s[k + 1..], 0);
    assert s[k + 1..][1..] == s[k + 2..];
    FootprintMiddle(s[..k], [Slab(s[k].addr, s[k].size + s[k + 1].size + HEADER, true)], s[k + 2..]);
  }

  /** Merging never compares addresses: it adds sizes. Residues survive that for any list. */
  lemma MergePaged(s: seq<Slab>, k: nat)
    requires k + 1 < |s| && Paged(s)
    ensures Paged(Merge(s, k))
  {
    var r := Merge(s, k);
    MergeAt(s, k);
    CongruentShift(s[k].End(), s[k + 1].addr, s[k + 1].End() - s[k + 1].addr);
    assert Congruent(r[k].End(), s[k + 1].End());
    forall i | 0 <= i < |r| - 1
      ensures Congruent(r[i].End(), r[i + 1].addr)
    {
      if i < k {
        assert Congruent(s[i].End(), s[i + 1].addr);
      } else {
        assert Congruent(s[i + 1].End(), s[i + 2].addr);
      }
    }
  }

  lemma MergeApart(s: seq<Slab>, k: nat)
    requires k + 1 < |s| && Apart(s)
    ensures Apart(Merge(s, k)) && Last(Merge(s, k)).End() <= Last(s).End()
  {
    var r := Merge(s, k);
    MergeAt(s, k);
    assert Before(s, k, k + 1);
    forall i, j | 0 <= i < j < |r|
      ensures Before(r, i, j)
    {
      var i', j' := if i <= k then i else i + 1, if j <= k then j else j + 1;
      assert Before(s, i', j');
      assert i == k ==> Before(s, k + 1, j');
    }
  }

  lemma MergeTiled(s: seq<Slab>, k: nat)
    requires k + 1 < |s| && Tiled(s)
    ensures Tiled(Merge(s, k)) && Last(Merge(s, k)).End() == Last(s).End()
  {
    MergeAt(s, k);
  }

  lemma GrowFootprint(s: seq<Slab>, base: nat, pages: nat)
    requires 0 < pages
    ensures Footprint(Grow(s, base, pages)) == Footprint(s) + pages * PAGE
  {
    FootprintSnoc(s, Slab(base, pages * PAGE - HEADER, true));
  }

  lemma GrowPaged(s: seq<Slab>, base: nat, pages: nat)
    requires 0 < pages && Congruent(base, 0) && Paged(s)
    ensures Paged(Grow(s, base, pages))
  {
    var r := Grow(s, base, pages);
    assert Last(r).End() == base + pages * PAGE;
    forall i | 0 <= i < |r| - 1
      ensures Congruent(r[i].End(), r[i + 1].addr)
    {
      if i < |s| - 1 {
        assert Congruent(s[i].End(), s[i + 1].addr);
      }
    }
  }

  lemma GrowApart(s: seq<Slab>, x: Slab)
    requires Apart(s) && (0 < |s| ==> Last(s).End() <= x.addr)
    ensures Apart(s + [x])
  {
    var r := s + [x];
    forall i, j | 0 <= i < j < |r|
      ensures Before(r, i, j)
    {
      assert j < |s| ==> Before(s, i, j);
      assert i < |s| - 1 ==> Before(s, i, |s| - 1);
    }
  }

  lemma ResizeApart(s: seq<Slab>, size: nat)
    requires Apart(s) && 0 < |s|
    ensures Apart(s[|s| - 1 := Last(s).(size := size)])
  {
    var r := s[|s| - 1 := Last(s).(size := size)];
    forall i, j | 0 <= i < j < |s|
      ensures Before(r, i, j)
    {
      assert Before(s, i, j);
    }
  }

  lemma FootprintSnoc(s: seq<Slab>, x: Slab)
    ensures Footprint(s + [x]) == Footprint(s) + x.size + HEADER
  {
    FootprintConcat(s, [x]);
    FootprintOne(x);
  }

  lemma ExtendFootprint(s: seq<Slab>, bytes: nat)
    requires 0 < |s|
    ensures Footprint(Extend(s, bytes)) == Footprint(s) + bytes
  {
    var init, r := s[..|s| - 1], Extend(s, bytes);
    FootprintSnoc(init, Last(s));
    FootprintSnoc(init, Last(r));
    assert init + [Last(s)] == s;
    assert init + [Last(r)] == r;
  }

  lemma ExtendPaged(s: seq<Slab>, pages: nat)
    requires 0 < |s| && Paged(s)
    ensures Paged(Extend(s, pages * PAGE))
  {
    var r := Extend(s, pages * PAGE);
    assert Last(r).End() == Last(s).End() + pages * PAGE;
    forall i | 0 <= i < |r| - 1
      ensures Congruent(r[i].End(), r[i + 1].addr)
    {
      assert Congruent(s[i].End(), s[i + 1].addr);
    }
  }
}
