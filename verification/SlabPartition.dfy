/** Page runs in any order. The slabs partition the memory acquired when they are pairwise
    disjoint and cover exactly that; a call keeps this if and only if it joins on its own memory. */
module SlabPartition {
  import opened Slabs
  import opened SlabRuns
  import opened SlabIntact
  import opened SlabOwnership

  ghost predicate Disjoint(x: Slab, y: Slab) { x.End() <= y.addr || y.End() <= x.addr }

  ghost predicate SeparateAt(s: seq<Slab>, i: nat, j: nat)
    requires i < |s| && j < |s|
  {
    Disjoint(s[i], s[j])
  }

  ghost predicate Separate(s: seq<Slab>) {
    forall i, j :: 0 <= i < j < |s| ==> SeparateAt(s, i, j)
  }

  ghost predicate Partition(s: seq<Slab>, owned: Memory) { Separate(s) && Exact(s, owned) }

  lemma SeparatePair(s: seq<Slab>, i: nat, j: nat)
    requires Separate(s) && i < |s| && j < |s| && i != j
    ensures Disjoint(s[i], s[j])
  {
    assert if i < j then SeparateAt(s, i, j) else SeparateAt(s, j, i);
  }

  lemma ApartSeparate(s: seq<Slab>)
    requires Apart(s)
    ensures Separate(s)
  {
    forall i, j | 0 <= i < j < |s|
      ensures SeparateAt(s, i, j)
    {
      assert Before(s, i, j);
    }
  }

  lemma SeparateIntact(s: seq<Slab>)
    requires Separate(s)
    ensures Intact(s)
  {
    forall i, j | 0 <= i < j < |s|
      ensures Asunder(s, i, j)
    {
      assert SeparateAt(s, i, j);
    }
  }

  predicate Holds(x: Slab, p: nat) { x.addr <= p < x.End() }

  lemma CoversAt(s: seq<Slab>, i: nat, p: nat)
    requires i < |s| && Holds(s[i], p)
    ensures Covers(s, p)
  {
  }

  // ---------------------------------------------------------------- joining neighbours

  /** r is s with the slabs from lo to hi replaced by one. */
  ghost predicate JoinShape(s: seq<Slab>, r: seq<Slab>, lo: nat, hi: nat) {
    && lo <= hi < |s| && |r| + hi - lo == |s|
    && (forall i {:trigger r[i]} :: 0 <= i < |r| && i != lo ==> r[i] == s[if i < lo then i else i + hi - lo])
  }

  ghost predicate JoinedAt(s: seq<Slab>, x: Slab, lo: nat, hi: nat, p: nat)
    requires lo <= hi < |s|
  {
    Holds(x, p) <==> exists i :: lo <= i <= hi && Holds(s[i], p)
  }

  /** The new slab covers exactly what the slabs from lo to hi covered. */
  ghost predicate Joined(s: seq<Slab>, x: Slab, lo: nat, hi: nat)
    requires lo <= hi < |s|
  {
    forall p: nat :: JoinedAt(s, x, lo, hi, p)
  }

  /** A slab of s outside lo to hi is in r. */
  lemma Outside(s: seq<Slab>, r: seq<Slab>, lo: nat, hi: nat, i: nat) returns (j: nat)
    requires JoinShape(s, r, lo, hi) && i < |s| && !(lo <= i <= hi)
    ensures j < |r| && j != lo && r[j] == s[i]
  {
    j := if i < lo then i else i - (hi - lo);
    assert r[j] == s[i];
  }

  lemma JoinedCovers(s: seq<Slab>, r: seq<Slab>, lo: nat, hi: nat, p: nat)
    requires JoinShape(s, r, lo, hi) && Joined(s, r[lo], lo, hi)
    ensures Covers(r, p) <==> Covers(s, p)
  {
    assert JoinedAt(s, r[lo], lo, hi, p);
    if Covers(s, p) {
      var i :| 0 <= i < |s| && s[i].addr <= p < s[i].End();
      if lo <= i <= hi {
        assert Holds(s[i], p);
        CoversAt(r, lo, p);
      } else {
        var j := Outside(s, r, lo, hi, i);
        CoversAt(r, j, p);
      }
    }
    if Covers(r, p) {
      var j :| 0 <= j < |r| && r[j].addr <= p < r[j].End();
      if j == lo {
        assert Holds(r[lo], p);
        var i :| lo <= i <= hi && Holds(s[i], p);
        CoversAt(s, i, p);
      } else {
        CoversAt(s, if j < lo then j else j + hi - lo, p);
      }
    }
  }

  lemma JoinedDisjoint(s: seq<Slab>, x: Slab, lo: nat, hi: nat, k: nat)
    requires Separate(s) && lo <= hi < |s| && Joined(s, x, lo, hi) && k < |s| && !(lo <= k <= hi)
    ensures Disjoint(x, s[k])
  {
    if !Disjoint(x, s[k]) {
      var p := if x.addr < s[k].addr then s[k].addr else x.addr;
      assert Holds(x, p) && Holds(s[k], p) && JoinedAt(s, x, lo, hi, p);
      var i :| lo <= i <= hi && Holds(s[i], p);
      SeparatePair(s, i, k);
      assert false;
    }
  }

  lemma JoinedSeparate(s: seq<Slab>, r: seq<Slab>, lo: nat, hi: nat)
    requires Separate(s) && JoinShape(s, r, lo, hi) && Joined(s, r[lo], lo, hi)
    ensures Separate(r)
  {
    forall i, j | 0 <= i < j < |r|
      ensures SeparateAt(r, i, j)
    {
      var i', j' := if i <= lo then i else i + hi - lo, if j <= lo then j else j + hi - lo;
      if i == lo {
        JoinedDisjoint(s, r[lo], lo, hi, j');
      } else if j == lo {
        JoinedDisjoint(s, r[lo], lo, hi, i');
      } else {
        SeparatePair(s, i', j');
      }
    }
  }

  lemma PartitionJoined(s: seq<Slab>, r: seq<Slab>, owned: Memory, lo: nat, hi: nat, p: nat)
    requires Partition(s, owned) && Partition(r, owned) && JoinShape(s, r, lo, hi)
    ensures JoinedAt(s, r[lo], lo, hi, p)
  {
    assert Covers(s, p) <==> p in owned;
    assert Covers(r, p) <==> p in owned;
    if Holds(r[lo], p) {
      CoversAt(r, lo, p);
      var i :| 0 <= i < |s| && s[i].addr <= p < s[i].End();
      if !(lo <= i <= hi) {
        var j := Outside(s, r, lo, hi, i);
        SeparatePair(r, j, lo);
      }
      assert lo <= i <= hi && Holds(s[i], p);
    }
    if i :| lo <= i <= hi && Holds(s[i], p) {
      CoversAt(s, i, p);
      var j :| 0 <= j < |r| && r[j].addr <= p < r[j].End();
      if j != lo {
        SeparatePair(s, i, if j < lo then j else j + hi - lo);
      }
      assert j == lo;
    }
  }

  /** Joining slabs keeps the partition exactly when the new slab covers what they covered. */
  lemma JoinExactly(s: seq<Slab>, r: seq<Slab>, owned: Memory, lo: nat, hi: nat)
    requires Partition(s, owned) && JoinShape(s, r, lo, hi)
    ensures Partition(r, owned) <==> Joined(s, r[lo], lo, hi)
  {
    if Partition(r, owned) {
      forall p: nat
        ensures JoinedAt(s, r[lo], lo, hi, p)
      {
        PartitionJoined(s, r, owned, lo, hi, p);
      }
    }
    if Joined(s, r[lo], lo, hi) {
      JoinedSeparate(s, r, lo, hi);
      forall p: nat
        ensures Covers(r, p) <==> p in owned
      {
        JoinedCovers(s, r, lo, hi, p);
        assert Covers(s, p) <==> p in owned;
      }
    }
  }

  /** Two slabs and their sum: adjacent, the first one first. */
  lemma TwoJoined(s: seq<Slab>, x: Slab, k: nat)
    requires Separate(s) && k + 1 < |s| && x.addr == s[k].addr && x.size == s[k].size + s[k + 1].size + HEADER
    ensures Joined(s, x, k, k + 1) <==> s[k].End() == s[k + 1].addr
  {
    SeparatePair(s, k, k + 1);
    if Joined(s, x, k, k + 1) {
      assert JoinedAt(s, x, k, k + 1, s[k].End());
      assert Holds(x, s[k].End());
    }
    if s[k].End() == s[k + 1].addr {
      var hi := k + 1;
      forall p: nat
        ensures JoinedAt(s, x, k, hi, p)
      {
        assert Holds(x, p) <==> Holds(s[k], p) || Holds(s[k + 1], p);
      }
    }
  }

  /** The previous slab P, the freed one K and the next one N. */
  predicate InARow(x: Slab, y: Slab, z: Slab) { x.End() == y.addr && y.End() == z.addr }

  /** Three slabs and their sum: in a row, the first one first, the others in either order. */
  lemma ThreeJoined(s: seq<Slab>, x: Slab, k: nat)
    requires Separate(s) && 0 < k && k + 1 < |s| && x.addr == s[k - 1].addr
    requires x.size == s[k - 1].size + s[k].size + s[k + 1].size + 2 * HEADER
    ensures Joined(s, x, k - 1, k + 1) <==> InARow(s[k - 1], s[k], s[k + 1]) || InARow(s[k - 1], s[k + 1], s[k])
  {
    SeparatePair(s, k - 1, k);
    SeparatePair(s, k - 1, k + 1);
    SeparatePair(s, k, k + 1);
    var b := s[k - 1].End();
    if Joined(s, x, k - 1, k + 1) {
      assert JoinedAt(s, x, k - 1, k + 1, b) && Holds(x, b);
      var e := if Holds(s[k], b) then s[k].End() else s[k + 1].End();
      assert JoinedAt(s, x, k - 1, k + 1, e) && Holds(x, e);
    }
    if InARow(s[k - 1], s[k], s[k + 1]) || InARow(s[k - 1], s[k + 1], s[k]) {
      var lo, hi := k - 1, k + 1;
      forall p: nat
        ensures JoinedAt(s, x, lo, hi, p)
      {
        assert Holds(x, p) <==> Holds(s[k - 1], p) || Holds(s[k], p) || Holds(s[k + 1], p);
      }
    }
  }

  // ---------------------------------------------------------------- kfree

  /** The slabs that kfree joins lie next to each other. When both neighbours are free the freed
      slab may lie behind its list successor: the two joins then make up for each other. */
  predicate FreeAdjacent(s: seq<Slab>, k: nat)
    requires k < |s|
  {
    var next, previous := k + 1 < |s| && s[k + 1].free, 0 < k && s[k - 1].free;
    if next && previous then InARow(s[k - 1], s[k], s[k + 1]) || InARow(s[k - 1], s[k + 1], s[k])
    else if next then s[k].End() == s[k + 1].addr
    else previous ==> s[k - 1].End() == s[k].addr
  }

  /** First and last position of the slabs that kfree joins. */
  function FreeLow(s: seq<Slab>, k: nat): nat
    requires k < |s|
  {
    if 0 < k && s[k - 1].free then k - 1 else k
  }

  function FreeHigh(s: seq<Slab>, k: nat): nat
    requires k < |s|
  {
    if k + 1 < |s| && s[k + 1].free then k + 1 else k
  }

  lemma NextShape(s: seq<Slab>, k: nat)
    requires k < |s|
    ensures var r, hi := JoinNext(Mark(s, k, true), k), FreeHigh(s, k);
      && JoinShape(s, r, k, hi)
      && r[k] == Slab(s[k].addr, s[k].size + (if k < hi then s[k + 1].size + HEADER else 0), true)
  {
    var m := Mark(s, k, true);
    if k + 1 < |m| && m[k + 1].free { MergeAt(m, k); }
  }

  /** The extents of the slabs that kfree joins, as one slab at the first address. */
  lemma FreeShape(s: seq<Slab>, k: nat)
    requires k < |s|
    ensures var r, lo, hi := FreeAt(s, k), FreeLow(s, k), FreeHigh(s, k);
      && JoinShape(s, r, lo, hi) && r[lo].addr == s[lo].addr && r[lo].free
      && r[lo].size ==
        s[k].size + (if lo < k then s[k - 1].size + HEADER else 0) + (if k < hi then s[k + 1].size + HEADER else 0)
  {
    NextShape(s, k);
    var r := JoinNext(Mark(s, k, true), k);
    if 0 < k {
      assert r[k - 1] == s[k - 1];
      if r[k - 1].free { MergeAt(r, k - 1); }
    }
  }

  lemma OneJoined(s: seq<Slab>, x: Slab, k: nat)
    requires k < |s| && x.addr == s[k].addr && x.size == s[k].size
    ensures Joined(s, x, k, k)
  {
    forall p: nat
      ensures JoinedAt(s, x, k, k, p)
    {
      assert Holds(x, p) <==> Holds(s[k], p);
    }
  }

  /** kfree keeps the partition if and only if what it joins is adjacent. */
  lemma FreePartition(s: seq<Slab>, owned: Memory, k: nat)
    requires Partition(s, owned) && k < |s|
    ensures Partition(FreeAt(s, k), owned) <==> FreeAdjacent(s, k)
  {
    var r, lo, hi := FreeAt(s, k), FreeLow(s, k), FreeHigh(s, k);
    FreeShape(s, k);
    JoinExactly(s, r, owned, lo, hi);
    if lo < k < hi {
      ThreeJoined(s, r[lo], k);
    } else if k < hi {
      TwoJoined(s, r[lo], k);
    } else if lo < k {
      TwoJoined(s, r[lo], k - 1);
    } else {
      OneJoined(s, r[lo], k);
    }
  }

  // ---------------------------------------------------------------- kallocate

  lemma MarkSeparate(s: seq<Slab>, k: nat, free: bool)
    requires k < |s|
    ensures Separate(Mark(s, k, free)) <==> Separate(s)
  {
    var r := Mark(s, k, free);
    forall i, j | 0 <= i < j < |s|
      ensures SeparateAt(r, i, j) <==> SeparateAt(s, i, j)
    {
    }
  }

  lemma SplitSeparate(s: seq<Slab>, k: nat, n: nat)
    requires k < |s| && n + HEADER <= s[k].size && Separate(s)
    ensures Separate(Split(s, k, n))
  {
    var r := Split(s, k, n);
    SplitAt(s, k, n);
    forall i, j | 0 <= i < j < |r|
      ensures SeparateAt(r, i, j)
    {
      var i', j' := if i <= k then i else i - 1, if j <= k then j else j - 1;
      if i' < j' { SeparatePair(s, i', j'); }
    }
  }

  lemma SnocSeparate(s: seq<Slab>, x: Slab)
    requires Separate(s) && forall p: nat :: Holds(x, p) ==> !Covers(s, p)
    ensures Separate(s + [x])
  {
    var r := s + [x];
    forall i, j | 0 <= i < j < |r|
      ensures SeparateAt(r, i, j)
    {
      if j < |s| {
        SeparatePair(s, i, j);
      } else if !Disjoint(s[i], x) {
        var p := if x.addr < s[i].addr then s[i].addr else x.addr;
        CoversAt(s, i, p);
        assert Holds(x, p);
      }
    }
  }

  lemma CarveSeparate(s: seq<Slab>, k: nat, n: nat)
    requires k < |s| && n <= s[k].size && Separate(s)
    ensures Separate(Carve(s, k, n))
  {
    if n + HEADER < s[k].size {
      SplitSeparate(s, k, n);
      MarkSeparate(Split(s, k, n), k, false);
    } else {
      MarkSeparate(s, k, false);
    }
  }

  /** The memory that a call acquires was not acquired before. */
  ghost predicate NewTo(owned: Memory, more: Memory) {
    forall p: nat :: p in more ==> p !in owned
  }

  lemma GrowSeparate(s: seq<Slab>, owned: Memory, base: nat, pages: nat)
    requires Partition(s, owned) && 0 < pages && NewTo(owned, RunOf(base, pages))
    ensures Separate(Grow(s, base, pages))
  {
    var x := Slab(base, pages * PAGE - HEADER, true);
    forall p: nat | Holds(x, p)
      ensures !Covers(s, p)
    {
      assert InRun(base, pages, p) && p in RunOf(base, pages);
    }
    SnocSeparate(s, x);
  }

  lemma PlainPartition(s: seq<Slab>, owned: Memory, n: nat, base: nat)
    requires Partition(s, owned) && NewTo(owned, RunOf(base, PlainPages(s, n)))
    ensures Partition(AllocPlain(s, n, base), owned + RunOf(base, PlainPages(s, n)))
  {
    var k := FirstFit(s, n);
    PlainExact(s, owned, n, base);
    if k < |s| {
      CarveSeparate(s, k, n);
    } else {
      GrowSeparate(s, owned, base, PagesFor(n));
      CarveSeparate(Grow(s, base, PagesFor(n)), k, n);
    }
  }

  /** Longer by bytes that no slab covers, the last slab stays apart from the others. */
  lemma ExtendSeparate(s: seq<Slab>, bytes: nat)
    requires Separate(s) && 0 < |s| && forall p: nat :: Last(s).End() <= p < Last(s).End() + bytes ==> !Covers(s, p)
    ensures Separate(Extend(s, bytes))
  {
    var r := Extend(s, bytes);
    forall i, j | 0 <= i < j < |r|
      ensures SeparateAt(r, i, j)
    {
      SeparatePair(s, i, j);
      if j == |s| - 1 && !Disjoint(r[i], r[j]) {
        CoversAt(s, i, s[i].addr);
      }
    }
  }

  /** The aligned path without the tail's room, or with pages that follow the tail. */
  lemma AlignedSeparate(s: seq<Slab>, owned: Memory, n: nat, base: nat)
    requires Partition(s, owned) && 0 < |s| && NewTo(owned, RunOf(base, AlignedPages(s, n)))
    requires PAGE <= n && TailHasRoom(s) ==> base == Last(s).End()
    ensures Separate(AllocAligned(s, n, base))
  {
    var w := WholePages(n);
    var r := Aligning(s, n, base);
    if TailHasRoom(s) {
      var k, m := |s| - 1, Last(s).size - HEADER;
      var t := Split(s, k, m);
      SplitSeparate(s, k, m);
      SplitAt(s, k, m);
      forall p: nat | Last(t).End() <= p < Last(t).End() + w * PAGE
        ensures !Covers(t, p)
      {
        SplitCovers(s, k, m, p);
        assert InRun(base, w, p) && p in RunOf(base, AlignedPages(s, n));
      }
      ExtendSeparate(t, w * PAGE);
    } else {
      GrowSeparate(s, owned, base, w + 1);
      SplitSeparate(Grow(s, base, w + 1), |s|, PAGE - 2 * HEADER);
    }
    MarkSeparate(r, |r| - 1, false);
  }

  /** Over a gap the block cannot be right: it covers what is not its own, or leaves out what is. */
  lemma AlignedOverGap(s: seq<Slab>, owned: Memory, n: nat, base: nat)
    requires Partition(s, owned) && 0 < |s| && NewTo(owned, RunOf(base, AlignedPages(s, n)))
    requires PAGE <= n && TailHasRoom(s) && base != Last(s).End()
    ensures !Partition(AllocAligned(s, n, base), owned + RunOf(base, AlignedPages(s, n)))
  {
    var e, w := Last(s).End(), AlignedPages(s, n);
    var r, o := AllocAligned(s, n, base), owned + RunOf(base, w);
    AlignedCovers(s, n, base, e);
    AlignedCovers(s, n, base, base);
    assert InRun(e, w, e) && InRun(base, w, base) && base in RunOf(base, w);
    assert Covers(s, base) <==> base in owned;
    assert Covers(s, e) <==> e in owned;
    if Partition(r, o) {
      assert Covers(r, base) <==> base in o;
      assert Covers(r, e) <==> e in o;
      var i :| 0 <= i < |s| && s[i].addr <= e < s[i].End();
      AlignedOthers(s, n, base, i);
      SeparatePair(r, i, |s|);
    }
  }

  lemma AlignedOthers(s: seq<Slab>, n: nat, base: nat, i: nat)
    requires 0 < |s| && TailHasRoom(s) && i < |s| - 1
    ensures var r := AllocAligned(s, n, base);
      |r| == |s| + 1 && r[i] == s[i] && r[|s|] == Slab(Last(s).End() - HEADER, WholePages(n) * PAGE, false)
  {
    SplitAt(s, |s| - 1, Last(s).size - HEADER);
  }

  // ---------------------------------------------------------------- one call, and runs of them

  /** What decides it: kfree joins adjacent slabs, and the aligned path uses a tail with room
      only where its new pages follow it. */
  predicate Adjacent(s: seq<Slab>, op: Op)
    requires 0 < |s| && (op.Release? ==> op.k < |s|)
  {
    match op
    case Plain(_, _) => true
    case Aligned(n, base) => PAGE <= n && TailHasRoom(s) ==> base == Last(s).End()
    case Release(k) => FreeAdjacent(s, k)
  }

  /** Wherever the new pages lie: the slabs still partition the memory acquired after the call if
      and only if it joins on its own memory. */
  lemma StepPartition(h: Heap, owned: Memory, op: Op)
    requires Partition(h.slabs, owned) && Legal(Anywhere, h, op) && NewTo(owned, NewMemory(h.slabs, op))
    ensures Partition(Apply(h, op).slabs, owned + NewMemory(h.slabs, op)) <==> Adjacent(h.slabs, op)
  {
    match op
    case Plain(n, base) => PlainPartition(h.slabs, owned, n, base);
    case Aligned(n, base) =>
      if Adjacent(h.slabs, op) {
        AlignedSeparate(h.slabs, owned, n, base);
        AlignedCoversNew(h.slabs, owned, n, base);
      } else {
        AlignedOverGap(h.slabs, owned, n, base);
      }
    case Release(k) =>
      FreePartition(h.slabs, owned, k);
      assert owned + iset{} == owned;
  }

  lemma AlignedCoversNew(s: seq<Slab>, owned: Memory, n: nat, base: nat)
    requires Exact(s, owned) && 0 < |s| && (PAGE <= n && TailHasRoom(s) ==> base == Last(s).End())
    ensures Exact(AllocAligned(s, n, base), owned + RunOf(base, AlignedPages(s, n)))
  {
    var r, o := AllocAligned(s, n, base), owned + RunOf(base, AlignedPages(s, n));
    forall p: nat
      ensures Covers(r, p) <==> p in o
    {
      AlignedCovers(s, n, base, p);
      assert Covers(s, p) <==> p in owned;
      assert InRun(AlignedStart(s, base), AlignedPages(s, n), p) <==> InRun(base, AlignedPages(s, n), p);
    }
  }

  /** Each call acquires memory that is new, and joins on its own memory. */
  ghost predicate OwnRun(h: Heap, owned: Memory, ops: seq<Op>)
    decreases |ops|
  {
    |ops| == 0 ||
    (Legal(Anywhere, h, ops[0]) && NewTo(owned, NewMemory(h.slabs, ops[0])) && Adjacent(h.slabs, ops[0]) &&
     OwnRun(Apply(h, ops[0]), owned + NewMemory(h.slabs, ops[0]), ops[1..]))
  }

  /** Over such a run, in any order of pages, the slabs partition the memory acquired. */
  lemma {:induction false} RunPartition(h: Heap, owned: Memory, ops: seq<Op>)
    requires Partition(h.slabs, owned) && OwnRun(h, owned, ops)
    ensures LegalRun(Anywhere, h, ops)
    ensures Partition(Run(Anywhere, h, ops).slabs, Acquired(Anywhere, h, ops, owned))
    decreases |ops|
  {
    if |ops| != 0 {
      StepPartition(h, owned, ops[0]);
      RunPartition(Apply(h, ops[0]), owned + NewMemory(h.slabs, ops[0]), ops[1..]);
    }
  }

  lemma FreshPartition(base0: nat)
    ensures Partition(Fresh(base0).slabs, RunOf(base0, 1))
  {
    FreshExact(base0);
  }
}
