/** The mapping loops of bootstrap as values: what each page translates to once they have run, and
    which tables they need. */
module MapLoops {
  import opened Common
  import opened PageTables
  import opened TableTree
  import opened Words
  import FrameAlloc
  import Bits

  // ---------------------------------------------------------------- one loop

  /** Where a mapping loop puts the frames: at the or'd address, or at a fixed distance. */
  datatype Placement = Or(offset: nat) | Shift(offset: nat) {
    function At(k: nat): nat {
      match this
      case Or(offset) => Bits.Or(k * PAGE, offset)
      case Shift(offset) => k * PAGE + offset
    }

    function Page(k: nat): nat { VirtualPage(At(k)) }
  }

  /** A loop that maps the frames from first to end, in ascending order. */
  datatype Loop = Loop(pl: Placement, first: nat, end: nat, rw: bool, user: bool)

  /** No frame of the loop is mapped at the page of v. */
  ghost predicate Untouched(l: Loop, v: nat) {
    forall j :: l.first <= j < l.end ==> l.pl.Page(j) != VirtualPage(v)
  }

  /** The last frame that the loop maps at the page of v. */
  function LastAt(l: Loop, v: nat): (k: Option<nat>)
    ensures k.None? <==> Untouched(l, v)
    ensures k.Some? ==> l.first <= k.value < l.end && l.pl.Page(k.value) == VirtualPage(v)
    ensures k.Some? ==> forall j :: k.value < j < l.end ==> l.pl.Page(j) != VirtualPage(v)
    decreases l.end
  {
    if l.end <= l.first then None
    else if l.pl.Page(l.end - 1) == VirtualPage(v) then Some(l.end - 1)
    else LastAt(l.(end := l.end - 1), v)
  }

  lemma LastIs(l: Loop, v: nat, k: nat)
    requires l.first <= k < l.end && l.pl.Page(k) == VirtualPage(v)
    requires forall j :: k < j < l.end ==> l.pl.Page(j) != VirtualPage(v)
    ensures LastAt(l, v) == Some(k)
  {
  }

  /** No address translates differently. */
  ghost predicate SameWalks(m: Ram, m1: Ram, root: nat) {
    forall v :: Translate(m1, root, v) == Translate(m, root, v)
  }

  ghost predicate SameOpenPaths(m: Ram, m1: Ram, root: nat) {
    forall v :: OpenPath(m1, root, Path(v)) == OpenPath(m, root, Path(v))
  }

  lemma SameThen(m: Ram, m1: Ram, m2: Ram, root: nat)
    requires SameWalks(m, m1, root) && SameWalks(m1, m2, root)
    ensures SameWalks(m, m2, root)
  {
  }

  /** Translation of v once the loop has run over memory m0. */
  ghost function Over(m0: Ram, root: nat, l: Loop, v: nat): Option<Translation> {
    match LastAt(l, v)
    case None => Translate(m0, root, v)
    case Some(k) => Some(Translation(k % W40, l.rw && OpenPath(m0, root, Path(v)), l.user, false, false))
  }

  ghost predicate LaidAt(m0: Ram, m: Ram, root: nat, l: Loop, v: nat) {
    Translate(m, root, v) == Over(m0, root, l, v)
  }

  /** The effect of a loop on every address. */
  ghost predicate Laid(m0: Ram, m: Ram, root: nat, l: Loop) {
    forall v :: LaidAt(m0, m, root, l, v)
  }

  lemma LastStep(l: Loop, k: nat, v: nat)
    requires l.first <= k
    ensures LastAt(l.(end := k + 1), v) ==
      if l.pl.Page(k) == VirtualPage(v) then Some(k) else LastAt(l.(end := k), v)
  {
    assert l.(end := k + 1).(end := k) == l.(end := k);
  }

  lemma LaidStep(m0: Ram, m: Ram, m1: Ram, root: nat, l: Loop, k: nat)
    requires l.first <= k && Laid(m0, m, root, l.(end := k)) && (l.rw ==> SameOpenPaths(m0, m, root))
    requires var v := l.pl.At(k);
      Translate(m1, root, v) == Some(Translation(k % W40, l.rw && OpenPath(m, root, Path(v)), l.user, false, false))
    requires forall v :: VirtualPage(v) != l.pl.Page(k) ==> Translate(m1, root, v) == Translate(m, root, v)
    ensures Laid(m0, m1, root, l.(end := k + 1))
  {
    var l1 := l.(end := k + 1);
    forall v
      ensures LaidAt(m0, m1, root, l1, v)
    {
      PathExactly(v, l.pl.At(k));
      LastStep(l, k, v);
      assert LaidAt(m0, m, root, l.(end := k), v);
    }
  }

  lemma LaidSame(m0: Ram, m: Ram, m1: Ram, root: nat, l: Loop)
    requires Laid(m0, m, root, l) && SameWalks(m, m1, root)
    ensures Laid(m0, m1, root, l)
  {
    forall v
      ensures LaidAt(m0, m1, root, l, v)
    {
      assert LaidAt(m0, m, root, l, v);
    }
  }

  lemma NoTurns(m: Ram, root: nat, l: Loop)
    requires l.end <= l.first
    ensures Laid(m, m, root, l) && LoopTables(l) == {}
  {
  }

  /** The tables below the pml4 on the way to an address. */
  function Tables(v: nat): set<seq<nat>> { {Path(v)[..1], Path(v)[..2], Path(v)[..3]} }

  lemma PathTables(m: Ram, at: Tree, root: nat, v: nat)
    requires Wellformed(m, at, root) && Path(v)[..3] in at
    ensures Tables(v) <= at.Keys
  {
    PrefixIn(m, at, root, Path(v)[..3], 1);
    PrefixIn(m, at, root, Path(v)[..3], 2);
    assert Path(v)[..3][..1] == Path(v)[..1] && Path(v)[..3][..2] == Path(v)[..2];
  }

  function LoopTables(l: Loop): set<seq<nat>> {
    set k: nat, p | l.first <= k < l.end && p in Tables(l.pl.At(k)) :: p
  }

  lemma LoopTablesStep(l: Loop, k: nat)
    requires l.first <= k
    ensures LoopTables(l.(end := k)) + Tables(l.pl.At(k)) == LoopTables(l.(end := k + 1))
    ensures k < l.end ==> LoopTables(l.(end := k + 1)) <= LoopTables(l)
  {
  }

  // ---------------------------------------------------------------- what a loop shadows

  /** Two pages less than 2^48 bytes apart stay apart when both are shifted. */
  lemma ShiftedPages(j: nat, k: nat, offset: nat)
    requires j < k < j + W36
    ensures VirtualPage(j * PAGE + offset) != VirtualPage(k * PAGE + offset)
  {
    assert (j * PAGE + offset) / PAGE == j + offset / PAGE && (k * PAGE + offset) / PAGE == k + offset / PAGE;
  }

  /** map_region shadows nothing in a region of up to 2^48 bytes. */
  lemma RegionComplete(l: Loop, k: nat)
    requires l.pl.Shift? && l.first <= k < l.end <= l.first + W36
    ensures LastAt(l, l.pl.At(k)) == Some(k)
  {
    forall j | k < j < l.end
      ensures l.pl.Page(j) != l.pl.Page(k)
    {
      ShiftedPages(k, j, l.pl.offset);
    }
    LastIs(l, l.pl.At(k), k);
  }

  /** Beyond, the page of the first frame goes to a later one. */
  lemma RegionShadowed(l: Loop)
    requires l.pl.Shift? && l.first + W36 < l.end
    ensures LastAt(l, l.pl.At(l.first)) != Some(l.first)
  {
    var k := l.first + W36;
    assert (l.first * PAGE + l.pl.offset) / PAGE + W36 == (k * PAGE + l.pl.offset) / PAGE;
    assert l.pl.Page(k) == l.pl.Page(l.first);
  }

  /** With an offset whose one bits are disjoint from every address mapped, and addresses below
      2^48, the direct map shadows nothing. The or'd address is the sum with the offset, and
      virt_to_phys leads back. */
  lemma DirectMapComplete(l: Loop, k: nat)
    requires l.pl.Or? && l.first <= k < l.end <= W36
    requires forall j :: 0 <= j < l.end ==> Bits.Disjoint(j * PAGE, l.pl.offset)
    ensures LastAt(l, l.pl.At(k)) == Some(k)
    ensures l.pl.At(k) == k * PAGE + l.pl.offset && Bits.Xor(l.pl.At(k), l.pl.offset) == k * PAGE
  {
    var offset := l.pl.offset;
    Bits.OrDisjoint(k * PAGE, offset);
    Bits.XorOrExactly(k * PAGE, offset);
    forall j | k < j < l.end
      ensures l.pl.Page(j) != l.pl.Page(k)
    {
      Bits.OrDisjoint(j * PAGE, offset);
      ShiftedPages(k, j, offset);
    }
    LastIs(l, l.pl.At(k), k);
  }

  // ---------------------------------------------------------------- loops one after another

  /** Translation of v once the loops have run from the empty pml4: the last one decides. */
  ghost function Meant(loops: seq<Loop>, v: nat): Option<Translation> {
    if |loops| == 0 then None
    else
      var l := loops[|loops| - 1];
      match LastAt(l, v)
      case None => Meant(loops[..|loops| - 1], v)
      case Some(k) => Some(Translation(k % W40, l.rw, l.user, false, false))
  }

  /** The tables that the loops need below the pml4. */
  function AllTables(loops: seq<Loop>): set<seq<nat>> {
    if |loops| == 0 then {} else AllTables(loops[..|loops| - 1]) + LoopTables(loops[|loops| - 1])
  }

  lemma AllTablesSnoc(loops: seq<Loop>, l: Loop)
    ensures AllTables(loops + [l]) == AllTables(loops) + LoopTables(l)
  {
    assert (loops + [l])[..|loops|] == loops;
  }

  lemma {:induction false} TablesMore(loops: seq<Loop>, more: seq<Loop>)
    ensures AllTables(loops) <= AllTables(loops + more)
    decreases |more|
  {
    if |more| == 0 {
      assert loops + more == loops;
    } else {
      assert loops + more == loops + more[..|more| - 1] + [more[|more| - 1]];
      AllTablesSnoc(loops + more[..|more| - 1], more[|more| - 1]);
      TablesMore(loops, more[..|more| - 1]);
    }
  }

  /** The pml4 is not among them. */
  lemma {:induction false} NoRoot(loops: seq<Loop>)
    ensures [] !in AllTables(loops)
  {
    if |loops| > 0 {
      NoRoot(loops[..|loops| - 1]);
      assert forall v :: [] !in Tables(v);
    }
  }

  ghost predicate ShownAt(m: Ram, root: nat, loops: seq<Loop>, v: nat) {
    Translate(m, root, v) == Meant(loops, v)
  }

  /** Memory translates every address as the loops mean it. */
  ghost predicate Shown(m: Ram, root: nat, loops: seq<Loop>) {
    forall v :: ShownAt(m, root, loops, v)
  }

  lemma ShownStep(m0: Ram, m: Ram, root: nat, loops: seq<Loop>, l: Loop)
    requires Shown(m0, root, loops) && Laid(m0, m, root, l) && forall v :: OpenPath(m0, root, Path(v))
    ensures Shown(m, root, loops + [l])
  {
    forall v
      ensures ShownAt(m, root, loops + [l], v)
    {
      assert ShownAt(m0, root, loops, v) && LaidAt(m0, m, root, l, v);
      assert (loops + [l])[..|loops|] == loops;
    }
  }

  /** The last loop that maps a page decides, and pages that no loop maps stay absent. */
  lemma {:induction false} MeantLast(loops: seq<Loop>, i: nat, v: nat)
    requires i <= |loops| && forall j :: i <= j < |loops| ==> Untouched(loops[j], v)
    ensures i == 0 ==> Meant(loops, v).None?
    ensures i > 0 ==> var l := loops[i - 1];
      forall k :: LastAt(l, v) == Some(k) ==> Meant(loops, v) == Some(Translation(k % W40, l.rw, l.user, false, false))
    decreases |loops|
  {
    if i < |loops| {
      MeantLast(loops[..|loops| - 1], i, v);
    }
  }

  // ---------------------------------------------------------------- the loops of bootstrap

  /** First page behind a region. */
  function RegionEnd(r: FrameAlloc.Region): nat { (r.base + r.length + PAGE - 1) / PAGE }

  function RegionLoop(r: FrameAlloc.Region, offset: nat, rw: bool, user: bool): Loop {
    Loop(Shift(offset), r.base / PAGE, RegionEnd(r), rw, user)
  }

  /** The loop of map_region has exactly the turns of the frames that end behind the region's base and
      start below its end. */
  lemma RegionTurns(r: FrameAlloc.Region, offset: nat, rw: bool, user: bool, k: nat)
    ensures var l := RegionLoop(r, offset, rw, user);
      && (l.first <= k <==> r.base < (k + 1) * PAGE)
      && (k < l.end <==> k * PAGE < r.base + r.length)
      && l.pl.At(k) == k * PAGE + offset
  {
  }

  function KernelEnd(r: FrameAlloc.Region): nat { r.base / PAGE + (r.length + PAGE - 1) / PAGE }

  /** The loop of map_kernel_region starts at the region's base itself, so the shift keeps the offset
      in the page. The difference of the two bases is a 64-bit one; 2^64 more changes no bit below 64. */
  function KernelLoop(r: FrameAlloc.Region, virtualBase: nat, physicalBase: nat): Loop
    requires physicalBase <= W64
  {
    Loop(Shift(virtualBase + (W64 - physicalBase) + r.base % PAGE), r.base / PAGE, KernelEnd(r), true, false)
  }

  /** The turns of that loop and the addresses it maps. */
  lemma KernelTurns(r: FrameAlloc.Region, virtualBase: nat, physicalBase: nat, i: nat)
    requires physicalBase <= W64
    ensures var l, cur := KernelLoop(r, virtualBase, physicalBase), r.base + i * PAGE;
      && cur / PAGE == l.first + i
      && virtualBase + W64 + cur - physicalBase == l.pl.At(l.first + i)
      && (cur < r.base + r.length <==> l.first + i < l.end)
  {
  }

  /** What bootstrap maps after the direct map; bitmap is the address that get_bitmap_address gives. */
  datatype Plan = Plan(kernel: FrameAlloc.Region, virtualBase: nat, physicalBase: nat,
                       framebuffer: FrameAlloc.Region, bitmap: nat)

  function DirectLoop(last: nat, offset: nat): Loop { Loop(Or(offset), 0, last / PAGE + 1, true, false) }

  /** The loop of map_accessible_space has exactly the turns of the frames up to last. */
  lemma DirectTurns(last: nat, offset: nat, k: nat)
    ensures var l := DirectLoop(last, offset); l.first <= k < l.end <==> k * PAGE <= last
  {
  }

  function BitmapLoop(base: nat, frames: nat, offset: nat): Loop {
    RegionLoop(FrameAlloc.Region(base, frames * PAGE), offset, true, false)
  }

  function BootLoops(last: nat, offset: nat, plan: Plan, bitmapFrames: nat): seq<Loop>
    requires plan.physicalBase <= W64
  {
    [DirectLoop(last, offset),
     KernelLoop(plan.kernel, plan.virtualBase, plan.physicalBase),
     RegionLoop(plan.framebuffer, offset, true, false),
     BitmapLoop(plan.bitmap, bitmapFrames, offset)]
  }

  /** last is the highest end of any region, rounded down to a page. */
  ghost predicate Top(regions: seq<FrameAlloc.Region>, last: nat) {
    && last % PAGE == 0
    && (forall r :: r in regions ==> r.base + r.length < last + PAGE)
    && (exists r :: r in regions && last == r.base + r.length - (r.base + r.length) % PAGE)
  }

  /** Frame k starts below the end of some region, and all regions end below top pages, which
      are disjoint from the offset. */
  ghost predicate Covers(regions: seq<FrameAlloc.Region>, offset: nat, k: nat, top: nat) {
    && top <= W36
    && (exists r :: r in regions && k * PAGE < r.base + r.length)
    && (forall r :: r in regions ==> r.base + r.length < top * PAGE)
    && (forall j :: 0 <= j < top ==> Bits.Disjoint(j * PAGE, offset))
  }

  /** Writable and closed to user mode, the address goes to frame k. */
  ghost predicate Lands(m: Ram, root: nat, v: nat, k: nat) {
    Translate(m, root, v) == Some(Translation(k % W40, true, false, false, false))
  }

  /** Frame k of memory is found at its or'd address, from where virt_to_phys leads back. */
  ghost predicate Found(m: Ram, root: nat, offset: nat, k: nat) {
    var v := Bits.Or(k * PAGE, offset);
    Translate(m, root, v) == Some(Translation(k, true, false, false, false)) && Bits.Xor(v, offset) == k * PAGE
  }

  /** None of the loops from the i-th on maps the page of v. */
  ghost predicate UntouchedFrom(loops: seq<Loop>, i: nat, v: nat) {
    forall j :: i <= j < |loops| ==> Untouched(loops[j], v)
  }

  lemma CoveredTop(regions: seq<FrameAlloc.Region>, offset: nat, k: nat, top: nat, last: nat)
    requires Covers(regions, offset, k, top) && Top(regions, last)
    ensures k < last / PAGE + 1 <= top && k % W40 == k
  {
    assert k < W40;
  }

  lemma CoveredFound(m: Ram, root: nat, loops: seq<Loop>, offset: nat, last: nat,
                     regions: seq<FrameAlloc.Region>, k: nat, top: nat)
    requires Shown(m, root, loops) && 0 < |loops| && loops[0] == DirectLoop(last, offset) && Top(regions, last)
    requires Covers(regions, offset, k, top) && UntouchedFrom(loops, 1, Bits.Or(k * PAGE, offset))
    ensures Found(m, root, offset, k)
  {
    var v, l := Bits.Or(k * PAGE, offset), loops[0];
    CoveredTop(regions, offset, k, top, last);
    DirectMapComplete(l, k);
    MeantLast(loops, 1, v);
    assert ShownAt(m, root, loops, v);
  }

  /** A frame of loop i is at its place unless a later turn or loop maps that page. */
  ghost predicate PlacedAt(m: Ram, root: nat, loops: seq<Loop>, i: nat, k: nat)
    requires i < |loops|
  {
    var v := loops[i].pl.At(k);
    LastAt(loops[i], v) == Some(k) && UntouchedFrom(loops, i + 1, v) ==> Lands(m, root, v, k)
  }

  lemma LoopLands(m: Ram, root: nat, loops: seq<Loop>, i: nat, k: nat, v: nat)
    requires Shown(m, root, loops) && i < |loops| && loops[i].rw && !loops[i].user
    requires LastAt(loops[i], v) == Some(k) && UntouchedFrom(loops, i + 1, v)
    ensures Lands(m, root, v, k)
  {
    MeantLast(loops, i + 1, v);
    assert ShownAt(m, root, loops, v);
  }

  ghost predicate MemoryAt(m: Ram, root: nat, loops: seq<Loop>, offset: nat, regions: seq<FrameAlloc.Region>,
                           k: nat, top: nat)
  {
    Covers(regions, offset, k, top) && UntouchedFrom(loops, 1, Bits.Or(k * PAGE, offset)) ==> Found(m, root, offset, k)
  }

  /** Frame k of the framebuffer is at its shifted address, unless the loop over the bitmap maps that page. */
  ghost predicate FramebufferAt(m: Ram, root: nat, loops: seq<Loop>, offset: nat, r: FrameAlloc.Region, k: nat) {
    r.base / PAGE <= k && k * PAGE < r.base + r.length && UntouchedFrom(loops, 3, k * PAGE + offset) ==>
      Lands(m, root, k * PAGE + offset, k)
  }

  ghost predicate BitmapAt(m: Ram, root: nat, offset: nat, base: nat, frames: nat, k: nat) {
    base / PAGE <= k && k * PAGE < base + frames * PAGE ==> Lands(m, root, k * PAGE + offset, k)
  }

  /** The four loops of bootstrap, as their callers see them: every frame of memory is at its or'd address
      and every frame of the kernel at its link address unless a later loop maps the page, every frame of
      the framebuffer (of up to 2^48 bytes, counted from its first page) unless the last does, and every
      frame of the last loop; an address whose page no loop maps is absent. */
  ghost predicate Booted(m: Ram, root: nat, loops: seq<Loop>, offset: nat, regions: seq<FrameAlloc.Region>,
                         plan: Plan, bitmapFrames: nat)
    requires |loops| == 4
  {
    && (forall k: nat, top: nat :: MemoryAt(m, root, loops, offset, regions, k, top))
    && (forall k: nat :: PlacedAt(m, root, loops, 1, k))
    && (plan.framebuffer.base % PAGE + plan.framebuffer.length <= W36 * PAGE ==>
         forall k: nat :: FramebufferAt(m, root, loops, offset, plan.framebuffer, k))
    && (forall k: nat :: BitmapAt(m, root, offset, plan.bitmap, bitmapFrames, k))
    && (forall v: nat :: UntouchedFrom(loops, 0, v) ==> Translate(m, root, v).None?)
  }

  lemma RegionPages(r: FrameAlloc.Region)
    requires r.base % PAGE + r.length <= W36 * PAGE
    ensures RegionEnd(r) <= r.base / PAGE + W36
  {
  }

  /** A region of up to 2^48 bytes, counted from its first page, is mapped page by page, and nothing of it
      is shadowed. */
  lemma RegionLast(r: FrameAlloc.Region, offset: nat, rw: bool, user: bool, k: nat)
    requires r.base % PAGE + r.length <= W36 * PAGE && r.base / PAGE <= k && k * PAGE < r.base + r.length
    ensures LastAt(RegionLoop(r, offset, rw, user), k * PAGE + offset) == Some(k)
  {
    RegionTurns(r, offset, rw, user, k);
    RegionPages(r);
    RegionComplete(RegionLoop(r, offset, rw, user), k);
  }

  lemma RegionLands(m: Ram, root: nat, loops: seq<Loop>, i: nat, r: FrameAlloc.Region, offset: nat, k: nat)
    requires Shown(m, root, loops) && i < |loops| && loops[i] == RegionLoop(r, offset, true, false)
    requires r.base % PAGE + r.length <= W36 * PAGE && r.base / PAGE <= k && k * PAGE < r.base + r.length
    requires UntouchedFrom(loops, i + 1, k * PAGE + offset)
    ensures Lands(m, root, k * PAGE + offset, k)
  {
    RegionLast(r, offset, true, false, k);
    LoopLands(m, root, loops, i, k, k * PAGE + offset);
  }

  lemma RegionsPlaced(m: Ram, root: nat, loops: seq<Loop>, offset: nat, plan: Plan, frames: nat)
    requires Shown(m, root, loops) && |loops| == 4 && frames < W36
    requires loops[2] == RegionLoop(plan.framebuffer, offset, true, false)
    requires loops[3] == BitmapLoop(plan.bitmap, frames, offset)
    ensures plan.framebuffer.base % PAGE + plan.framebuffer.length <= W36 * PAGE ==>
      forall k: nat :: FramebufferAt(m, root, loops, offset, plan.framebuffer, k)
    ensures forall k: nat :: BitmapAt(m, root, offset, plan.bitmap, frames, k)
  {
    var r := plan.framebuffer;
    if r.base % PAGE + r.length <= W36 * PAGE {
      forall k: nat
        ensures FramebufferAt(m, root, loops, offset, r, k)
      {
        if r.base / PAGE <= k && k * PAGE < r.base + r.length && UntouchedFrom(loops, 3, k * PAGE + offset) {
          RegionLands(m, root, loops, 2, r, offset, k);
        }
      }
    }
    forall k: nat
      ensures BitmapAt(m, root, offset, plan.bitmap, frames, k)
    {
      if plan.bitmap / PAGE <= k && k * PAGE < plan.bitmap + frames * PAGE {
        RegionLands(m, root, loops, 3, FrameAlloc.Region(plan.bitmap, frames * PAGE), offset, k);
      }
    }
  }

  lemma BootMeaning(m: Ram, root: nat, last: nat, offset: nat, regions: seq<FrameAlloc.Region>, plan: Plan, frames: nat)
    requires plan.physicalBase <= W64 && Top(regions, last) && frames < W36
    requires Shown(m, root, BootLoops(last, offset, plan, frames))
    ensures Booted(m, root, BootLoops(last, offset, plan, frames), offset, regions, plan, frames)
  {
    var loops := BootLoops(last, offset, plan, frames);
    forall k: nat, top: nat
      ensures MemoryAt(m, root, loops, offset, regions, k, top)
    {
      if Covers(regions, offset, k, top) && UntouchedFrom(loops, 1, Bits.Or(k * PAGE, offset)) {
        CoveredFound(m, root, loops, offset, last, regions, k, top);
      }
    }
    forall k: nat
      ensures PlacedAt(m, root, loops, 1, k)
    {
      var v := loops[1].pl.At(k);
      if LastAt(loops[1], v) == Some(k) && UntouchedFrom(loops, 2, v) { LoopLands(m, root, loops, 1, k, v); }
    }
    RegionsPlaced(m, root, loops, offset, plan, frames);
    forall v: nat | UntouchedFrom(loops, 0, v)
      ensures Translate(m, root, v).None?
    {
      MeantLast(loops, 0, v);
      assert ShownAt(m, root, loops, v);
    }
  }

  /** The loop over the bitmap gets the bitmap's virtual address for a physical one. The frame it maps
      for frame f of the bitmap is f itself exactly when the offset has none of the bits 12 to 51. */
  lemma BitmapLoopFrame(base: nat, offset: nat, i: nat)
    requires base % PAGE == 0 && Bits.Disjoint(base, offset) && base / PAGE + i < W40
    ensures (Bits.Or(base, offset) / PAGE + i) % W40 == base / PAGE + i <==> offset / PAGE % W40 == 0
  {
    Bits.OrDisjoint(base, offset);
    assert (base + offset) / PAGE == base / PAGE + offset / PAGE;
    FrameShift(base / PAGE + i, offset / PAGE);
  }

  lemma FrameShift(f: nat, d: nat)
    requires f < W40
    ensures (f + d) % W40 == f <==> d % W40 == 0
  {
    assert (f + d) % W40 == (f + d % W40) % W40;
  }
}
