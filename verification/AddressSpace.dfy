/** map_page and the loops over it: page tables built in frames of the frame allocator. */
module AddressSpace {
  import opened Common
  import opened PageTables
  import opened TableTree
  import opened MapLoops
  import opened Words
  import opened FrameAlloc
  import FrameRuns
  import Bits

  /** Every table frame is marked used in the frame bitmap. */
  ghost predicate TablesInUse(at: Tree, u: seq<bool>) {
    forall p {:trigger at[p]} :: p in at ==> at[p] < |u| && u[at[p]]
  }

  /** A path prefix: the place of a table. */
  type Prefix = seq<nat>

  // ---------------------------------------------------------------- frames and tables

  ghost predicate Stays(at: Tree, at1: Tree, p: Prefix)
    requires p in at
  {
    p in at1 && at1[p] == at[p]
  }

  /** Tables stay where they are. */
  ghost predicate Extends(at: Tree, at1: Tree) {
    forall p {:trigger Stays(at, at1, p)} :: p in at ==> Stays(at, at1, p)
  }

  lemma ExtendsThen(at: Tree, at1: Tree, at2: Tree)
    requires Extends(at, at1) && Extends(at1, at2)
    ensures Extends(at, at2)
  {
    forall p | p in at
      ensures Stays(at, at2, p)
    {
      assert Stays(at, at1, p) && Stays(at1, at2, p);
    }
  }

  ghost predicate Gained(had: set<Prefix>, now: set<Prefix>, want: set<Prefix>, p: Prefix) {
    p in now <==> p in had || p in want
  }

  ghost predicate Within(had: set<Prefix>, now: set<Prefix>, want: set<Prefix>, p: Prefix) {
    (p in had ==> p in now) && (p in now ==> p in had || p in want)
  }

  /** Of the wanted tables all were added and no others, or some before no frame was free. */
  ghost predicate Supplied(had: set<Prefix>, now: set<Prefix>, want: set<Prefix>, ok: bool, free: set<nat>) {
    if ok then forall p :: Gained(had, now, want, p)
    else free == {} && (forall p :: Within(had, now, want, p)) && exists p :: p in want && p !in now
  }

  lemma SuppliedThen(had: set<Prefix>, now: set<Prefix>, now1: set<Prefix>, want: set<Prefix>, want1: set<Prefix>,
                     all: set<Prefix>, ok: bool, free: set<nat>, free1: set<nat>)
    requires Supplied(had, now, want, true, free) && Supplied(now, now1, want1, ok, free1)
    requires if ok then all == want + want1 else want + want1 <= all
    ensures Supplied(had, now1, all, ok, free1)
  {
    forall p
      ensures if ok then Gained(had, now1, all, p) else Within(had, now1, all, p)
    {
      assert Gained(had, now, want, p);
      assert if ok then Gained(now, now1, want1, p) else Within(now, now1, want1, p);
    }
  }

  /** When each table takes one free frame, all goes well exactly when there are as many of those as
      tables missing. */
  lemma SuppliedExactly(had: set<Prefix>, now: set<Prefix>, want: set<Prefix>, ok: bool, free: nat, free1: set<nat>)
    requires Supplied(had, now, want, ok, free1) && |now| + |free1| == |had| + free
    ensures ok <==> |want - had| <= free
    ensures |free1| == if ok then free - |want - had| else 0
  {
    var all := had + want;
    assert all == had + (want - had);
    if ok {
      forall p
        ensures p in now <==> p in all
      {
        assert Gained(had, now, want, p);
      }
      assert now == all;
    } else {
      var missing :| missing in want && missing !in now;
      forall p | p in now
        ensures p in all
      {
        assert Within(had, now, want, p);
      }
      assert missing !in had by { assert Within(had, now, want, missing); }
      SubsetSmaller(now, all - {missing});
    }
  }

  /** The path of v lets through writes as before, unless a table on it was linked without the write bit. */
  ghost predicate ClosedAt(m: Ram, at: Tree, m1: Ram, at1: Tree, root: nat, rw: bool, v: nat) {
    OpenPath(m1, root, Path(v)) <==>
      OpenPath(m, root, Path(v)) && (rw || forall p :: p in Tables(v) && p in at1 ==> p in at)
  }

  ghost predicate Closed(m: Ram, at: Tree, m1: Ram, at1: Tree, root: nat, rw: bool) {
    forall v :: ClosedAt(m, at, m1, at1, root, rw, v)
  }

  lemma ClosedThen(m: Ram, at: Tree, m1: Ram, at1: Tree, m2: Ram, at2: Tree, root: nat, rw: bool)
    requires Extends(at, at1) && Extends(at1, at2)
    requires Closed(m, at, m1, at1, root, rw) && Closed(m1, at1, m2, at2, root, rw)
    ensures Closed(m, at, m2, at2, root, rw)
  {
    ExtendsKeys(at, at1);
    ExtendsKeys(at1, at2);
    forall v
      ensures ClosedAt(m, at, m2, at2, root, rw, v)
    {
      assert ClosedAt(m, at, m1, at1, root, rw, v) && ClosedAt(m1, at1, m2, at2, root, rw, v);
    }
  }

  /** Nothing linked, or linked with the write bit: every path lets through writes as before. */
  lemma ClosedNothing(m: Ram, at: Tree, root: nat, rw: bool)
    ensures Closed(m, at, m, at, root, rw)
  {
  }

  lemma ClosedSame(m: Ram, at: Tree, m1: Ram, at1: Tree, m2: Ram, root: nat, rw: bool)
    requires Closed(m, at, m1, at1, root, rw) && SameOpenPaths(m1, m2, root)
    ensures Closed(m, at, m2, at1, root, rw) && (rw ==> SameOpenPaths(m, m2, root))
  {
    forall v
      ensures ClosedAt(m, at, m2, at1, root, rw, v)
      ensures rw ==> OpenPath(m2, root, Path(v)) == OpenPath(m, root, Path(v))
    {
      assert ClosedAt(m, at, m1, at1, root, rw, v);
    }
  }

  lemma ExtendsKeys(at: Tree, at1: Tree)
    requires Extends(at, at1)
    ensures at.Keys <= at1.Keys
  {
    forall p | p in at
      ensures p in at1
    {
      assert Stays(at, at1, p);
    }
  }

  lemma AddedExtends(at: Tree, c: Prefix, f: nat)
    requires c !in at
    ensures Extends(at, at[c := f]) && at[c := f].Keys == at.Keys + {c}
    ensures |at[c := f].Keys| == |at.Keys| + 1
  {
    assert at[c := f].Keys == at.Keys + {c};
  }

  lemma FreshEntry(rw: bool, table: nat, f: nat)
    requires table % PAGE == 0 && f == table / PAGE < W40
    ensures table == f * PAGE && Frame(DirEntry(rw, table)) == f
  {
    DirEntryFields(rw, table);
  }

  lemma PathSteps(virt: nat)
    ensures var n := virt / PAGE;
      && [] + [n / ENTRIES / ENTRIES / ENTRIES % ENTRIES] == Path(virt)[..1]
      && Path(virt)[..1] + [n / ENTRIES / ENTRIES % ENTRIES] == Path(virt)[..2]
      && Path(virt)[..2] + [n / ENTRIES % ENTRIES] == Path(virt)[..3]
    ensures var p1: Prefix, p2: Prefix, p3: Prefix := Path(virt)[..1], Path(virt)[..2], Path(virt)[..3];
      {} + {p1} == {p1} && {p1} + {p2} + {p3} == Tables(virt)
  {
  }

  lemma SubsetSmaller<T>(a: set<T>, b: set<T>)
    requires a <= b
    ensures |a| <= |b|
  {
    assert b == a + (b - a);
  }

  lemma AddedTableInUse(at: Tree, c: Prefix, f: nat, u: seq<bool>)
    requires f < |u| && TablesInUse(at, u)
    ensures TablesInUse(at[c := f], u[f := true])
  {
  }

  class AddrSpace {
    const pmm: FrameAllocator
    const virtAddrOffset: nat
    // Table frames in physical memory, and the frame of the pml4.
    var ram: Ram
    var pml4: nat
    ghost var at: Tree
    // Tables and free frames together: each table takes one frame.
    ghost var budget: nat

    ghost predicate Valid()
      reads this, pmm, pmm.ram
    {
      && Ready()
      && Wellformed(ram, at, pml4)
      && TablesInUse(at, pmm.InUse())
      && |at.Keys| + |Free()| == budget
    }

    ghost predicate Ready()
      reads pmm
    {
      pmm.Valid() && 8 * pmm.bitmapSize <= W40
    }

    ghost function Lookup(virt: nat): Option<Translation>
      reads this
    {
      Translate(ram, pml4, virt)
    }

    /** The frames of the bitmap that are not in use. */
    ghost function Free(): set<nat>
      reads pmm, pmm.ram
    {
      FrameRuns.FreeFrames(pmm.InUse(), 8 * pmm.bitmapSize)
    }

    ghost predicate OutOfMemory()
      reads pmm, pmm.ram
      requires Ready()
    {
      forall g :: 0 <= g < 8 * pmm.bitmapSize ==> pmm.InUse()[g]
    }

    lemma NoneFree()
      requires Ready()
      ensures Free() == {} <==> OutOfMemory()
    {
      if Free() == {} {
        forall g | 0 <= g < 8 * pmm.bitmapSize
          ensures pmm.InUse()[g]
        {
          assert g !in Free();
        }
      }
    }

    constructor (allocator: FrameAllocator, offset: nat)
      ensures pmm == allocator && virtAddrOffset == offset && at == map[]
    {
      pmm := allocator;
      virtAddrOffset := offset;
      ram := map[];
      pml4 := 0;
      at := map[];
      budget := 0;
    }

    /** The start of bootstrap: an empty pml4, under which nothing is mapped. */
    method CreateRoot() returns (ok: bool)
      requires Ready() && at == map[]
      modifies this, pmm.ram
      ensures ok <==> !old(OutOfMemory())
      ensures !ok ==> Free() == {}
      ensures ok ==> Valid() && at.Keys == {[]} && budget == |old(Free())|
      ensures ok ==> forall v :: Lookup(v).None? && OpenPath(ram, pml4, Path(v))
    {
      NoneFree();
      var table := AllocZeroedFrame();
      if table.None? {
        return false;
      }
      pml4 := table.value / PAGE;
      at := map[[] := pml4];
      budget := |old(Free())|;
      EmptyTree(ram, pml4);
      return true;
    }

    /** A free frame, filled with zeros; None, where the source panics, only when none is free. */
    method AllocZeroedFrame() returns (r: Option<nat>)
      requires Ready()
      modifies this`ram, pmm.ram
      ensures r.None? <==> old(Free()) == {}
      ensures r.None? ==> ram == old(ram) && pmm.InUse() == old(pmm.InUse())
      ensures r.Some? ==> var f := r.value / PAGE;
        && r.value % PAGE == 0 && f < W40 && f < |pmm.InUse()| && !old(pmm.InUse())[f]
        && pmm.InUse() == old(pmm.InUse())[f := true]
        && f in old(Free()) && Free() == old(Free()) - {f}
        && ram == old(ram)[f := Zeroed()]
    {
      NoneFree();
      var frame := pmm.AllocFrame();
      if frame.None? {
        return None;
      }
      FrameRuns.TakeRefines(old(pmm.InUse()), 8 * pmm.bitmapSize, frame.value / PAGE);
      ram := ram[frame.value / PAGE := Zeroed()];
      return Some(frame.value);
    }

    /** A fresh zeroed table behind an absent entry; None where the source panics. */
    method LinkFreshTable(table: nat, offset: nat, rw: bool, ghost p: Prefix) returns (r: Option<nat>)
      requires Valid() && p in at && at[p] == table && |p| < 3 && offset < ENTRIES && p + [offset] !in at
      requires table in ram && |ram[table]| == ENTRIES
      modifies this`ram, this`at, pmm.ram
      ensures Valid() && Extends(old(at), at) && Supplied(old(at).Keys, at.Keys, {p + [offset]}, r.Some?, Free())
      ensures r.Some? ==> p + [offset] in at && at[p + [offset]] == Frame(r.value)
      ensures SameWalks(old(ram), ram, pml4) && Closed(old(ram), old(at), ram, at, pml4, rw)
    {
      ghost var m := ram;
      var t := AllocZeroedFrame();
      if t.None? {
        return None;
      }
      ghost var f := t.value / PAGE;
      assert CanAdd(m, at, pml4, p, offset, f);
      AddTableKeeps(m, at, pml4, p, offset, f, rw);
      FreshEntry(rw, t.value, f);
      AddedTableInUse(at, p + [offset], f, old(pmm.InUse()));
      AddedExtends(at, p + [offset], f);
      assert f != table;
      var entry := DirEntry(rw, t.value);
      assert ram[table] == m[table];
      ram := ram[table := ram[table][offset := entry]];
      assert ram == AddTable(m, at, p, offset, f, rw);
      at := at[p + [offset] := f];
      return Some(entry);
    }

    /** What the levels of map_page so far have done: tables added, and no translation changed. */
    ghost predicate Descended(m0: Ram, at0: Tree, want: set<Prefix>, ok: bool, rw: bool)
      reads this, pmm, pmm.ram
    {
      && Valid() && Extends(at0, at) && Supplied(at0.Keys, at.Keys, want, ok, Free())
      && SameWalks(m0, ram, pml4) && Closed(m0, at0, ram, at, pml4, rw)
    }

    /** One level of map_page: follow the entry, or link a fresh table there. p is the prefix that led
        to the table; the tables in had came before, and all are wanted. */
    method NextTable(table: nat, offset: nat, rw: bool, ghost p: Prefix,
                     ghost m0: Ram, ghost at0: Tree, ghost had: set<Prefix>, ghost all: set<Prefix>)
      returns (r: Option<nat>)
      requires p in at && at[p] == table && |p| < 3 && offset < ENTRIES
      requires Descended(m0, at0, had, true, rw) && had + {p + [offset]} <= all
      modifies this`ram, this`at, pmm.ram
      ensures r.Some? ==> Descended(m0, at0, had + {p + [offset]}, true, rw)
      ensures r.Some? ==> p + [offset] in at && at[p + [offset]] == r.value
      ensures r.None? ==> Descended(m0, at0, all, false, rw)
      ensures p + [offset] in old(at) ==> ram == old(ram) && at == old(at) && pmm.InUse() == old(pmm.InUse())
    {
      ghost var c: Prefix, m, at1, free := p + [offset], ram, at, Free();
      assert Node(ram, at, p) && Link(ram, at, p, offset);
      var entry := ram[table][offset];
      if !Present(entry) {
        var linked := LinkFreshTable(table, offset, rw, p);
        SameThen(m0, m, ram, pml4);
        ExtendsThen(at0, at1, at);
        ClosedThen(m0, at0, m, at1, ram, at, pml4, rw);
        SuppliedThen(at0.Keys, at1.Keys, at.Keys, had, {c}, if linked.Some? then had + {c} else all, linked.Some?,
          free, Free());
        if linked.None? {
          return None;
        }
        return Some(Frame(linked.value));
      }
      SuppliedThen(at0.Keys, at.Keys, at.Keys, had, {c}, had + {c}, true, free, free);
      return Some(Frame(entry));
    }

    /** The page table for the address, with the missing tables linked on the way down. */
    method PageTableFor(virt: nat, rw: bool) returns (r: Option<nat>)
      requires Valid()
      modifies this`ram, this`at, pmm.ram
      ensures Descended(old(ram), old(at), Tables(virt), r.Some?, rw)
      ensures r.Some? ==> Path(virt)[..3] in at && at[Path(virt)[..3]] == r.value
      ensures Tables(virt) <= old(at).Keys ==> ram == old(ram) && pmm.InUse() == old(pmm.InUse())
    {
      var pml4Offset := virt / PAGE / ENTRIES / ENTRIES / ENTRIES % ENTRIES;
      var pdpOffset := virt / PAGE / ENTRIES / ENTRIES % ENTRIES;
      var pdOffset := virt / PAGE / ENTRIES % ENTRIES;
      ghost var m0, at0, all := ram, at, Tables(virt);
      ClosedNothing(ram, at, pml4, rw);
      ghost var p1: Prefix, p2: Prefix, p3: Prefix := Path(virt)[..1], Path(virt)[..2], Path(virt)[..3];
      PathSteps(virt);
      var pdp := NextTable(pml4, pml4Offset, rw, [], m0, at0, {}, all);
      if pdp.None? {
        return None;
      }
      var pd := NextTable(pdp.value, pdpOffset, rw, p1, m0, at0, {p1}, all);
      if pd.None? {
        return None;
      }
      r := NextTable(pd.value, pdOffset, rw, p2, m0, at0, {p1} + {p2}, all);
    }

    /** false where the source panics for lack of a frame, which is exactly when fewer are free than
        tables missing; nothing translates differently then. */
    method MapPage(virt: nat, phys: nat, rw: bool, notexecutable: bool, writethrough: bool, disablecache: bool,
                   isuserspace: bool)
      returns (ok: bool)
      requires Valid()
      modifies this`ram, this`at, pmm.ram
      ensures Valid() && Extends(old(at), at) && Supplied(old(at).Keys, at.Keys, Tables(virt), ok, Free())
      ensures ok <==> |Tables(virt) - old(at).Keys| <= |old(Free())|
      ensures !ok ==> OutOfMemory() && SameWalks(old(ram), ram, pml4)
      ensures Path(virt)[..3] in old(at) ==> ok && pmm.InUse() == old(pmm.InUse())
      ensures Closed(old(ram), old(at), ram, at, pml4, rw) && (rw ==> SameOpenPaths(old(ram), ram, pml4))
      ensures ok ==> Lookup(virt) == Some(Translation(phys / PAGE % W40,
        rw && OpenPath(old(ram), pml4, Path(virt)), isuserspace, writethrough, disablecache))
      ensures ok ==> forall v :: VirtualPage(v) != VirtualPage(virt) ==> Lookup(v) == old(Lookup(v))
    {
      if Path(virt)[..3] in at { PathTables(ram, at, pml4, virt); }
      var pt := PageTableFor(virt, rw);
      SuppliedExactly(old(at).Keys, at.Keys, Tables(virt), pt.Some?, |old(Free())|, Free());
      NoneFree();
      ghost var m1 := ram;
      ClosedSame(old(ram), old(at), m1, at, m1, pml4, rw);
      if pt.None? {
        return false;
      }
      StoreLeaf(pt.value, virt, phys, rw, writethrough, disablecache, isuserspace);
      ClosedSame(old(ram), old(at), m1, at, ram, pml4, rw);
      return true;
    }

    /** The entry that map_page stores in the page table. */
    method StoreLeaf(pt: nat, virt: nat, phys: nat, rw: bool, writethrough: bool, disablecache: bool,
                     isuserspace: bool)
      requires Valid() && Path(virt)[..3] in at && at[Path(virt)[..3]] == pt
      modifies this`ram
      ensures Valid() && SameOpenPaths(old(ram), ram, pml4)
      ensures Lookup(virt) == Some(Translation(phys / PAGE % W40,
        rw && OpenPath(old(ram), pml4, Path(virt)), isuserspace, writethrough, disablecache))
      ensures forall v :: VirtualPage(v) != VirtualPage(virt) ==> Lookup(v) == old(Lookup(v))
    {
      var ptOffset := virt / PAGE % ENTRIES;
      var page := phys - phys % PAGE;
      var entry := LeafEntry(page, rw, writethrough, disablecache, isuserspace);
      LeafEntryFields(page, rw, writethrough, disablecache, isuserspace);
      assert page / PAGE == phys / PAGE;
      SetLeafKeeps(ram, at, pml4, virt, entry);
      ghost var m := ram;
      ram := ram[pt := ram[pt][ptOffset := entry]];
      assert ram == SetLeaf(m, at, Path(virt)[..3], ptOffset, entry);
    }

    function PhysToVirt(phys: nat): nat { Bits.Or(phys, virtAddrOffset) }

    /** The highest end of any region, rounded down to a page. */
    static method LastUsable(usable: seq<Region>, kernel: Region, reclaimable: Region)
      returns (last: nat)
      ensures Top(usable + [kernel, reclaimable], last)
    {
      last := 0;
      for i := 0 to |usable|
        invariant forall r :: r in usable[..i] ==> r.base + r.length <= last
        invariant last == 0 || exists r :: r in usable[..i] && last == r.base + r.length
      {
        var end := usable[i].base + usable[i].length;
        last := if end > last then end else last;
      }
      var end := kernel.base + kernel.length;
      last := if end > last then end else last;
      end := reclaimable.base + reclaimable.length;
      last := if end > last then end else last;
      last := last - last % PAGE;
    }

    /** What the turns of a loop so far have done: the effect on all addresses, and the tables added. */
    ghost predicate Turned(m0: Ram, had: set<Prefix>, l: Loop)
      reads this, pmm, pmm.ram
    {
      && Valid() && Laid(m0, ram, pml4, l) && (l.rw ==> SameOpenPaths(m0, ram, pml4))
      && Supplied(had, at.Keys, LoopTables(l), true, Free())
    }

    /** A loop has run to its end, or stopped early because no frame was free. */
    ghost predicate Ran(m0: Ram, had: set<Prefix>, l: Loop, ok: bool, done: nat)
      reads this, pmm, pmm.ram
    {
      && Valid() && l.first <= done && (ok ==> done == l.end)
      && (l.rw ==> SameOpenPaths(m0, ram, pml4))
      && Laid(m0, ram, pml4, l.(end := done))
      && Supplied(had, at.Keys, LoopTables(l), ok, Free())
    }

    /** One turn of a mapping loop: frame k goes to its place. */
    method MapFrame(cur: nat, virt: nat, rw: bool, notexecutable: bool, isuserspace: bool,
                    ghost l: Loop, ghost k: nat, ghost m0: Ram, ghost had: set<Prefix>)
      returns (ok: bool)
      requires cur / PAGE == k && virt == l.pl.At(k) && l.first <= k < l.end && rw == l.rw && isuserspace == l.user
      requires Turned(m0, had, l.(end := k))
      modifies this`ram, this`at, pmm.ram
      ensures ok ==> Turned(m0, had, l.(end := k + 1))
      ensures !ok ==> Ran(m0, had, l, false, k)
    {
      ghost var m, keys, free := ram, at.Keys, Free();
      ok := MapPage(virt, cur, rw, notexecutable, false, false, isuserspace);
      LoopTablesStep(l, k);
      SuppliedThen(had, keys, at.Keys, LoopTables(l.(end := k)), Tables(virt),
        if ok then LoopTables(l.(end := k + 1)) else LoopTables(l), ok, free, Free());
      if ok {
        LaidStep(m0, m, ram, pml4, l, k);
      } else {
        LaidSame(m0, m, ram, pml4, l.(end := k));
      }
    }

    /** Maps every page from 0 to last, in ascending order, at its or'd address. */
    method MapAccessibleSpace(last: nat) returns (ok: bool, ghost done: nat)
      requires Valid() && last % PAGE == 0
      modifies this`ram, this`at, pmm.ram
      ensures Ran(old(ram), old(at).Keys, DirectLoop(last, virtAddrOffset), ok, done)
    {
      var cur := 0;
      ghost var l := DirectLoop(last, virtAddrOffset);
      done := 0;
      NoTurns(ram, pml4, l.(end := l.first));
      while cur <= last
        invariant cur == done * PAGE && done <= l.end
        invariant Turned(old(ram), old(at).Keys, l.(end := done))
        decreases last + PAGE - cur
      {
        var virtCur := PhysToVirt(cur);
        ok := MapFrame(cur, virtCur, true, false, false, l, done, old(ram), old(at).Keys);
        if !ok {
          return;
        }
        done := done + 1;
        cur := cur + PAGE;
      }
      return true, done;
    }

    /** Maps the pages of a region at a fixed distance; virtOffset 0 stands for the offset
        of the address space. */
    method MapRegion(region: Region, rw: bool, isuserspace: bool, notexecutable: bool, virtOffset: nat)
      returns (ok: bool, ghost done: nat)
      requires Valid()
      modifies this`ram, this`at, pmm.ram
      ensures var l := RegionLoop(region, if virtOffset == 0 then virtAddrOffset else virtOffset, rw, isuserspace);
        Ran(old(ram), old(at).Keys, l, ok, done)
    {
      var offset := if virtOffset == 0 then virtAddrOffset else virtOffset;
      var start, end := region.base - region.base % PAGE, region.base + region.length;
      var cur := start;
      ghost var l := RegionLoop(region, offset, rw, isuserspace);
      done := l.first;
      NoTurns(ram, pml4, l.(end := l.first));
      while cur < end
        invariant cur == done * PAGE && l.first <= done <= l.end
        invariant Turned(old(ram), old(at).Keys, l.(end := done))
        decreases end - cur
      {
        var curVirt := cur + offset;
        RegionTurns(region, offset, rw, isuserspace, done);
        ok := MapFrame(cur, curVirt, rw, notexecutable, isuserspace, l, done, old(ram), old(at).Keys);
        if !ok {
          return;
        }
        done := done + 1;
        cur := cur + PAGE;
      }
      RegionTurns(region, offset, rw, isuserspace, done);
      return true, done;
    }

    /** Maps the kernel's pages, writable, at their link addresses. */
    method MapKernelRegion(region: Region, virtualBase: nat, physicalBase: nat)
      returns (ok: bool, ghost done: nat)
      requires Valid() && physicalBase <= W64
      modifies this`ram, this`at, pmm.ram
      ensures Ran(old(ram), old(at).Keys, KernelLoop(region, virtualBase, physicalBase), ok, done)
    {
      var end := region.base + region.length;
      var cur := region.base;
      ghost var l := KernelLoop(region, virtualBase, physicalBase);
      done := l.first;
      NoTurns(ram, pml4, l.(end := l.first));
      while cur < end
        invariant cur == region.base + (done - l.first) * PAGE && l.first <= done <= l.end
        invariant Turned(old(ram), old(at).Keys, l.(end := done))
        decreases end - cur
      {
        var curVirt := virtualBase + W64 + cur - physicalBase;
        KernelTurns(region, virtualBase, physicalBase, done - l.first);
        ok := MapFrame(cur, curVirt, true, true, false, l, done, old(ram), old(at).Keys);
        if !ok {
          return;
        }
        done := done + 1;
        cur := cur + PAGE;
      }
      KernelTurns(region, virtualBase, physicalBase, done - l.first);
      return true, done;
    }

    // ---------------------------------------------------------------- bootstrap

    /** Where bootstrap is after some of its loops, from free0 free frames: it has got on exactly when those
        are enough for the pml4 and all tables the loops need. */
    ghost predicate Booting(loops: seq<Loop>, ok: bool, free0: nat)
      reads this, pmm, pmm.ram
    {
      && Ready() && (ok <==> 1 + |AllTables(loops)| <= free0)
      && if !ok then Free() == {} else
        && Valid() && budget == free0
        && Shown(ram, pml4, loops) && (forall v :: OpenPath(ram, pml4, Path(v)))
        && Supplied({[]}, at.Keys, AllTables(loops), true, Free())
    }

    /** One more loop, from memory m0 with the tables had. */
    lemma NextLoop(m0: Ram, had: set<Prefix>, loops: seq<Loop>, free0: nat, l: Loop, ok: bool, done: nat)
      requires Ready() && 1 + |AllTables(loops)| <= free0 && budget == free0 && l.rw && Ran(m0, had, l, ok, done)
      requires Shown(m0, pml4, loops) && (forall v :: OpenPath(m0, pml4, Path(v)))
      requires forall p :: Gained({[]}, had, AllTables(loops), p)
      ensures Booting(loops + [l], ok, free0)
    {
      AllTablesSnoc(loops, l);
      NoRoot(loops + [l]);
      var all := AllTables(loops + [l]);
      SuppliedThen({[]}, had, at.Keys, AllTables(loops), LoopTables(l), all, ok, {}, Free());
      SuppliedExactly({[]}, at.Keys, all, ok, free0 - 1, Free());
      assert all - {[]} == all;
      if ok {
        assert l.(end := done) == l;
        ShownStep(m0, ram, pml4, loops, l);
      }
    }

    /** Loops that are not reached need no fewer tables. */
    lemma GivenUp(loops: seq<Loop>, more: seq<Loop>, free0: nat)
      requires Booting(loops, false, free0)
      ensures Booting(loops + more, false, free0)
    {
      TablesMore(loops, more);
      SubsetSmaller(AllTables(loops), AllTables(loops + more));
    }

    /** The start of bootstrap, from the empty pml4 through map_accessible_space. */
    method BootstrapDirect(usable: seq<Region>, kernel: Region, reclaimable: Region)
      returns (ok: bool, ghost last: nat)
      requires Ready() && at == map[]
      modifies this, pmm.ram
      ensures Top(usable + [kernel, reclaimable], last)
      ensures Booting([DirectLoop(last, virtAddrOffset)], ok, |old(Free())|)
      ensures ok ==> forall k: nat, top: nat :: Covers(usable + [kernel, reclaimable], virtAddrOffset, k, top) ==>
        Found(ram, pml4, virtAddrOffset, k)
    {
      var end := LastUsable(usable, kernel, reclaimable);
      last := end;
      ghost var l := DirectLoop(last, virtAddrOffset);
      ok := CreateRoot();
      if !ok {
        assert [] + [l] == [l];
        GivenUp([], [l], |old(Free())|);
        return;
      }
      EmptyRoot(|old(Free())|);
      ghost var m0, had, done := ram, at.Keys, 0;
      ok, done := MapAccessibleSpace(end);
      NextLoop(m0, had, [], |old(Free())|, l, ok, done);
      assert [] + [l] == [l];
      forall k: nat, top: nat | ok && Covers(usable + [kernel, reclaimable], virtAddrOffset, k, top)
        ensures Found(ram, pml4, virtAddrOffset, k)
      {
        CoveredFound(ram, pml4, [l], virtAddrOffset, last, usable + [kernel, reclaimable], k, top);
      }
    }

    lemma EmptyRoot(free0: nat)
      requires Valid() && at.Keys == {[]} && budget == free0
      requires forall v :: Lookup(v).None? && OpenPath(ram, pml4, Path(v))
      ensures Booting([], true, free0)
    {
      forall p
        ensures Gained({[]}, at.Keys, {}, p)
      {
      }
      forall v
        ensures ShownAt(ram, pml4, [], v)
      {
        assert Lookup(v).None?;
      }
    }

    /** The loops over the kernel and the framebuffer. */
    method BootstrapRegions(plan: Plan, ghost loops: seq<Loop>, ghost free0: nat) returns (ok: bool)
      requires Booting(loops, true, free0) && plan.physicalBase <= W64
      modifies this`ram, this`at, pmm.ram
      ensures Booting(loops + [KernelLoop(plan.kernel, plan.virtualBase, plan.physicalBase)]
        + [RegionLoop(plan.framebuffer, virtAddrOffset, true, false)], ok, free0)
    {
      ghost var m0, had, done := ram, at.Keys, 0;
      ghost var l := KernelLoop(plan.kernel, plan.virtualBase, plan.physicalBase);
      ok, done := MapKernelRegion(plan.kernel, plan.virtualBase, plan.physicalBase);
      NextLoop(m0, had, loops, free0, l, ok, done);
      ghost var l1 := RegionLoop(plan.framebuffer, virtAddrOffset, true, false);
      if !ok {
        GivenUp(loops + [l], [l1], free0);
        return;
      }
      m0, had := ram, at.Keys;
      ok, done := MapRegion(plan.framebuffer, true, false, false, 0);
      NextLoop(m0, had, loops + [l], free0, l1, ok, done);
    }

    /** The loop over the frames that hold the frame bitmap. */
    method BootstrapBitmap(plan: Plan, ghost loops: seq<Loop>, ghost free0: nat) returns (ok: bool)
      requires Booting(loops, true, free0)
      modifies this`ram, this`at, pmm.ram
      ensures Booting(loops + [BitmapLoop(plan.bitmap, NumBitmapFrames(pmm.bitmapSize), virtAddrOffset)], ok, free0)
    {
      var frames := pmm.GetNumBitmapUsedFrames();
      ghost var m0, had, done := ram, at.Keys, 0;
      ok, done := MapRegion(Region(plan.bitmap, frames * PAGE), true, false, false, 0);
      NextLoop(m0, had, loops, free0, BitmapLoop(plan.bitmap, frames, virtAddrOffset), ok, done);
    }

    /** All of bootstrap, with exactly its effect: every address translates as the last loop that maps its
        page says, and it goes well exactly when there are frames for the tables of all those pages. */
    method Bootstrap(usable: seq<Region>, reclaimable: Region, plan: Plan) returns (ok: bool, ghost last: nat)
      requires Ready() && at == map[] && plan.physicalBase <= W64
      modifies this, pmm.ram
      ensures Top(usable + [plan.kernel, reclaimable], last)
      ensures ok <==> 1 + |AllTables(Loops(last, plan))| <= |old(Free())|
      ensures ok ==> Valid() && Shown(ram, pml4, Loops(last, plan))
      ensures ok ==> Booted(ram, pml4, Loops(last, plan), virtAddrOffset, usable + [plan.kernel, reclaimable], plan,
        NumBitmapFrames(pmm.bitmapSize))
      ensures !ok ==> OutOfMemory()
    {
      ghost var free0, regions := |Free()|, usable + [plan.kernel, reclaimable];
      ok, last := BootstrapDirect(usable, plan.kernel, reclaimable);
      ghost var s, s1, s3, rest1, rest3 := LoopsCut(last, plan);
      if ok {
        ok := BootstrapRegions(plan, s1, free0);
        if ok {
          ok := BootstrapBitmap(plan, s3, free0);
        } else {
          GivenUp(s3, rest3, free0);
        }
      } else {
        GivenUp(s1, rest1, free0);
      }
      BootEnd(s, ok, free0);
      if ok {
        BootMeaning(ram, pml4, last, virtAddrOffset, regions, plan, NumBitmapFrames(pmm.bitmapSize));
      }
    }

    lemma LoopsCut(last: nat, plan: Plan)
      returns (s: seq<Loop>, s1: seq<Loop>, s3: seq<Loop>, rest1: seq<Loop>, rest3: seq<Loop>)
      requires plan.physicalBase <= W64
      ensures s == Loops(last, plan) && s1 + rest1 == s && s3 + rest3 == s
      ensures s1 == [DirectLoop(last, virtAddrOffset)]
      ensures s3 == s1 + [KernelLoop(plan.kernel, plan.virtualBase, plan.physicalBase)]
        + [RegionLoop(plan.framebuffer, virtAddrOffset, true, false)]
      ensures rest3 == [BitmapLoop(plan.bitmap, NumBitmapFrames(pmm.bitmapSize), virtAddrOffset)]
    {
      s := Loops(last, plan);
      s1, s3, rest1, rest3 := s[..1], s[..3], s[1..], s[3..];
    }

    lemma BootEnd(loops: seq<Loop>, ok: bool, free0: nat)
      requires Booting(loops, ok, free0)
      ensures ok <==> 1 + |AllTables(loops)| <= free0
      ensures ok ==> Valid() && Shown(ram, pml4, loops)
      ensures !ok ==> OutOfMemory()
    {
      NoneFree();
    }

    ghost function Loops(last: nat, plan: Plan): seq<Loop>
      requires plan.physicalBase <= W64
    {
      BootLoops(last, virtAddrOffset, plan, NumBitmapFrames(pmm.bitmapSize))
    }
  }

  lemma SetLeafKeeps(m: Ram, at: Tree, root: nat, virt: nat, e: nat)
    requires Wellformed(m, at, root) && Path(virt)[..3] in at && Present(e)
    ensures var p := Path(virt)[..3];
      && at[p] in m && |m[at[p]]| == ENTRIES
      && var m1 := SetLeaf(m, at, p, Path(virt)[3], e);
      && Wellformed(m1, at, root)
      && Translate(m1, root, virt) ==
        Some(Translation(
          Frame(e), OpenPath(m, root, Path(virt)) && Writable(e), User(e), WriteThrough(e), CacheDisabled(e)))
      && (forall v :: VirtualPage(v) != VirtualPage(virt) ==> Translate(m1, root, v) == Translate(m, root, v))
      && SameOpenPaths(m, m1, root)
  {
    var p, i := Path(virt)[..3], Path(virt)[3];
    assert [] + Path(virt) == p + [i];
    assert Node(m, at, p);
    SetLeafWellformed(m, at, root, p, i, e);
    SetLeafFound(m, at, root, p, i, e, [], Path(virt));
    forall v | VirtualPage(v) != VirtualPage(virt)
      ensures Translate(SetLeaf(m, at, p, i, e), root, v) == Translate(m, root, v)
    {
      PathExactly(v, virt);
      assert [] + Path(v) == Path(v) && [] + Path(virt) == Path(virt);
      SetLeafWalk(m, at, root, p, i, e, [], Path(v));
    }
    forall v
      ensures OpenPath(SetLeaf(m, at, p, i, e), root, Path(v)) == OpenPath(m, root, Path(v))
    {
      SetLeafOpen(m, at, root, p, i, e, [], Path(v));
    }
  }

  lemma AddTableKeeps(m: Ram, at: Tree, root: nat, p: seq<nat>, i: nat, f: nat, rw: bool)
    requires CanAdd(m, at, root, p, i, f)
    ensures at[p] in m && |m[at[p]]| == ENTRIES
    ensures var m1 := AddTable(m, at, p, i, f, rw);
      && Wellformed(m1, at[p + [i] := f], root)
      && SameWalks(m, m1, root)
      && Closed(m, at, m1, at[p + [i] := f], root, rw)
  {
    AddTableWellformed(m, at, root, p, i, f, rw);
    var m1, at1 := AddTable(m, at, p, i, f, rw), at[p + [i] := f];
    forall v
      ensures Translate(m1, root, v) == Translate(m, root, v)
      ensures ClosedAt(m, at, m1, at1, root, rw, v)
    {
      AddTableWalk(m, at, root, p, i, f, rw, [], Path(v));
      AddTableOpen(m, at, root, p, i, f, rw, [], Path(v));
      assert [] + Path(v) == Path(v);
    }
  }
}
