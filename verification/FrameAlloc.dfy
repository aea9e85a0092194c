/** The physical frame allocator: a bitmap in memory, updated in place. */
module FrameAlloc {
  import opened Common
  import opened FrameBits
  import opened FrameSearch
  import FrameAnswer
  import Bits

  // frame_size; the allocator is only ever built with 4 KiB frames
  const FRAME: nat := 4096

  datatype Region = Region(base: nat, length: nat)

  function AddrToIdx(addr: nat): BitmapIdx {
    BitmapIdx(addr / (FRAME * 8), addr / FRAME % 8)
  }

  function IdxToAddr(idx: BitmapIdx): nat {
    (idx.byteidx * 8 + idx.bitidx) * FRAME
  }

  /** The two conversions are inverse on frame addresses and proper indices. */
  lemma IdxAddrInverse(addr: nat, idx: BitmapIdx)
    ensures IdxToAddr(AddrToIdx(addr)) == addr - addr % FRAME
    ensures idx.bitidx < 8 ==> AddrToIdx(IdxToAddr(idx)) == idx
  {
    assert addr / (FRAME * 8) == addr / FRAME / 8;
  }

  lemma IdxOfFrame(addr: nat)
    ensures AddrToIdx(AlignDown(addr)) == BitmapIdx(addr / FRAME / 8, addr / FRAME % 8)
    ensures AlignDown(addr) / FRAME == addr / FRAME
  {
    assert AlignDown(addr) / (FRAME * 8) == addr / FRAME / 8;
  }

  function AlignDown(addr: nat): nat { addr - addr % FRAME }

  /** Frames that the constructor's loop over a region marks free. */
  predicate InRegion(r: Region, f: nat) {
    r.base / FRAME <= f < r.base / FRAME + (r.length + FRAME - 1) / FRAME
  }

  /** For a page-aligned region these are the frames that lie in it. */
  lemma InAlignedRegion(r: Region, f: nat)
    requires r.base % FRAME == 0 && r.length % FRAME == 0
    ensures InRegion(r, f) <==> r.base <= f * FRAME && f * FRAME + FRAME <= r.base + r.length
  {
  }

  /** Region i is the last of those that end above 1 MiB and are long enough for the bitmap. */
  ghost predicate LastFitting(regions: seq<Region>, size: nat, i: int) {
    && 0 <= i < |regions| && regions[i].base + regions[i].length > 0x100000 && regions[i].length >= size
    && forall j :: i < j < |regions| ==> regions[j].base + regions[j].length <= 0x100000 || regions[j].length < size
  }

  /** Bytes of the bitmap: the least number with a bit for every frame. */
  function BitmapBytes(totalMemBytes: nat): (n: nat)
    ensures totalMemBytes / FRAME <= 8 * n < totalMemBytes / FRAME + 8
  {
    (totalMemBytes / FRAME + 7) / 8
  }

  /** Frames that hold size bytes from a frame boundary on: the least number. */
  function NumBitmapFrames(size: nat): (n: nat)
    ensures size <= n * FRAME < size + FRAME
  {
    if size % FRAME == 0 then size / FRAME else size / FRAME + 1
  }

  ghost predicate FreedBy(regions: seq<Region>, f: nat) {
    exists i :: 0 <= i < |regions| && InRegion(regions[i], f)
  }

  lemma FreedBySnoc(regions: seq<Region>, i: nat, f: nat)
    requires i < |regions|
    ensures FreedBy(regions[..i + 1], f) <==> FreedBy(regions[..i], f) || InRegion(regions[i], f)
  {
    if FreedBy(regions[..i], f) {
      var j :| 0 <= j < i && InRegion(regions[..i][j], f);
      assert InRegion(regions[..i + 1][j], f);
    }
    assert regions[..i + 1][i] == regions[i];
    if FreedBy(regions[..i + 1], f) {
      var j :| 0 <= j < i + 1 && InRegion(regions[..i + 1][j], f);
      assert j < i ==> InRegion(regions[..i][j], f);
    }
  }

  /** For page-aligned regions the frames freed are exactly those that lie in one; when all end
      within the memory total, the padding bits past the last frame stay used. */
  lemma FreedByAligned(regions: seq<Region>, totalMemBytes: nat, f: nat)
    requires forall i :: 0 <= i < |regions| ==> regions[i].base % FRAME == 0 && regions[i].length % FRAME == 0
    ensures FreedBy(regions, f) <==> (exists i ::
      0 <= i < |regions| && regions[i].base <= f * FRAME && (f + 1) * FRAME <= regions[i].base + regions[i].length)
    ensures (forall i :: 0 <= i < |regions| ==> regions[i].base + regions[i].length <= totalMemBytes) ==>
      totalMemBytes / FRAME <= f ==> !FreedBy(regions, f)
  {
    forall i | 0 <= i < |regions|
      ensures InRegion(regions[i], f) <==>
        regions[i].base <= f * FRAME && (f + 1) * FRAME <= regions[i].base + regions[i].length
    {
      InAlignedRegion(regions[i], f);
    }
  }

  /** The first frame of the bitmap, recovered from its virtual address. */
  function BitmapFrame(base: nat, hhdmOffset: nat): nat {
    AlignDown(Bits.Xor(Bits.Or(base, hhdmOffset), hhdmOffset)) / FRAME
  }

  lemma BitmapFrameExact(base: nat, hhdmOffset: nat)
    ensures BitmapFrame(base, hhdmOffset) <= base / FRAME
    ensures Bits.Disjoint(base, hhdmOffset) ==> BitmapFrame(base, hhdmOffset) == base / FRAME
  {
    Bits.XorOrExactly(base, hhdmOffset);
  }

  /** Frames that the constructor marks used for the bitmap itself: one more than the
      bitmap needs when its size is a multiple of the frame size. */
  predicate InBitmap(first: nat, bitmapSize: nat, f: nat) {
    first <= f <= first + bitmapSize / FRAME
  }

  /** Frame f has a byte of the bitmap in it. */
  predicate Holds(base: nat, size: nat, f: nat) { base < (f + 1) * FRAME && f * FRAME < base + size }

  lemma HoldsRange(base: nat, size: nat, f: nat)
    requires 0 < size
    ensures Holds(base, size, f) <==> base / FRAME <= f <= (base + size - 1) / FRAME
  {
  }

  /** The last frame holding the bitmap and the last frame marked for it. */
  lemma LastMarked(base: nat, size: nat)
    requires 0 < size
    ensures (base + size - 1) / FRAME <= base / FRAME + size / FRAME <==> base % FRAME + size % FRAME <= FRAME
    ensures (base + size - 1) / FRAME == base / FRAME + size / FRAME <==> 1 <= base % FRAME + size % FRAME <= FRAME
  {
  }

  /** The constructor marks every frame that holds the bitmap exactly when the two offsets in
      their frames add up to at most a frame, and no other frame exactly when not both are 0. */
  lemma BitmapMarkedExactly(base: nat, size: nat)
    requires 0 < size
    ensures (forall f: nat :: Holds(base, size, f) ==> InBitmap(base / FRAME, size, f))
      <==> base % FRAME + size % FRAME <= FRAME
    ensures (forall f: nat :: InBitmap(base / FRAME, size, f) <==> Holds(base, size, f))
      <==> 1 <= base % FRAME + size % FRAME <= FRAME
  {
    var held, marked := (base + size - 1) / FRAME, base / FRAME + size / FRAME;
    LastMarked(base, size);
    forall f: nat
      ensures Holds(base, size, f) <==> base / FRAME <= f <= held
    {
      HoldsRange(base, size, f);
    }
    assert Holds(base, size, held) && InBitmap(base / FRAME, size, marked);
  }

  /** For a page-aligned bitmap: the frames that hold it, and the next one if its size is a
      multiple of the frame size. */
  lemma BitmapMarkedAligned(base: nat, size: nat, f: nat)
    requires base % FRAME == 0
    ensures InBitmap(base / FRAME, size, f) <==>
      Holds(base, size, f) || (size % FRAME == 0 && f == (base + size) / FRAME)
  {
    if 0 < size {
      HoldsRange(base, size, f);
    }
  }

  /** First frame behind a region, as the constructor's loop counts. */
  function EndFrame(r: Region): nat { r.base / FRAME + (r.length + FRAME - 1) / FRAME }

  /** Nothing behind a bitmap of size bytes is written exactly when every region and the
      bitmap itself end below the last frame that the bitmap describes. */
  lemma BehindUntouchedExactly(regions: seq<Region>, first: nat, size: nat)
    ensures (forall f: nat :: 8 * size <= f ==> !FreedBy(regions, f) && !InBitmap(first, size, f))
      <==> (forall r :: r in regions && r.length > 0 ==> EndFrame(r) <= 8 * size) && first + size / FRAME < 8 * size
  {
    if forall f: nat :: 8 * size <= f ==> !FreedBy(regions, f) && !InBitmap(first, size, f) {
      forall r | r in regions && r.length > 0
        ensures EndFrame(r) <= 8 * size
      {
        var last := EndFrame(r) - 1;
        var i :| 0 <= i < |regions| && regions[i] == r;
        assert InRegion(regions[i], last) && FreedBy(regions, last);
      }
      assert InBitmap(first, size, first + size / FRAME);
    }
  }

  /** Frame f is in use once the bitmap is filled with used bits; rest is the memory behind. */
  predicate StartsUsed(size: nat, rest: seq<bv8>, f: nat)
    requires f < 8 * (size + |rest|)
  {
    f < 8 * size || BitSet(rest[f / 8 - size], f % 8)
  }

  lemma AllOnes(k: nat)
    requires k < 8
    ensures BitSet(0xFF, k)
  {
    Powers(k);
  }

  class FrameAllocator {
    // The bitmap is the first bitmapSize bytes; the rest is the memory behind it, which
    // the contiguous search reads and alloc_contiguous_frames writes near the end.
    const ram: array<bv8>
    const bitmapSize: nat
    const numFrames: nat

    ghost predicate Valid()
      reads this
    {
      bitmapSize <= ram.Length && numFrames <= 8 * bitmapSize
    }

    constructor (frames: nat, bytes: nat, rest: seq<bv8>)
      requires frames <= 8 * bytes
      ensures Valid() && fresh(ram) && numFrames == frames && bitmapSize == bytes && ram.Length == bytes + |rest|
      ensures ram[bytes..] == rest
    {
      numFrames, bitmapSize := frames, bytes;
      ram := new bv8[bytes + |rest|](i requires 0 <= i < bytes + |rest| => if i < bytes then 0 else rest[i - bytes]);
    }

    /** The constructor of the source; null where it panics. rest is the memory behind the
        bitmap. The total is the sum of all entries of the memory map, so a region can end above
        it; marking its frames free then writes behind the bitmap. */
    static method Boot(totalMemBytes: nat, regions: seq<Region>, hhdmOffset: nat, rest: seq<bv8>)
      returns (fa: FrameAllocator?, ghost last: nat)
      requires forall i :: 0 <= i < |regions| ==>
        regions[i].base + regions[i].length + FRAME <= 8 * (BitmapBytes(totalMemBytes) + |rest|) * FRAME
      ensures fa == null <==> forall i :: 0 <= i < |regions| ==>
        regions[i].base + regions[i].length <= 0x100000 || regions[i].length < BitmapBytes(totalMemBytes)
      ensures fa != null ==> fresh(fa) && fresh(fa.ram) && fa.Valid()
      ensures fa != null ==> fa.numFrames == totalMemBytes / FRAME && fa.bitmapSize == BitmapBytes(totalMemBytes)
      ensures fa != null ==> fa.ram.Length == fa.bitmapSize + |rest| && LastFitting(regions, fa.bitmapSize, last)
      ensures fa != null ==> forall f :: 0 <= f < 8 * fa.ram.Length ==>
        BootBit(fa, regions, BitmapFrame(regions[last].base, hhdmOffset), rest, f)
      ensures fa != null ==>
        var base := regions[last].base;
        base % FRAME == 0 && Bits.Disjoint(base, hhdmOffset) ==> Built(fa, regions, base)
    {
      var numFrames := totalMemBytes / FRAME;
      var bitmapSize := numFrames / 8;
      bitmapSize := if numFrames % 8 != 0 then bitmapSize + 1 else bitmapSize;

      var foundRegion, bitmap, chosen := ChooseBitmap(regions, bitmapSize, hhdmOffset);
      last := chosen;
      if !foundRegion {
        return null, last;
      }

      fa := new FrameAllocator(numFrames, bitmapSize, rest);
      fa.FillUsed(rest);
      fa.FreeRegions(regions);
      ghost var base := regions[last].base;
      BitmapFrameExact(base, hhdmOffset);
      fa.MarkBitmap(AlignDown(Bits.Xor(bitmap, hhdmOffset)));
      if base % FRAME == 0 && Bits.Disjoint(base, hhdmOffset) {
        forall f | 0 <= f < 8 * bitmapSize
          ensures BuiltAt(fa, regions, base, f)
        {
          BuiltBit(fa, regions, base, rest, f);
        }
      }
    }

    static lemma BuiltBit(fa: FrameAllocator, regions: seq<Region>, base: nat, rest: seq<bv8>, f: nat)
      requires base % FRAME == 0 && fa.ram.Length == fa.bitmapSize + |rest| && f < 8 * fa.bitmapSize
      requires BootBit(fa, regions, base / FRAME, rest, f)
      ensures BuiltAt(fa, regions, base, f)
    {
      BitmapMarkedAligned(base, fa.bitmapSize, f);
    }

    /** The constructor leaves frame f in use exactly when it was and no usable region frees it, or
        when it is marked for the bitmap. */
    static ghost predicate BootBit(fa: FrameAllocator, regions: seq<Region>, first: nat, rest: seq<bv8>, f: nat)
      requires fa.ram.Length == fa.bitmapSize + |rest| && f < 8 * fa.ram.Length
      reads fa.ram
    {
      fa.InUse()[f] <==>
        (StartsUsed(fa.bitmapSize, rest, f) && !FreedBy(regions, f)) || InBitmap(first, fa.bitmapSize, f)
    }

    /** Frame f is free exactly when a usable region frees it and it does not hold the bitmap,
        nor follows a bitmap that ends on a frame boundary. */
    static ghost predicate BuiltAt(fa: FrameAllocator, regions: seq<Region>, base: nat, f: nat)
      requires f < |fa.InUse()|
      reads fa.ram
    {
      !fa.InUse()[f] <==>
        FreedBy(regions, f) && !Holds(base, fa.bitmapSize, f) &&
        !(fa.bitmapSize % FRAME == 0 && f == (base + fa.bitmapSize) / FRAME)
    }

    static ghost predicate Built(fa: FrameAllocator, regions: seq<Region>, base: nat)
      requires fa.Valid()
      reads fa, fa.ram
    {
      forall f :: 0 <= f < 8 * fa.bitmapSize ==> BuiltAt(fa, regions, base, f)
    }

    /** The search for a region to hold the bitmap: every fitting region overwrites the choice, so the
        last one stays. */
    static method ChooseBitmap(regions: seq<Region>, bitmapSize: nat, hhdmOffset: nat)
      returns (foundRegion: bool, bitmap: nat, ghost last: nat)
      ensures foundRegion <==> exists i ::
        0 <= i < |regions| && regions[i].base + regions[i].length > 0x100000 && regions[i].length >= bitmapSize
      ensures foundRegion ==>
        && last < |regions| && bitmap == Bits.Or(regions[last].base, hhdmOffset)
        && regions[last].base + regions[last].length > 0x100000 && regions[last].length >= bitmapSize
      ensures foundRegion ==> forall j :: last < j < |regions| ==>
        regions[j].base + regions[j].length <= 0x100000 || regions[j].length < bitmapSize
    {
      foundRegion, bitmap, last := false, 0, 0;
      for i := 0 to |regions|
        invariant foundRegion ==> LastFitting(regions[..i], bitmapSize, last)
        invariant foundRegion ==> bitmap == Bits.Or(regions[last].base, hhdmOffset)
        invariant !foundRegion ==> forall j :: 0 <= j < i ==>
          regions[j].base + regions[j].length <= 0x100000 || regions[j].length < bitmapSize
      {
        if regions[i].base + regions[i].length > 0x100000 {
          if regions[i].length >= bitmapSize {
            foundRegion, last := true, i;
            bitmap := Bits.Or(regions[i].base, hhdmOffset);
          }
        }
      }
    }

    /** get_num_bitmap_used_frames. */
    method GetNumBitmapUsedFrames() returns (n: nat)
      ensures n == NumBitmapFrames(bitmapSize)
    {
      n := if bitmapSize % FRAME == 0 then bitmapSize / FRAME else bitmapSize / FRAME + 1;
    }

    method FillUsed(ghost rest: seq<bv8>)
      requires Valid() && ram[bitmapSize..] == rest
      modifies ram
      ensures forall f :: 0 <= f < 8 * ram.Length ==> (InUse()[f] <==> StartsUsed(bitmapSize, rest, f))
    {
      for i := 0 to bitmapSize
        invariant forall j :: 0 <= j < i ==> ram[j] == 0xFF
        invariant forall j :: bitmapSize <= j < ram.Length ==> ram[j] == rest[j - bitmapSize]
      {
        ram[i] := 0xFF;
      }
      forall f | 0 <= f < 8 * ram.Length
        ensures InUse()[f] <==> StartsUsed(bitmapSize, rest, f)
      {
        UsedAt(ram[..], f);
        AllOnes(f % 8);
      }
    }

    method FreeRegions(regions: seq<Region>)
      requires Valid()
      requires forall i :: 0 <= i < |regions| ==> regions[i].base + regions[i].length <= 8 * ram.Length * FRAME
      modifies ram
      ensures forall f :: 0 <= f < |InUse()| ==> (InUse()[f] <==> old(InUse())[f] && !FreedBy(regions, f))
    {
      for i := 0 to |regions|
        invariant forall f :: 0 <= f < |InUse()| ==>
          (InUse()[f] <==> old(InUse())[f] && !FreedBy(regions[..i], f))
      {
        var region := regions[i];
        ghost var before := InUse();
        if region.length > 0 {
          FreeRegion(region);
        }
        forall f | 0 <= f < |InUse()|
          ensures InUse()[f] <==> old(InUse())[f] && !FreedBy(regions[..i + 1], f)
        {
          assert InUse()[f] <==> before[f] && !InRegion(region, f);
          FreedBySnoc(regions, i, f);
        }
      }
      assert regions[..|regions|] == regions;
    }

    method FreeRegion(region: Region)
      requires region.base + region.length <= 8 * ram.Length * FRAME
      modifies ram
      ensures forall f :: 0 <= f < |InUse()| ==> (InUse()[f] <==> old(InUse())[f] && !InRegion(region, f))
    {
      var cur := region.base;
      ghost var j := 0;
      while cur < region.base + region.length
        invariant cur == region.base + j * FRAME
        invariant j <= (region.length + FRAME - 1) / FRAME
        invariant forall f :: 0 <= f < |InUse()| ==>
          (InUse()[f] <==> old(InUse())[f] && !(region.base / FRAME <= f < region.base / FRAME + j))
        decreases region.base + region.length - cur
      {
        BitmapMarkFree(cur);
        cur := cur + FRAME;
        j := j + 1;
      }
      assert j == (region.length + FRAME - 1) / FRAME;
    }

    method MarkBitmap(firstBitmapFrame: nat)
      requires firstBitmapFrame % FRAME == 0
      requires (firstBitmapFrame + bitmapSize) / FRAME < 8 * ram.Length
      modifies ram
      ensures forall f :: 0 <= f < |InUse()| ==>
        (InUse()[f] <==> old(InUse())[f] || InBitmap(firstBitmapFrame / FRAME, bitmapSize, f))
    {
      var cur := firstBitmapFrame;
      ghost var j := 0;
      while cur <= firstBitmapFrame + bitmapSize
        invariant cur == firstBitmapFrame + j * FRAME && j <= bitmapSize / FRAME + 1
        invariant forall f :: 0 <= f < |InUse()| ==>
          (InUse()[f] <==> old(InUse())[f] || firstBitmapFrame / FRAME <= f < firstBitmapFrame / FRAME + j)
        decreases firstBitmapFrame + bitmapSize + FRAME - cur
      {
        BitmapMarkUsed(cur);
        cur := cur + FRAME;
        j := j + 1;
      }
      assert j == bitmapSize / FRAME + 1;
    }

    ghost function InUse(): (u: seq<bool>)
      reads ram
      ensures |u| == 8 * ram.Length
    {
      Used(ram[..])
    }

    method BitmapMarkUsed(addr: nat)
      requires addr / FRAME < 8 * ram.Length
      modifies ram
      ensures InUse() == old(InUse())[addr / FRAME := true]
    {
      var idx := AddrToIdx(AlignDown(addr));
      IdxOfFrame(addr);
      UsedMarked(ram[..], addr / FRAME);
      ram[idx.byteidx] := ram[idx.byteidx] | ((1 as bv8) << idx.bitidx);
      assert ram[..] == old(ram[..])[idx.byteidx := Marked(old(ram[idx.byteidx]), idx.bitidx)];
    }

    method BitmapMarkFree(addr: nat)
      requires addr / FRAME < 8 * ram.Length
      modifies ram
      ensures InUse() == old(InUse())[addr / FRAME := false]
    {
      var idx := AddrToIdx(AlignDown(addr));
      IdxOfFrame(addr);
      UsedCleared(ram[..], addr / FRAME);
      ram[idx.byteidx] := ram[idx.byteidx] & !((1 as bv8) << idx.bitidx);
      assert ram[..] == old(ram[..])[idx.byteidx := Cleared(old(ram[idx.byteidx]), idx.bitidx)];
    }

    method IsFrameUsed(idx: BitmapIdx) returns (used: bool)
      requires idx.byteidx < ram.Length && idx.bitidx <= 8
      ensures used <==> idx.bitidx < 8 && InUse()[idx.byteidx * 8 + idx.bitidx]
      ensures used <==> !ReadsFree(InUse(), idx)
    {
      used := (ram[idx.byteidx] as bv16) & ((1 as bv16) << idx.bitidx) != 0;
      PhantomBit(ram[idx.byteidx]);
      assert used == BitSet(ram[idx.byteidx], idx.bitidx);
      if idx.bitidx < 8 {
        UsedAt(ram[..], idx.byteidx * 8 + idx.bitidx);
        assert (idx.byteidx * 8 + idx.bitidx) / 8 == idx.byteidx;
      }
    }

    /** None where the source panics. */
    method FindFreeFrame() returns (r: Option<BitmapIdx>)
      requires Valid()
      ensures r.None? ==> forall g :: 0 <= g < 8 * bitmapSize ==> InUse()[g]
      ensures r.Some? ==> r.value.bitidx < 8
      ensures r.Some? ==> LowestFree(InUse(), 8 * bitmapSize, r.value.byteidx * 8 + r.value.bitidx)
    {
      var byteidx := 0;
      while byteidx < bitmapSize
        invariant byteidx <= bitmapSize
        invariant forall g :: 0 <= g < 8 * byteidx ==> InUse()[g]
      {
        var bitidx := 0;
        while bitidx < 8
          invariant bitidx <= 8
          invariant forall g :: 0 <= g < 8 * byteidx + bitidx ==> InUse()[g]
        {
          var idx := BitmapIdx(byteidx, bitidx);
          var used := IsFrameUsed(idx);
          if !used {
            return Some(idx);
          }
          bitidx := bitidx + 1;
        }
        byteidx := byteidx + 1;
      }
      return None;
    }

    method AllocFrame() returns (r: Option<nat>)
      requires Valid()
      modifies ram
      ensures r.None? ==> InUse() == old(InUse()) && forall g :: 0 <= g < 8 * bitmapSize ==> InUse()[g]
      ensures r.Some? ==> r.value % FRAME == 0 && LowestFree(old(InUse()), 8 * bitmapSize, r.value / FRAME)
      ensures r.Some? ==> InUse() == old(InUse())[r.value / FRAME := true]
    {
      var frame := FindFreeFrame();
      if frame.None? {
        return None;
      }
      var addr := IdxToAddr(frame.value);
      BitmapMarkUsed(addr);
      return Some(addr);
    }

    method FreeFrame(frame: nat)
      requires frame / FRAME < 8 * ram.Length
      modifies ram
      ensures InUse() == old(InUse())[frame / FRAME := false]
    {
      BitmapMarkFree(frame);
    }

    /** First frame from which the nine-slot walk succeeds; None where the source panics. */
    method FindContiguousFrames(num: nat) returns (r: Option<BitmapIdx>)
      requires Valid() && bitmapSize + num / 8 + 1 < ram.Length
      ensures r.None? ==> forall g :: 0 <= g < 8 * bitmapSize ==> !Candidate(InUse(), g, num)
      ensures r.Some? ==> r.value.bitidx < 8
      ensures r.Some? ==> FirstCandidate(InUse(), 8 * bitmapSize, r.value.byteidx * 8 + r.value.bitidx, num)
      ensures r.Some? ==>
        FrameAnswer.FirstOpen(InUse()[..8 * bitmapSize], r.value.byteidx * 8 + r.value.bitidx, num)
    {
      var byteidx := 0;
      while byteidx < bitmapSize
        invariant byteidx <= bitmapSize
        invariant forall g :: 0 <= g < 8 * byteidx ==> !Candidate(InUse(), g, num)
      {
        var bitidx := 0;
        while bitidx < 8
          invariant bitidx <= 8
          invariant forall g :: 0 <= g < 8 * byteidx + bitidx ==> !Candidate(InUse(), g, num)
        {
          var idx := BitmapIdx(byteidx, bitidx);
          assert BitmapIdx((byteidx * 8 + bitidx) / 8, (byteidx * 8 + bitidx) % 8) == idx;
          var found := WalkFrom(idx, num);
          if found {
            FrameAnswer.AnswerOf(InUse(), bitmapSize, byteidx * 8 + bitidx, num);
            return Some(idx);
          }
          bitidx := bitidx + 1;
        }
        byteidx := byteidx + 1;
      }
      return None;
    }

    /** The body of the search: test idx itself, then num further positions. */
    method WalkFrom(idx: BitmapIdx, num: nat) returns (found: bool)
      requires idx.bitidx < 8 && idx.byteidx + num / 8 + 1 < ram.Length
      ensures found <==> Walk(InUse(), idx, num)
    {
      ghost var u := InUse();
      var used := IsFrameUsed(idx);
      found := !used;
      if used {
        return;
      }
      var next := idx;
      var i := 0;
      while i < num
        invariant i <= num && next.bitidx <= 8
        invariant next.byteidx * 9 + next.bitidx == idx.byteidx * 9 + idx.bitidx + i
        invariant ReadsFree(u, next) && Walk(u, next, num - i) == Walk(u, idx, num)
      {
        ghost var last := next;
        if next.bitidx + 1 > 8 {
          next := BitmapIdx(next.byteidx + 1, 0);
        } else {
          next := next.(bitidx := next.bitidx + 1);
        }
        WalkStep(u, last, next, num - i);
        i := i + 1;
        used := IsFrameUsed(next);
        if used {
          return false;
        }
      }
    }

    method AllocContiguousFrames(num: nat) returns (r: Option<nat>)
      requires Valid() && bitmapSize + num / 8 + 1 < ram.Length
      modifies ram
      ensures r.None? ==>
        InUse() == old(InUse()) && forall g :: 0 <= g < 8 * bitmapSize ==> !Candidate(InUse(), g, num)
      ensures r.Some? ==> r.value % FRAME == 0 && r.value / FRAME + num <= |InUse()|
      ensures r.Some? ==> FirstCandidate(old(InUse()), 8 * bitmapSize, r.value / FRAME, num)
      ensures r.Some? ==> Reach(old(InUse()), r.value / FRAME, num)
      ensures r.Some? ==> FrameAnswer.FirstOpen(old(InUse())[..8 * bitmapSize], r.value / FRAME, num)
      ensures r.Some? ==> InUse() == SetRun(old(InUse()), r.value / FRAME, num, true)
    {
      var frames := FindContiguousFrames(num);
      if frames.None? {
        return None;
      }
      var ret := IdxToAddr(frames.value);
      ghost var f := frames.value.byteidx * 8 + frames.value.bitidx;
      assert ret / FRAME == f;
      ReachAll(InUse(), bitmapSize, f, num);
      var cur := ret;
      assert InUse() == SetRun(old(InUse()), f, 0, true);
      for i := 0 to num
        invariant cur == (f + i) * FRAME
        invariant InUse() == SetRun(old(InUse()), f, i, true)
      {
        SetRunStep(old(InUse()), f, i, true);
        BitmapMarkUsed(cur);
        cur := cur + FRAME;
      }
      return Some(ret);
    }

    method FreeContiguousFrames(frames: nat, num: nat)
      requires frames / FRAME + num <= 8 * ram.Length
      modifies ram
      ensures InUse() == SetRun(old(InUse()), frames / FRAME, num, false)
    {
      var frame := frames;
      assert InUse() == SetRun(old(InUse()), frames / FRAME, 0, false);
      for i := 0 to num
        invariant frame == frames + i * FRAME
        invariant InUse() == SetRun(old(InUse()), frames / FRAME, i, false)
      {
        SetRunStep(old(InUse()), frames / FRAME, i, false);
        BitmapMarkFree(frame);
        frame := frame + FRAME;
      }
    }

    /** free_contiguous_frames undoes alloc_contiguous_frames, byte for byte, exactly when the
        run handed out was wholly free. */
    method AllocThenFree(num: nat) returns (r: Option<nat>)
      requires Valid() && bitmapSize + num / 8 + 1 < ram.Length
      modifies ram
      ensures r.Some? ==> (ram[..] == old(ram[..]) <==> RunFree(old(InUse()), r.value / FRAME, num))
    {
      r := AllocContiguousFrames(num);
      if r.Some? {
        SetRunUndone(old(InUse()), r.value / FRAME, num);
        FreeContiguousFrames(r.value, num);
        if InUse() == old(InUse()) {
          UsedInjective(ram[..], old(ram[..]));
        }
      }
    }
  }
}
