/** The bitmap frame allocator of kernel/memory/pmm.c: a byte array at a fixed place in
    memory and three counters, changed in place. */
module FrameAllocation {
  import opened Bits
  import opened FrameTable
  import opened FrameTheorems

  /** The bitmap starts at 0x90000; 2^20 frames need at most 0x20000 bytes of it. */
  const BITMAP_CAPACITY := 0x20000

  class FrameAllocator {
    const bitmap: array<uint8>
    var totalFrames: uint32
    var usedFrames: uint32
    var maxFrameIdx: uint32

    ghost predicate Valid()
      reads this
    {
      bitmap.Length == BITMAP_CAPACITY && maxFrameIdx <= 0xFFFFF
    }

    ghost predicate Used(f: nat)
      requires f / 8 < bitmap.Length
      reads bitmap
    {
      Bit(bitmap[f / 8], f % 8)
    }

    ghost function BitsBelow(n: nat): (bits: seq<bool>)
      requires 8 * n <= 8 * bitmap.Length
      reads bitmap
      ensures |bits| == 8 * n
      ensures forall f :: 0 <= f < 8 * n ==> bits[f] == Used(f)
    {
      seq(8 * n, f requires 0 <= f < 8 * n reads bitmap => Used(f))
    }

    /** The abstract value of the allocator. */
    ghost function Value(): (p: Frames)
      requires Valid()
      reads this, bitmap
      ensures |p.bits| == 8 * (maxFrameIdx / 8 + 1) && p.maxIdx == maxFrameIdx
    {
      Frames(BitsBelow(maxFrameIdx / 8 + 1), totalFrames, usedFrames, maxFrameIdx)
    }

    constructor ()
      ensures Valid() && fresh(bitmap)
      ensures totalFrames == usedFrames == maxFrameIdx == 0
    {
      bitmap := new uint8[BITMAP_CAPACITY];
      totalFrames, usedFrames, maxFrameIdx := 0, 0, 0;
    }

    /** `BITMAP_GET(idx)` */
    method GetBit(idx: uint32) returns (used: bool)
      requires idx / 8 < bitmap.Length
      ensures used == Used(idx)
    {
      AndPow2(bitmap[idx / 8], idx % 8);
      used := And(bitmap[idx / 8], Pow2(idx % 8)) != 0;
    }

    /** Frame `f` is used when bit `f % 8` of byte `f / 8` is set. */
    lemma UsedIsBit(f: nat)
      requires f / 8 < bitmap.Length
      ensures Used(f) <==> bitmap[f / 8] / [1, 2, 4, 8, 16, 32, 64, 128][f % 8] % 2 == 1
    {
      BitOfByte(bitmap[f / 8], f % 8);
    }

    lemma BitOfByte(x: uint8, k: nat)
      requires k < 8
      ensures Bit(x, k) <==> x / [1, 2, 4, 8, 16, 32, 64, 128][k] % 2 == 1
    {
      if k > 0 {
        BitOfByte(x / 2, k - 1);
      }
    }

    /** `BITMAP_SET(idx)` */
    method SetBit(idx: uint32)
      requires idx / 8 < bitmap.Length
      modifies bitmap
      ensures forall f :: 0 <= f < 8 * bitmap.Length ==> Used(f) == (old(Used(f)) || f == idx)
      ensures bitmap[idx / 8] == Or(old(bitmap[idx / 8]), [1, 2, 4, 8, 16, 32, 64, 128][idx % 8])
      ensures forall k :: 0 <= k < bitmap.Length && k != idx / 8 ==> bitmap[k] == old(bitmap[k])
    {
      var byte := bitmap[idx / 8];
      ByteMask(idx % 8);
      OrBound(byte, Pow2(idx % 8), 8);
      bitmap[idx / 8] := Or(byte, Pow2(idx % 8));
      forall f | 0 <= f < 8 * bitmap.Length
        ensures Used(f) == (old(Used(f)) || f == idx)
      {
        if f / 8 == idx / 8 {
          BitOr(byte, Pow2(idx % 8), f % 8);
          BitOfPow2(idx % 8, f % 8);
        }
      }
    }

    /** `BITMAP_CLEAR(idx)` */
    method ClearBit(idx: uint32)
      requires idx / 8 < bitmap.Length
      modifies bitmap
      ensures forall f :: 0 <= f < 8 * bitmap.Length ==> Used(f) == (old(Used(f)) && f != idx)
      ensures bitmap[idx / 8] == And(old(bitmap[idx / 8]), [254, 253, 251, 247, 239, 223, 191, 127][idx % 8])
      ensures forall k :: 0 <= k < bitmap.Length && k != idx / 8 ==> bitmap[k] == old(bitmap[k])
    {
      var byte := bitmap[idx / 8];
      ByteMask(idx % 8);
      AndBound(byte, 255 - Pow2(idx % 8));
      bitmap[idx / 8] := And(byte, 255 - Pow2(idx % 8));
      forall f | 0 <= f < 8 * bitmap.Length
        ensures Used(f) == (old(Used(f)) && f != idx)
      {
        if f / 8 == idx / 8 {
          BitAnd(byte, 255 - Pow2(idx % 8), f % 8);
          BitOfNot(Pow2(idx % 8), 8, f % 8);
          BitOfPow2(idx % 8, f % 8);
        }
      }
    }

    lemma ByteMask(j: nat)
      requires j < 8
      ensures Pow2(j) < Pow2(8) == 256
      ensures Pow2(j) == [1, 2, 4, 8, 16, 32, 64, 128][j] == 255 - [254, 253, 251, 247, 239, 223, 191, 127][j]
    {
      Pow2Mono(j, 8);
      assert Pow2(3) == 8 && Pow2(4) == 16 && Pow2(5) == 32 && Pow2(6) == 64 && Pow2(7) == 128;
    }

    /** `pmm_alloc_frame`: the address of the lowest clear frame, or 0. */
    method AllocFrame() returns (addr: uint32)
      requires Valid() && WellFormed(Value())
      modifies this`usedFrames, bitmap
      ensures Valid() && Value() == Alloc(old(Value())).1
      ensures match Alloc(old(Value())).0
              case Some(f) => addr == f * PAGE_SIZE && addr != 0
              case None => addr == 0
    {
      ghost var p := Value();
      var frameIdx: uint32 := 1;
      while frameIdx < totalFrames
        invariant Value() == p
        invariant 1 <= frameIdx && (1 <= p.total ==> frameIdx <= p.total)
        invariant FirstClear(p.bits, 1, p.total) == FirstClear(p.bits, frameIdx, p.total)
      {
        var used := GetBit(frameIdx);
        if !used {
          SetBit(frameIdx);
          usedFrames := Wrap32(usedFrames + 1);
          assert Value().bits == p.bits[frameIdx := true];
          return frameIdx * PAGE_SIZE;
        }
        frameIdx := frameIdx + 1;
      }
      return 0;
    }

    /** `pmm_free_frame` */
    method FreeFrame(addr: uint32)
      requires Valid() && WellFormed(Value())
      modifies this`usedFrames, bitmap
      ensures Valid() && Value() == Free(old(Value()), addr)
    {
      ghost var p := Value();
      var frameIdx := addr / PAGE_SIZE;
      if frameIdx < totalFrames {
        ClearBit(frameIdx);
        usedFrames := Wrap32(usedFrames - 1);
        assert Value().bits == p.bits[frameIdx := false];
      }
    }

    /** `pmm_set_frame_bitmap`: marks every frame touching `[start, end)` used. */
    method SetFrameBitmap(start: uint32, end: uint32)
      requires Valid() && RangeHi(end) <= |Value().bits|
      modifies this`usedFrames, bitmap
      ensures Valid() && Value() == Reserve(old(Value()), start, end)
    {
      PageMask(start);
      PageMask(Wrap32(end + PAGE_SIZE - 1));
      var first: uint32 := And(start, TWO_32 - PAGE_SIZE);
      var stop: uint32 := And(Wrap32(end + PAGE_SIZE - 1), TWO_32 - PAGE_SIZE);
      MarkFrames(first, stop, RangeLo(start), RangeHi(end));
    }

    /** The loop of `pmm_set_frame_bitmap` over page-aligned addresses. */
    method MarkFrames(start: uint32, stop: uint32, ghost lo: nat, ghost hi: nat)
      requires Valid() && start == lo * PAGE_SIZE && stop == hi * PAGE_SIZE
      requires hi <= |Value().bits|
      modifies this`usedFrames, bitmap
      ensures Valid() && Value() == SetRange(old(Value()), lo, hi)
    {
      hide SetRange, Value;
      ghost var p := Value();
      SetRangeEdges(p, lo, hi);
      ghost var f := lo;
      var addr := start;
      while addr < stop
        invariant Valid() && addr == f * PAGE_SIZE && lo <= f <= Max(lo, hi)
        invariant Value() == SetRange(p, lo, f)
      {
        SetRangeStep(p, lo, f);
        MarkFrame(addr / PAGE_SIZE, f);
        addr := addr + PAGE_SIZE;
        f := f + 1;
      }
    }

    lemma SetRangeEdges(p: Frames, lo: nat, hi: nat)
      requires hi <= |p.bits|
      ensures SetRange(p, lo, lo) == p
      ensures hi <= lo ==> SetRange(p, lo, hi) == p
    {
    }

    /** One round of that loop: a clear frame is marked used and counted. */
    method MarkFrame(frameIdx: uint32, ghost f: nat)
      requires Valid() && frameIdx == f < |Value().bits|
      modifies this`usedFrames, bitmap
      ensures Valid() && Value() == SetRange(old(Value()), frameIdx, frameIdx + 1)
    {
      ghost var p := Value();
      var used := GetBit(frameIdx);
      if !used {
        SetBit(frameIdx);
        usedFrames := Wrap32(usedFrames + 1);
      }
      assert CountClear(p.bits, frameIdx, frameIdx + 1) == if p.bits[frameIdx] then 0 else 1;
      assert Value().bits == SetRange(p, frameIdx, frameIdx + 1).bits;
    }

    lemma PageMask(x: uint32)
      ensures And(x, TWO_32 - PAGE_SIZE) == x - x % PAGE_SIZE == x / PAGE_SIZE * PAGE_SIZE
    {
      PowersOfTwo();
      AndHighMask(x, 12, 32);
    }

    /** `pmm_set_frame_bitmap` under the test of one bit of the type. */
    method SetIf(asked: bool, start: uint32, end: uint32)
      requires Valid() && (asked ==> RangeHi(end) <= |Value().bits|)
      modifies this`usedFrames, bitmap
      ensures Valid() && Value() == ReserveIf(old(Value()), asked, start, end)
    {
      hide Value, SetRange, RangeHi;
      if asked {
        SetFrameBitmap(start, end);
      }
    }

    /** The ranges of `pmm_reserve_memory_region`, each under the outcome of its test. */
    method ReserveRanges(low: bool, image: bool, table: bool, paging: bool, kernelStart: uint32, kernelEnd: uint32)
      requires Valid() && maxFrameIdx <= 0xFFFFF
      requires low ==> RangeHi(0x100000) <= |Value().bits|
      requires image ==> RangeHi(kernelEnd) <= |Value().bits|
      requires table ==> RangeHi(BitmapEnd(maxFrameIdx)) <= |Value().bits|
      requires paging ==> RangeHi(PAGE_DIR_ADDR + 4096) <= |Value().bits| && RangeHi(PAGE_TABLE_ADDR + 4096) <= |Value().bits|
      modifies this`usedFrames, bitmap
      ensures Valid()
      ensures var p1 := ReserveIf(old(Value()), low, 0, 0x100000);
              var p2 := ReserveIf(p1, image, kernelStart, kernelEnd);
              var p3 := ReserveIf(p2, table, BITMAP_ADDR, BitmapEnd(maxFrameIdx));
              var p4 := ReserveIf(p3, paging, PAGE_DIR_ADDR, PAGE_DIR_ADDR + 4096);
              Value() == ReserveIf(p4, paging, PAGE_TABLE_ADDR, PAGE_TABLE_ADDR + 4096)
    {
      hide Value, ReserveIf, RangeHi;
      SetIf(low, 0, 0x100000);
      SetIf(image, kernelStart, kernelEnd);
      SetIf(table, BITMAP_ADDR, BITMAP_ADDR + maxFrameIdx / 8 + 1);
      SetIf(paging, PAGE_DIR_ADDR, PAGE_DIR_ADDR + 4096);
      SetIf(paging, PAGE_TABLE_ADDR, PAGE_TABLE_ADDR + 4096);
    }

    /** `pmm_reserve_memory_region` */
    method ReserveMemoryRegion(kind: uint32, kernelStart: uint32, kernelEnd: uint32)
      requires Valid() && CanReserve(Value(), kind, kernelEnd)
      modifies this`usedFrames, bitmap
      ensures Valid() && Value() == ReserveRegion(old(Value()), kind, kernelStart, kernelEnd)
    {
      TypeMask(kind);
      RegionInRange(Value(), kind, kernelEnd);
      hide Value, ReserveIf, And, Or, Bit, RangeHi;
      ReserveRanges(Or(Or(Or(And(kind, 7), And(kind, 1)), And(kind, 2)), And(kind, 4)) != 0,
                    And(kind, 8) != 0, And(kind, 16) != 0, And(kind, 32) != 0, kernelStart, kernelEnd);
    }

    /** The ranges asked for lie in the bitmap, whatever was reserved before. */
    lemma RegionInRange(p: Frames, kind: uint32, kernelEnd: uint32)
      requires CanReserve(p, kind, kernelEnd)
      ensures p.maxIdx <= 0xFFFFF && BITMAP_ADDR + p.maxIdx / 8 + 1 == BitmapEnd(p.maxIdx)
      ensures kind % 8 != 0 ==> RangeHi(0x100000) <= |p.bits|
      ensures Bit(kind, 3) ==> RangeHi(kernelEnd) <= |p.bits|
      ensures Bit(kind, 4) ==> RangeHi(BitmapEnd(p.maxIdx)) <= |p.bits|
      ensures Bit(kind, 5) ==> RangeHi(PAGE_DIR_ADDR + 4096) <= |p.bits| && RangeHi(PAGE_TABLE_ADDR + 4096) <= |p.bits|
    {
    }

    lemma TypeMask(kind: uint32)
      ensures Or(Or(Or(And(kind, 7), And(kind, 1)), And(kind, 2)), And(kind, 4)) != 0 <==> kind % 8 != 0
      ensures And(kind, 8) != 0 <==> Bit(kind, 3)
      ensures And(kind, 16) != 0 <==> Bit(kind, 4)
      ensures And(kind, 32) != 0 <==> Bit(kind, 5)
    {
      assert Pow2(3) == 8 && Pow2(4) == 16 && Pow2(5) == 32;
      AndPow2(kind, 3);
      AndPow2(kind, 4);
      AndPow2(kind, 5);
      AndLowMask(kind, 3);
      var a, b, c := And(kind, 1), And(kind, 2), And(kind, 4);
      OrNonZero(And(kind, 7), a);
      OrNonZero(Or(And(kind, 7), a), b);
      OrNonZero(Or(Or(And(kind, 7), a), b), c);
      AndPow2(kind, 0);
      AndPow2(kind, 1);
      AndPow2(kind, 2);
      assert Pow2(0) == 1 && Pow2(1) == 2 && Pow2(2) == 4;
    }

    lemma OrNonZero(x: nat, y: nat)
      ensures Or(x, y) == 0 <==> x == 0 && y == 0
      decreases x + y
    {
    }

    /** `pmm_init` */
    method Init(regions: seq<Region>)
      requires Valid()
      requires |regions| <= MAX_MEMORY_REGIONS
      requires forall r :: r in regions ==> StepsEnd(r)
      modifies this, bitmap
      ensures Valid() && Value() == InitFrames(regions, old(maxFrameIdx))
    {
      totalFrames := 0;
      usedFrames := 0;
      FindMaxFrame(regions);
      MarkAllUsed();
      FreeRegions(regions);
      assert Value().bits == InitBits(regions, maxFrameIdx);
    }

    /** Step 1 of `pmm_init`: the highest region end decides the size of the bitmap. */
    method FindMaxFrame(regions: seq<Region>)
      requires Valid()
      modifies this`maxFrameIdx
      ensures Valid() && maxFrameIdx == MaxFrame(regions, old(maxFrameIdx))
    {
      for i := 0 to |regions|
        invariant maxFrameIdx == MaxFrame(regions[..i], old(maxFrameIdx)) <= 0xFFFFF
      {
        assert regions[..i + 1][..i] == regions[..i];
        var regionEnd := Wrap32(RegionBase(regions[i]) + Wrap32(regions[i].length));
        if regionEnd / PAGE_SIZE > maxFrameIdx {
          maxFrameIdx := regionEnd / PAGE_SIZE;
        }
      }
      assert regions[..|regions|] == regions;
    }

    /** Step 3 of `pmm_init`: every byte of the bitmap becomes 0xFF. */
    method MarkAllUsed()
      requires Valid()
      modifies bitmap
      ensures forall f :: 0 <= f < 8 * (maxFrameIdx / 8 + 1) ==> Used(f)
    {
      var bytes := maxFrameIdx / 8 + 1;
      for b := 0 to bytes
        invariant forall k :: 0 <= k < b ==> bitmap[k] == 0xFF
      {
        bitmap[b] := 0xFF;
      }
      forall f | 0 <= f < 8 * bytes
        ensures Used(f)
      {
        assert bitmap[f / 8] == Pow2(8) - 1 - 0;
        BitOfNot(0, 8, f % 8);
        BitOfZero(f % 8);
      }
    }

    /** Step 4 of `pmm_init`: the frames of the usable regions become clear. */
    method FreeRegions(regions: seq<Region>)
      requires Valid() && totalFrames == 0
      requires |regions| <= MAX_MEMORY_REGIONS
      requires forall r :: r in regions ==> StepsEnd(r)
      requires forall f :: 0 <= f < 8 * (maxFrameIdx / 8 + 1) ==> Used(f)
      modifies this`totalFrames, bitmap
      ensures totalFrames == Wrap32(TotalCounted(regions, maxFrameIdx))
      ensures forall f :: 0 <= f < 8 * (maxFrameIdx / 8 + 1) ==>
                Used(f) == !(f < maxFrameIdx && Covered(regions, f))
    {
      for i := 0 to |regions|
        invariant totalFrames == TotalCounted(regions[..i], maxFrameIdx) <= 0x10_0000 * i
        invariant forall f :: 0 <= f < 8 * (maxFrameIdx / 8 + 1) ==>
                    Used(f) == !(f < maxFrameIdx && Covered(regions[..i], f))
      {
        ClearRegion(regions[i]);
        assert regions[..i + 1][..i] == regions[..i];
        assert regions[..i + 1][i] == regions[i];
        forall f | 0 <= f < 8 * (maxFrameIdx / 8 + 1)
          ensures Covered(regions[..i + 1], f) <==> Covered(regions[..i], f) || Touches(regions[i], f)
        {
          CoveredFront(regions[..i + 1], f);
        }
      }
      assert regions[..|regions|] == regions;
    }

    /** The address loop over one usable region in `pmm_init`. */
    method ClearRegion(r: Region)
      requires Valid() && StepsEnd(r)
      requires totalFrames <= 0x10_0000 * MAX_MEMORY_REGIONS
      modifies this`totalFrames, bitmap
      ensures totalFrames == old(totalFrames) + CountedEnd(r, maxFrameIdx) - FirstFrame(r)
      ensures totalFrames <= old(totalFrames) + 0x10_0000
      ensures forall f :: 0 <= f < 8 * (maxFrameIdx / 8 + 1) ==>
                Used(f) == (old(Used(f)) && !(f < maxFrameIdx && Touches(r, f)))
    {
      var base, end := RegionBase(r), Wrap32(RegionBase(r) + Wrap32(r.length));
      var addr := base;
      ghost var k := 0;
      while addr < end
        invariant 0 <= k && addr == base + k * PAGE_SIZE && k <= Steps(r)
        invariant k > 0 ==> base + (k - 1) * PAGE_SIZE < end
        invariant totalFrames == old(totalFrames) + Max(FirstFrame(r), Min(FirstFrame(r) + k, maxFrameIdx)) - FirstFrame(r)
        invariant forall f :: 0 <= f < 8 * (maxFrameIdx / 8 + 1) ==>
                    Used(f) == (old(Used(f)) && !(f < maxFrameIdx && FirstFrame(r) <= f < FirstFrame(r) + k))
        decreases end - addr
      {
        var frameIdx := addr / PAGE_SIZE;
        assert frameIdx == FirstFrame(r) + k;
        if frameIdx < maxFrameIdx {
          ClearBit(frameIdx);
          totalFrames := totalFrames + 1;
        }
        addr := Wrap32(addr + PAGE_SIZE);
        k := k + 1;
      }
      assert k == Steps(r);
    }
  }
}
