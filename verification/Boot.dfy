/** The boot order of kernel/main/kernel.c, lines 203 to 249: allocator, reservations, two
    trial allocations, paging, and the mapping of the kernel stack. */
module Boot {
  import opened Bits
  import opened FrameTable
  import opened FrameTheorems
  import opened FrameRuns
  import opened UsableMemory
  import opened PageWalk
  import opened DemandPaging
  import opened KernelRuns

  const STACK_DIR_INDEX := 779

  /** The reservations address only the initialised part of the bitmap. */
  predicate Bootable(regions: seq<Region>, kernelEnd: uint32) {
    var m := MaxFrame(regions, 0);
    m >= 248 && RangeHi(kernelEnd) <= 8 * (m / 8 + 1)
  }

  lemma BitmapRange(m: nat)
    requires 248 <= m <= 0xFFFFF
    ensures RangeHi(BitmapEnd(m)) <= 256 <= 8 * (m / 8 + 1)
    ensures RangeHi(0x100000) == 256 && RangeHi(PAGE_DIR_ADDR + 4096) == 129 && RangeHi(PAGE_TABLE_ADDR + 4096) == 130
  {
  }

  /** After `pmm_init` and the reservations of low memory, the kernel image and the bitmap. */
  ghost function ReservedFrames(regions: seq<Region>, kernelStart: uint32, kernelEnd: uint32): (p: Frames)
    requires Bootable(regions, kernelEnd)
    ensures p.maxIdx == MaxFrame(regions, 0) && |p.bits| == 8 * (p.maxIdx / 8 + 1)
  {
    BitmapRange(MaxFrame(regions, 0));
    var p := InitFrames(regions, 0);
    var p1 := Reserve(p, 0, 0x100000);
    var p2 := Reserve(p1, kernelStart, kernelEnd);
    Reserve(p2, BITMAP_ADDR, BitmapEnd(p.maxIdx))
  }

  /** The allocator when paging is switched on: two trial allocations later. */
  ghost function PagingBase(regions: seq<Region>, kernelStart: uint32, kernelEnd: uint32): (p: Frames)
    requires Bootable(regions, kernelEnd) && DisjointBelow(regions, MaxFrame(regions, 0))
    ensures p.maxIdx == MaxFrame(regions, 0) && |p.bits| == 8 * (p.maxIdx / 8 + 1)
  {
    var p := ReservedFrames(regions, kernelStart, kernelEnd);
    ReservationsConserve(regions, kernelStart, kernelEnd);
    AllocConserves(p);
    Alloc(Alloc(p).1).1
  }

  lemma ReservationsConserve(regions: seq<Region>, kernelStart: uint32, kernelEnd: uint32)
    requires Bootable(regions, kernelEnd) && DisjointBelow(regions, MaxFrame(regions, 0))
    ensures Conserved(ReservedFrames(regions, kernelStart, kernelEnd))
  {
    BitmapRange(MaxFrame(regions, 0));
    InitConserves(regions, 0);
    var p := InitFrames(regions, 0);
    ReserveConserves(p, 0, 256);
    var p1 := Reserve(p, 0, 0x100000);
    ReserveConserves(p1, RangeLo(kernelStart), RangeHi(kernelEnd));
    var p2 := Reserve(p1, kernelStart, kernelEnd);
    ReserveConserves(p2, RangeLo(BITMAP_ADDR), RangeHi(BitmapEnd(p.maxIdx)));
  }

  /** The frames a reservation of the boot sequence takes: low memory, the kernel image and
      the bitmap. */
  predicate ReservedAtBoot(f: nat, kernelStart: uint32, kernelEnd: uint32, maxIdx: nat)
    requires maxIdx <= 0xFFFFF
  {
    || f < 256
    || RangeLo(kernelStart) <= f < RangeHi(kernelEnd)
    || BITMAP_ADDR / PAGE_SIZE <= f < RangeHi(BitmapEnd(maxIdx))
  }

  /** Boot reservation, end to end: a frame is still clear exactly when `pmm_init` freed it
      and no reservation takes it; on a map whose regions all fit, exactly when it is
      wholly inside usable memory and no reservation takes it. */
  lemma ReservationsExact(regions: seq<Region>, kernelStart: uint32, kernelEnd: uint32)
    requires Bootable(regions, kernelEnd)
    ensures var p := ReservedFrames(regions, kernelStart, kernelEnd);
            forall f :: 0 <= f < |p.bits| ==>
              (!p.bits[f] <==>
                f < p.maxIdx && Covered(regions, f) && !ReservedAtBoot(f, kernelStart, kernelEnd, p.maxIdx))
    ensures var p := ReservedFrames(regions, kernelStart, kernelEnd);
            (forall i :: 0 <= i < |regions| ==> Fits(regions[i], p.maxIdx)) ==>
              forall f :: 0 <= f < |p.bits| ==>
                (!p.bits[f] <==>
                  f < p.maxIdx && Usable(regions, f) && !ReservedAtBoot(f, kernelStart, kernelEnd, p.maxIdx))
  {
    ClearAfterReservations(regions, kernelStart, kernelEnd);
    hide ReservedFrames, Covered, Usable, Fits, MaxFrame, ReservedAtBoot;
    var p := ReservedFrames(regions, kernelStart, kernelEnd);
    if forall i :: 0 <= i < |regions| ==> Fits(regions[i], p.maxIdx) {
      forall f: nat | f < p.maxIdx
        ensures Covered(regions, f) <==> Usable(regions, f)
      {
        CoveredIsUsable(regions, 0, f);
      }
    }
  }

  lemma ClearAfterReservations(regions: seq<Region>, kernelStart: uint32, kernelEnd: uint32)
    requires Bootable(regions, kernelEnd)
    ensures var p := ReservedFrames(regions, kernelStart, kernelEnd);
            && p.total == InitFrames(regions, 0).total
            && forall f :: 0 <= f < |p.bits| ==>
                 (!p.bits[f] <==>
                   f < p.maxIdx && Covered(regions, f) && !ReservedAtBoot(f, kernelStart, kernelEnd, p.maxIdx))
  {
    BitmapRange(MaxFrame(regions, 0));
    hide MaxFrame, Covered, InitFrames, SetRange;
  }

  /** From the reservations on, every run that exhausts the allocator has handed out or
      reserved all freed frames, if and only if each covered frame at or above both 1 MByte
      and `total_frames` is in the kernel image. */
  lemma FreedAtBootHandedOutIff(regions: seq<Region>, kernelStart: uint32, kernelEnd: uint32)
    requires Bootable(regions, kernelEnd) && DisjointBelow(regions, MaxFrame(regions, 0))
    ensures var p := ReservedFrames(regions, kernelStart, kernelEnd);
            (forall f: nat :: Max(256, p.total) <= f < p.maxIdx && Covered(regions, f) ==>
               RangeLo(kernelStart) <= f < RangeHi(kernelEnd)) <==>
            (forall ops, d :: Exhausts(Client(p, {}, {}), ops, d) ==>
               |d.p.bits| == |p.bits| && forall f :: 1 <= f < p.maxIdx ==> d.p.bits[f])
  {
    HighBitsAtBoot(regions, kernelStart, kernelEnd);
    ReservationsConserve(regions, kernelStart, kernelEnd);
    hide Exhausts, Covered, MaxFrame, ReservedFrames, RangeLo, RangeHi, Conserved;
    NothingLeftIff(ReservedFrames(regions, kernelStart, kernelEnd));
  }

  lemma HighBitsAtBoot(regions: seq<Region>, kernelStart: uint32, kernelEnd: uint32)
    requires Bootable(regions, kernelEnd)
    ensures var p := ReservedFrames(regions, kernelStart, kernelEnd);
            && p.maxIdx <= |p.bits|
            && forall f: nat :: f < p.maxIdx ==>
                 (p.bits[f] <==> f < 256 || !Covered(regions, f) || RangeLo(kernelStart) <= f < RangeHi(kernelEnd))
  {
    BitmapRange(MaxFrame(regions, 0));
    ClearAfterReservations(regions, kernelStart, kernelEnd);
    hide ReservedFrames, MaxFrame, Covered, RangeLo, RangeHi, BitmapEnd;
  }

  /** With the kernel image below 1 MByte, that is if and only if no covered frame above
      1 MByte has a hole in the covered frames below it. */
  lemma FreedAtBootHandedOutIffNoHole(regions: seq<Region>, kernelStart: uint32, kernelEnd: uint32)
    requires Bootable(regions, kernelEnd) && DisjointBelow(regions, MaxFrame(regions, 0))
    requires kernelEnd <= 0x10_0000
    ensures var p := ReservedFrames(regions, kernelStart, kernelEnd);
            NoHole(regions, 256, p.maxIdx) <==>
            (forall ops, d :: Exhausts(Client(p, {}, {}), ops, d) ==>
               |d.p.bits| == |p.bits| && forall f :: 1 <= f < p.maxIdx ==> d.p.bits[f])
  {
    FreedAtBootHandedOutIff(regions, kernelStart, kernelEnd);
    ClearAfterReservations(regions, kernelStart, kernelEnd);
    StrandedIffHole(regions, 0, 256);
    assert RangeHi(kernelEnd) <= 256;
    var i := InitFrames(regions, 0);
    assert forall f: nat :: f < i.maxIdx ==> (Covered(regions, f) <==> !i.bits[f]);
    hide Exhausts, Covered, MaxFrame, ReservedFrames, InitFrames, NoHole, RangeHi, ReservedAtBoot;
  }

  /** Frame 0xFFFFF is reserved by no rounded-up range. */
  lemma LastFrameIsOpen(kernelStart: uint32, kernelEnd: uint32, maxIdx: nat)
    requires 248 <= maxIdx <= 0xFFFFF
    ensures !ReservedAtBoot(0xFFFFF, kernelStart, kernelEnd, maxIdx)
  {
    BitmapRange(maxIdx);
  }

  /** From the reservations on, every run that exhausts the allocator has handed out or
      reserved all usable memory that the boot did not reserve, if and only if each such
      frame is below `total_frames`. */
  lemma UsableAtBootHandedOutIff(regions: seq<Region>, kernelStart: uint32, kernelEnd: uint32)
    requires Bootable(regions, kernelEnd) && DisjointBelow(regions, MaxFrame(regions, 0))
    ensures var p := ReservedFrames(regions, kernelStart, kernelEnd);
            (forall f: nat :: f < 0x10_0000 && Usable(regions, f) && !ReservedAtBoot(f, kernelStart, kernelEnd, p.maxIdx) ==>
               AlwaysTaken(p, f)) <==>
            (forall f: nat :: f < 0x10_0000 && Usable(regions, f) && !ReservedAtBoot(f, kernelStart, kernelEnd, p.maxIdx) ==>
               f < p.total)
  {
    var p := ReservedFrames(regions, kernelStart, kernelEnd);
    ReservationsConserve(regions, kernelStart, kernelEnd);
    LastFrameIsOpen(kernelStart, kernelEnd, p.maxIdx);
    ClearAfterReservations(regions, kernelStart, kernelEnd);
    assert p.total <= 0xFFFFF && p.total <= |p.bits|;
    hide ReservedFrames, AlwaysTaken, Usable, Covered, MaxFrame, Bootable, DisjointBelow, InitFrames;
    forall f: nat | f < 0x10_0000 && Usable(regions, f) && !ReservedAtBoot(f, kernelStart, kernelEnd, p.maxIdx)
      ensures AlwaysTaken(p, f) ==> f < p.total
      ensures f < p.total && !Usable(regions, 0xFFFFF) ==> AlwaysTaken(p, f)
    {
      assert f >= 256;
      AlwaysTakenIff(p, f);
      if !Usable(regions, 0xFFFFF) {
        UsableIsFreed(regions, 0, f);
      }
    }
    hide ReservedAtBoot;
  }

  /** On a map whose regions all fit, with the kernel image below 1 MByte, that is if and
      only if below every usable frame above 1 MByte all frames are usable. */
  lemma UsableAtBootHandedOutIffNoHole(regions: seq<Region>, kernelStart: uint32, kernelEnd: uint32)
    requires Bootable(regions, kernelEnd) && DisjointBelow(regions, MaxFrame(regions, 0))
    requires kernelEnd <= 0x10_0000
    requires forall i :: 0 <= i < |regions| ==> Fits(regions[i], MaxFrame(regions, 0))
    ensures var p := ReservedFrames(regions, kernelStart, kernelEnd);
            (forall f: nat :: 256 <= f < 0x10_0000 && Usable(regions, f) ==> AlwaysTaken(p, f)) <==>
            UsableNoHole(regions, 256)
  {
    var p := ReservedFrames(regions, kernelStart, kernelEnd);
    UsableAtBootHandedOutIff(regions, kernelStart, kernelEnd);
    ClearAfterReservations(regions, kernelStart, kernelEnd);
    FittingMapNoHole(regions, 0, 256);
    LowImage(kernelStart, kernelEnd, p.maxIdx);
    hide ReservedFrames, AlwaysTaken, Usable, Covered, MaxFrame, Bootable, DisjointBelow, InitFrames, UsableNoHole, ReservedAtBoot, Fits;
  }

  lemma LowImage(kernelStart: uint32, kernelEnd: uint32, maxIdx: nat)
    requires 248 <= maxIdx <= 0xFFFFF && kernelEnd <= 0x10_0000
    ensures forall f: nat :: ReservedAtBoot(f, kernelStart, kernelEnd, maxIdx) <==> f < 256
  {
    BitmapRange(maxIdx);
    assert RangeHi(kernelEnd) <= 256;
  }

  /** The map of a usual machine, memory below `a` pages, a hole up to 1 MByte, memory from
      there to `m`: `total_frames` falls short of `m` by the size of the hole. */
  lemma LowHoleReserved(a: nat, m: nat, kernelStart: uint32, kernelEnd: uint32)
    requires 0 < a < 256 < m < 0x10_0000 && kernelEnd <= 0x10_0000
    ensures var regions := TwoBlocks(a, 256, m);
            && Bootable(regions, kernelEnd) && DisjointBelow(regions, MaxFrame(regions, 0))
            && var p := ReservedFrames(regions, kernelStart, kernelEnd);
               && p.maxIdx == m && p.total == m - (256 - a) && m <= |p.bits|
               && forall f: nat :: f < m ==> (p.bits[f] <==> f < 256)
  {
    var regions := TwoBlocks(a, 256, m);
    TwoBlocksCover(a, 256, m);
    BitmapRange(m);
    assert RangeHi(kernelEnd) <= 256;
    hide TwoBlocks, Covered, MaxFrame, InitFrames, CountClear, RangeHi, ReservedFrames, NoHole, ReservedAtBoot;
    HoleStrands(regions, a, 256, m);
    HighBitsAtBoot(regions, kernelStart, kernelEnd);
    ClearAfterReservations(regions, kernelStart, kernelEnd);
  }

  /** On it, allocating until nothing is left leaves the last pages clear, as many as the
      hole has. */
  lemma LowHoleStrands(a: nat, m: nat, kernelStart: uint32, kernelEnd: uint32) returns (ops: seq<Op>, d: Client)
    requires 0 < a < 256 < m < 0x10_0000 && kernelEnd <= 0x10_0000
    ensures var regions := TwoBlocks(a, 256, m);
            && Bootable(regions, kernelEnd) && DisjointBelow(regions, MaxFrame(regions, 0))
            && Exhausts(Client(ReservedFrames(regions, kernelStart, kernelEnd), {}, {}), ops, d)
    ensures m <= |d.p.bits| && forall f :: Max(256, m - (256 - a)) <= f < m ==> !d.p.bits[f]
  {
    LowHoleReserved(a, m, kernelStart, kernelEnd);
    hide TwoBlocks, MaxFrame, ReservedFrames, Exhausts, Bootable, DisjointBelow;
    ops, d := Drain(Client(ReservedFrames(TwoBlocks(a, 256, m), kernelStart, kernelEnd), {}, {}));
  }

  /** 16 MByte of memory at 0 and two pages above 4 GByte. */
  function HighMap(): seq<Region> { [Region(0, 0x100_0000, 1), Region(0x1_C000_0000, 0x2000, 1)] }

  lemma HighMapCovers()
    ensures MaxFrame(HighMap(), 0) == 0xC0002 && DisjointBelow(HighMap(), 0xC0002)
    ensures Covered(HighMap(), 0xC0000) && !Usable(HighMap(), 0xC0000)
    ensures forall f: nat :: Covered(HighMap(), f) <==> f < 4096 || 0xC0000 <= f < 0xC0002
  {
    var r0, r1 := Region(0, 0x100_0000, 1), Region(0x1_C000_0000, 0x2000, 1);
    var regions := HighMap();
    hide MaxFrame;
    MaxFrameIsMaximum(regions, 0);
    assert RegionEnd(r0) / PAGE_SIZE == 4096 && RegionEnd(r1) / PAGE_SIZE == 0xC0002;
    assert forall f: nat :: Touches(r0, f) <==> f < 4096;
    assert forall f: nat :: Touches(r1, f) <==> 0xC0000 <= f < 0xC0002;
    assert Touches(regions[1], 0xC0000);
    forall i, j, f: nat | 0 <= i < j < 2
      ensures !(Touches(regions[i], f) && Touches(regions[j], f))
    {
      assert regions[i] == r0 && regions[j] == r1;
    }
    forall f: nat
      ensures Covered(regions, f) <==> f < 4096 || 0xC0000 <= f < 0xC0002
    {
      assert Touches(regions[0], f) <==> f < 4096;
      assert Touches(regions[1], f) <==> 0xC0000 <= f < 0xC0002;
    }
  }

  /** It boots with frame 0xC0000 left to the allocator, where there is no memory. */
  lemma HighMemoryAtBoot(kernelStart: uint32, kernelEnd: uint32)
    requires kernelEnd <= 0x10_0000
    ensures Bootable(HighMap(), kernelEnd) && DisjointBelow(HighMap(), MaxFrame(HighMap(), 0))
    ensures var p := ReservedFrames(HighMap(), kernelStart, kernelEnd);
            0xC0000 < |p.bits| && !p.bits[0xC0000] && !Usable(HighMap(), 0xC0000)
  {
    HighMapCovers();
    hide MaxFrame, HighMap, Covered, Usable;
    BitmapRange(0xC0002);
    assert RangeHi(kernelEnd) <= 256;
    ReservationsExact(HighMap(), kernelStart, kernelEnd);
    hide ReservedFrames, RangeHi;
  }

  /** The freed frames of that map have a hole; yet all its usable memory is handed out, for
      the frame above makes `total_frames` large enough. */
  lemma HighMapIsTaken(kernelStart: uint32, kernelEnd: uint32, f: nat)
    requires kernelEnd <= 0x10_0000 && 256 <= f < 0x10_0000 && Usable(HighMap(), f)
    ensures Bootable(HighMap(), kernelEnd) && DisjointBelow(HighMap(), MaxFrame(HighMap(), 0))
    ensures !NoHole(HighMap(), 256, MaxFrame(HighMap(), 0))
    ensures AlwaysTaken(ReservedFrames(HighMap(), kernelStart, kernelEnd), f)
  {
    HighMapCovers();
    HighMapUsable(f);
    HighMapReserved(kernelStart, kernelEnd, f);
    hide HighMap, MaxFrame, Covered, Usable, AlwaysTaken, ReservedFrames, Bootable, DisjointBelow;
    assert Covered(HighMap(), 0xC0000) && !Covered(HighMap(), 0x5000);
    ReservationsConserve(HighMap(), kernelStart, kernelEnd);
    hide Conserved;
    AlwaysTakenIff(ReservedFrames(HighMap(), kernelStart, kernelEnd), f);
  }

  lemma HighMapReserved(kernelStart: uint32, kernelEnd: uint32, f: nat)
    requires kernelEnd <= 0x10_0000 && 256 <= f < 4096
    ensures Bootable(HighMap(), kernelEnd)
    ensures var p := ReservedFrames(HighMap(), kernelStart, kernelEnd);
            p.total == 4098 && f < |p.bits| && !p.bits[f]
  {
    HighMapCovers();
    HighMapTotal();
    BitmapRange(0xC0002);
    assert RangeHi(kernelEnd) <= 256;
    hide HighMap, MaxFrame, Covered, InitFrames, ReservedFrames, ReservedAtBoot, RangeHi;
    LowImage(kernelStart, kernelEnd, 0xC0002);
    ClearAfterReservations(HighMap(), kernelStart, kernelEnd);
  }

  lemma HighMapUsable(f: nat)
    requires f < 0x10_0000
    ensures Usable(HighMap(), f) ==> f < 4096
  {
    assert !WhollyInside(HighMap()[1], f);
  }

  lemma HighMapTotal()
    ensures DisjointBelow(HighMap(), MaxFrame(HighMap(), 0))
    ensures InitFrames(HighMap(), 0).total == 4098
  {
    HighMapCovers();
    var p := InitFrames(HighMap(), 0);
    InitTotal(HighMap(), 0);
    BlocksCount(p.bits, 4096, 0xC0000, p.maxIdx);
    hide HighMap, InitFrames, MaxFrame, Covered, CountClear;
  }

  /** Memory from 0 to 4 GByte in two regions. */
  function TopMap(): seq<Region> { [Region(0, 0x100_0000, 1), Region(0x100_0000, 0xFF00_0000, 1)] }

  lemma TopMapCovers()
    ensures MaxFrame(TopMap(), 0) == 4096 && DisjointBelow(TopMap(), 4096) && NoHole(TopMap(), 256, 4096)
    ensures forall f: nat :: 4096 <= f < 0x10_0000 ==> Usable(TopMap(), f)
  {
    var r0, r1 := Region(0, 0x100_0000, 1), Region(0x100_0000, 0xFF00_0000, 1);
    var regions := TopMap();
    hide MaxFrame;
    MaxFrameIsMaximum(regions, 0);
    assert RegionEnd(r0) / PAGE_SIZE == 4096 && RegionEnd(r1) == 0;
    assert forall f: nat :: Touches(r0, f) <==> f < 4096;
    assert forall f: nat :: !Touches(r1, f);
    assert regions[0] == r0 && regions[1] == r1;
    forall f: nat | 4096 <= f < 0x10_0000
      ensures Usable(regions, f)
    {
      assert WhollyInside(regions[1], f);
    }
    forall f: nat
      ensures Covered(regions, f) <==> f < 4096
    {
      assert Touches(regions[0], f) <==> f < 4096;
    }
  }

  /** It boots with no hole in the freed frames, and all its memory above 16 MByte is lost. */
  lemma TopMapIsLost(kernelStart: uint32, kernelEnd: uint32, f: nat)
    requires kernelEnd <= 0x10_0000 && 4096 <= f < 0x10_0000
    ensures Bootable(TopMap(), kernelEnd) && DisjointBelow(TopMap(), MaxFrame(TopMap(), 0))
    ensures NoHole(TopMap(), 256, MaxFrame(TopMap(), 0)) && Usable(TopMap(), f)
    ensures !AlwaysTaken(ReservedFrames(TopMap(), kernelStart, kernelEnd), f)
  {
    TopMapCovers();
    hide TopMap, MaxFrame, Covered, Usable, AlwaysTaken, NoHole;
    BitmapRange(4096);
    assert RangeHi(kernelEnd) <= 256;
    ReservationsConserve(TopMap(), kernelStart, kernelEnd);
    hide ReservedFrames, RangeHi;
    AlwaysTakenIff(ReservedFrames(TopMap(), kernelStart, kernelEnd), f);
  }

  // ----- the kernel stack -----

  function StackAddress(k: nat): uint32
    requires 1 <= k <= STACK_PAGES
  {
    KERNEL_STACK_BOTTOM + k * PAGE_SIZE
  }

  lemma FrameRange(f: nat)
    requires f < 0x10_0000 - 1
    ensures f * PAGE_SIZE + PAGE_SIZE < TWO_32
    ensures RangeLo(f * PAGE_SIZE) == f && RangeHi(f * PAGE_SIZE + PAGE_SIZE) == f + 1
  {
  }

  /** One round of the stack loop: allocate, map, and mark the frame used once more. */
  ghost function MapStackPage(s: Space, k: nat): (r: (Status, Space))
    requires WellFormed(s.frames) && 1 <= k <= STACK_PAGES && s.frames.total <= s.frames.maxIdx
    ensures WellFormed(r.1.frames) && r.1.frames.total <= r.1.frames.maxIdx
  {
    var f := Alloc(s.frames).0.GetOr(0);
    var (status, s') := DemandMap(s, StackAddress(k));
    if status != Running then (status, s')
    else
      FrameRange(f);
      (Running, s'.(frames := Reserve(s'.frames, f * PAGE_SIZE, f * PAGE_SIZE + PAGE_SIZE)))
  }

  ghost function MapStack(s: Space, n: nat): (r: (Status, Space))
    requires WellFormed(s.frames) && n <= STACK_PAGES && s.frames.total <= s.frames.maxIdx
    ensures WellFormed(r.1.frames) && r.1.frames.total <= r.1.frames.maxIdx
  {
    if n == 0 then (Running, s)
    else
      var (status, s') := MapStack(s, n - 1);
      if status == Running then MapStackPage(s', n) else (status, s')
  }

  /** The space when paging has just been switched on. */
  ghost function PagingStart(mem: Memory, base: Frames): Space {
    Space(InitPaging(mem), base)
  }

  /** Switching paging on over any memory contents establishes the invariant with no table
      and no page above 4 MByte. */
  lemma PagingStartInv(mem: Memory, base: Frames)
    requires Conserved(base) && LowMemoryUsed(base)
    ensures var s := PagingStart(mem, base);
            Inv(s, base) && Tables(s.mem) == map[] && Pages(s.mem) == map[]
  {
    var m := InitPaging(mem);
    assert forall i :: 1 <= i < ENTRIES ==> DirEntry(m, i) == 2;
    assert !Present(2);
    assert Tables(m) == map[];
    assert Pages(m) == map[];
  }

  /** Marking a frame that is already used changes nothing. */
  lemma ReserveUsedFrame(p: Frames, f: nat)
    requires MarkedUsed(p, f)
    ensures f * PAGE_SIZE + PAGE_SIZE < TWO_32 && RangeHi(f * PAGE_SIZE + PAGE_SIZE) <= |p.bits|
    ensures Reserve(p, f * PAGE_SIZE, f * PAGE_SIZE + PAGE_SIZE) == p
  {
    FrameRange(f);
    CountZero(p.bits, f, f + 1);
    assert SetRange(p, f, f + 1).bits == p.bits;
  }

  lemma StackAddressPage(k: nat)
    requires 1 <= k <= STACK_PAGES
    ensures PageOf(StackAddress(k)) == KERNEL_STACK_BOTTOM / PAGE_SIZE + k
    ensures DirIndex(StackAddress(k)) == STACK_DIR_INDEX && StackAddress(k) >= 0x40_0000
  {
  }

  /** The first `n` stack pages are mapped and nothing else above 4 MByte; one table serves
      them all; the redundant marking has no effect. */
  ghost predicate StackMapped(s: Space, base: Frames, n: nat) {
    && Inv(s, base)
    && (forall p :: p in Pages(s.mem) <==>
          KERNEL_STACK_BOTTOM / PAGE_SIZE < p <= KERNEL_STACK_BOTTOM / PAGE_SIZE + n)
    && |Pages(s.mem)| == n
    && Tables(s.mem).Keys == (if n == 0 then {} else {STACK_DIR_INDEX})
  }

  lemma InvWellFormed(s: Space, base: Frames)
    requires Inv(s, base)
    ensures WellFormed(s.frames) && s.frames.total <= s.frames.maxIdx
    ensures forall i :: 1 <= i < ENTRIES ==> (i in Tables(s.mem) <==> Present(DirEntry(s.mem, i)))
    ensures forall p :: ENTRIES <= p < PAGES ==> (p in Pages(s.mem) <==> WalkPage(s.mem, p).Mapped?)
    ensures forall p :: p in Pages(s.mem) ==> ENTRIES <= p < PAGES && Pages(s.mem)[p] == WalkPage(s.mem, p).frame
  {
  }

  ghost predicate MarkedUsed(p: Frames, f: nat) {
    f < |p.bits| && f < 0xFFFFF && p.bits[f]
  }

  /** Marking the frame of the new stack page once more changes nothing. */
  lemma MarkingIsRedundant(s: Space, base: Frames, k: nat)
    requires 1 <= k <= STACK_PAGES && StackMapped(s, base, k - 1)
    requires DemandMap(s, StackAddress(k)).0 == Running
    ensures MapStackPage(s, k) == DemandMap(s, StackAddress(k))
    ensures Alloc(s.frames).0.Some? && MarkedUsed(DemandMap(s, StackAddress(k)).1.frames, Alloc(s.frames).0.value)
  {
    hide Inv, DemandMap, Tables, Pages, KernelEntries, Owned, Conserved, WalkPage;
    InvWellFormed(s, base);
    StackAddressPage(k);
    var v, s' := StackAddress(k), DemandMap(s, StackAddress(k)).1;
    assert PageOf(v) !in Pages(s.mem);
    DemandMapKeepsInv(s, base, v);
    var f := Alloc(s.frames).0.value;
    InvWellFormed(s', base);
    assert PageOf(v) in Pages(s'.mem) && Pages(s'.mem)[PageOf(v)] == f;
    assert WalkPage(s'.mem, PageOf(v)).frame == f;
    PageFrameIsOwn(s', base, PageOf(v));
    ReserveUsedFrame(s'.frames, f);
  }

  lemma StackPageStep(s: Space, base: Frames, k: nat)
    requires 1 <= k <= STACK_PAGES && StackMapped(s, base, k - 1)
    requires DemandMap(s, StackAddress(k)).0 == Running
    ensures StackMapped(MapStackPage(s, k).1, base, k)
  {
    hide Inv, DemandMap, KernelEntries, Owned, Conserved, WalkPage, MapStackPage, Alloc, MarkedUsed, Tables, Pages;
    InvWellFormed(s, base);
    MarkingIsRedundant(s, base, k);
    var v := StackAddress(k);
    StackAddressPage(k);
    assert PageOf(v) !in Pages(s.mem);
    DemandMapKeepsInv(s, base, v);
    ValuesAfterInsert(Pages(s.mem), PageOf(v), Alloc(s.frames).0.value);
  }

  lemma {:induction false} MapStackInv(s: Space, base: Frames, n: nat)
    requires WellFormed(s.frames) && s.frames.total <= s.frames.maxIdx
    requires n <= STACK_PAGES && StackMapped(s, base, 0)
    requires MapStack(s, n).0 == Running
    ensures StackMapped(MapStack(s, n).1, base, n)
  {
    hide StackMapped, DemandMap;
    if n != 0 {
      MapStackInv(s, base, n - 1);
      StackPageStep(MapStack(s, n - 1).1, base, n);
    }
  }

  // ----- the boot theorem -----

  /** Boot up to the switch to the high stack, with the allocator value of line 213. */
  ghost function BootSpace(regions: seq<Region>, kernelStart: uint32, kernelEnd: uint32, mem: Memory): (Status, Space)
    requires Bootable(regions, kernelEnd) && DisjointBelow(regions, MaxFrame(regions, 0))
  {
    BaseConserved(regions, kernelStart, kernelEnd);
    MapStack(PagingStart(mem, PagingBase(regions, kernelStart, kernelEnd)), STACK_PAGES)
  }

  lemma BaseConserved(regions: seq<Region>, kernelStart: uint32, kernelEnd: uint32)
    requires Bootable(regions, kernelEnd) && DisjointBelow(regions, MaxFrame(regions, 0))
    ensures var base := PagingBase(regions, kernelStart, kernelEnd);
            Conserved(base) && LowMemoryUsed(base)
  {
    var p := ReservedFrames(regions, kernelStart, kernelEnd);
    ReservationsConserve(regions, kernelStart, kernelEnd);
    ReservationsExact(regions, kernelStart, kernelEnd);
    BitmapRange(p.maxIdx);
    AllocConserves(p);
    AllocConserves(Alloc(p).1);
  }

  /** How many of the two trial allocations succeed. */
  ghost function Trials(p: Frames): nat
    requires WellFormed(p)
  {
    (if Alloc(p).0.Some? then 1 else 0) + (if Alloc(Alloc(p).1).0.Some? then 1 else 0)
  }

  lemma BaseCounts(regions: seq<Region>, kernelStart: uint32, kernelEnd: uint32)
    requires Bootable(regions, kernelEnd) && DisjointBelow(regions, MaxFrame(regions, 0))
    ensures var reserved := ReservedFrames(regions, kernelStart, kernelEnd);
            Conserved(reserved) &&
            PagingBase(regions, kernelStart, kernelEnd).used == reserved.used + Trials(reserved)
  {
    var p := ReservedFrames(regions, kernelStart, kernelEnd);
    ReservationsConserve(regions, kernelStart, kernelEnd);
    AllocConserves(p);
    AllocConserves(Alloc(p).1);
  }

  /** With a kernel image that ends below 0x70000000, at most half of the frames are taken
      before paging. */
  lemma BaseUsesFew(regions: seq<Region>, kernelStart: uint32, kernelEnd: uint32)
    requires Bootable(regions, kernelEnd) && DisjointBelow(regions, MaxFrame(regions, 0))
    requires kernelEnd <= 0x7000_0000
    ensures FewReserved(PagingBase(regions, kernelStart, kernelEnd))
  {
    ReservedUses(regions, kernelStart, kernelEnd);
    BaseCounts(regions, kernelStart, kernelEnd);
    hide ReservedFrames, PagingBase, Conserved;
  }

  lemma ReservedUses(regions: seq<Region>, kernelStart: uint32, kernelEnd: uint32)
    requires Bootable(regions, kernelEnd) && DisjointBelow(regions, MaxFrame(regions, 0))
    ensures ReservedFrames(regions, kernelStart, kernelEnd).used <= 512 + RangeHi(kernelEnd)
  {
    BitmapRange(MaxFrame(regions, 0));
    InitConserves(regions, 0);
    var p := InitFrames(regions, 0);
    var p1 := Reserve(p, 0, 0x100000);
    ReserveConserves(p, 0, 256);
    var p2 := Reserve(p1, kernelStart, kernelEnd);
    hide InitFrames, SetRange, Conserved;
    ReserveConserves(p1, RangeLo(kernelStart), RangeHi(kernelEnd));
    ReserveConserves(p2, RangeLo(BITMAP_ADDR), RangeHi(BitmapEnd(p.maxIdx)));
  }

  /** What `pmm_reserve_memory_region` marks for any type: bits 0 to 2 select low memory, bit 3
      the kernel image, bit 4 the bitmap, bit 5 the directory and the first table. */
  lemma ReserveRegionMarks(p: Frames, kind: uint32, kernelStart: uint32, kernelEnd: uint32)
    requires CanReserve(p, kind, kernelEnd)
    ensures var q := ReserveRegion(p, kind, kernelStart, kernelEnd);
            && q.total == p.total && q.maxIdx == p.maxIdx && |q.bits| == |p.bits|
            && forall f :: 0 <= f < |p.bits| ==>
                 (q.bits[f] <==> p.bits[f] || Selected(kind, f, kernelStart, kernelEnd, p.maxIdx))
  {
    KindBitValues(kind);
    hide Bit, CountClear;
    assert RangeLo(PAGE_DIR_ADDR) == 128 && RangeHi(PAGE_DIR_ADDR + 4096) == 129;
    assert RangeLo(PAGE_TABLE_ADDR) == 129 && RangeHi(PAGE_TABLE_ADDR + 4096) == 130;
    assert RangeLo(0) == 0 && RangeHi(0x100000) == 256 && RangeLo(BITMAP_ADDR) == 0x90;
  }

  predicate Selected(kind: uint32, f: nat, kernelStart: uint32, kernelEnd: uint32, maxIdx: nat)
    requires maxIdx <= 0xFFFFF
  {
    || (kind % 8 != 0 && f < 256)
    || (kind / 8 % 2 == 1 && RangeLo(kernelStart) <= f < RangeHi(kernelEnd))
    || (kind / 16 % 2 == 1 && 0x90 <= f < RangeHi(0x90000 + maxIdx / 8 + 1))
    || (kind / 32 % 2 == 1 && 0x80 <= f < 0x82)
  }

  lemma KindBitValues(kind: uint32)
    ensures Bit(kind, 3) <==> kind / 8 % 2 == 1
    ensures Bit(kind, 4) <==> kind / 16 % 2 == 1
    ensures Bit(kind, 5) <==> kind / 32 % 2 == 1
  {
    assert Bit(kind / 2, 2) <==> Bit(kind / 4, 1);
    assert Bit(kind / 4, 1) <==> Bit(kind / 8, 0);
    assert Bit(kind / 4, 2) <==> Bit(kind / 16, 0);
    assert Bit(kind / 8, 2) <==> Bit(kind / 32, 0);
    assert Bit(kind, 5) <==> Bit(kind / 8, 2);
  }

  /** The four calls of `pmm_reserve_memory_region` in the boot sequence. */
  lemma ReserveKinds(p: Frames, kernelStart: uint32, kernelEnd: uint32)
    requires p.maxIdx <= 0xFFFFF && 256 <= |p.bits| && RangeHi(kernelEnd) <= |p.bits|
    requires RangeHi(BitmapEnd(p.maxIdx)) <= |p.bits|
    ensures RangeHi(0x100000) == 256 && RangeHi(PAGE_DIR_ADDR + 4096) == 129 && RangeHi(PAGE_TABLE_ADDR + 4096) == 130
    ensures CanReserve(p, RESERVED_TYPE_INIT, kernelEnd)
            && ReserveRegion(p, RESERVED_TYPE_INIT, kernelStart, kernelEnd) == Reserve(p, 0, 0x100000)
    ensures CanReserve(p, RESERVED_TYPE_KERNEL, kernelEnd)
            && ReserveRegion(p, RESERVED_TYPE_KERNEL, kernelStart, kernelEnd) == Reserve(p, kernelStart, kernelEnd)
    ensures CanReserve(p, RESERVED_TYPE_BITMAP, kernelEnd)
            && ReserveRegion(p, RESERVED_TYPE_BITMAP, kernelStart, kernelEnd) == Reserve(p, BITMAP_ADDR, BitmapEnd(p.maxIdx))
    ensures CanReserve(p, RESERVED_TYPE_PAGE_TABLE, kernelEnd)
    ensures (forall f :: 0 <= f < 256 ==> p.bits[f]) ==>
              ReserveRegion(p, RESERVED_TYPE_PAGE_TABLE, kernelStart, kernelEnd) == p
  {
    KindBits();
    if forall f :: 0 <= f < 256 ==> p.bits[f] {
      ReserveUsedFrame(p, 128);
      ReserveUsedFrame(p, 129);
    }
  }

  lemma KindBits()
    ensures !Bit(RESERVED_TYPE_INIT, 3) && !Bit(RESERVED_TYPE_INIT, 4) && !Bit(RESERVED_TYPE_INIT, 5)
    ensures Bit(RESERVED_TYPE_KERNEL, 3) && !Bit(RESERVED_TYPE_KERNEL, 4) && !Bit(RESERVED_TYPE_KERNEL, 5)
    ensures !Bit(RESERVED_TYPE_BITMAP, 3) && Bit(RESERVED_TYPE_BITMAP, 4) && !Bit(RESERVED_TYPE_BITMAP, 5)
    ensures !Bit(RESERVED_TYPE_PAGE_TABLE, 3) && !Bit(RESERVED_TYPE_PAGE_TABLE, 4) && Bit(RESERVED_TYPE_PAGE_TABLE, 5)
  {
  }

  /** A boot that completes establishes the invariant of the running kernel: exactly the
      fifteen stack pages are mapped through one table, the guard page is not. */
  lemma BootIsGood(regions: seq<Region>, kernelStart: uint32, kernelEnd: uint32, mem: Memory)
    requires Bootable(regions, kernelEnd) && DisjointBelow(regions, MaxFrame(regions, 0))
    requires BootSpace(regions, kernelStart, kernelEnd, mem).0 == Running
    ensures var base := PagingBase(regions, kernelStart, kernelEnd);
            var s := BootSpace(regions, kernelStart, kernelEnd, mem).1;
            && Good(s, base)
            && Pages(s.mem).Keys == Range(KERNEL_STACK_BOTTOM / PAGE_SIZE + 1, KERNEL_STACK_TOP / PAGE_SIZE)
            && Tables(s.mem).Keys == {STACK_DIR_INDEX}
            && forall p :: p in Pages(s.mem) <==> 0xC2FF1 <= p < 0xC3000
  {
    hide Inv, Tables, Pages, PagingBase, Conserved, LowMemoryUsed;
    var base := PagingBase(regions, kernelStart, kernelEnd);
    BaseConserved(regions, kernelStart, kernelEnd);
    PagingStartInv(mem, base);
    MapStackInv(PagingStart(mem, base), base, STACK_PAGES);
  }

  /** The three ends of the boot, by the clear frames left after the trial allocations: it
      completes with two below 4 MByte and sixteen in all; it halts on a table it cannot
      reach with two in all but not two below 4 MByte; otherwise it runs out of memory. */
  lemma BootOutcome(regions: seq<Region>, kernelStart: uint32, kernelEnd: uint32, mem: Memory)
    requires Bootable(regions, kernelEnd) && DisjointBelow(regions, MaxFrame(regions, 0))
    ensures var base := PagingBase(regions, kernelStart, kernelEnd);
            && WellFormed(base)
            && var low := CountClear(base.bits, 1, Min(WINDOW_FRAMES, base.total));
               var clear := CountClear(base.bits, 1, base.total);
               BootSpace(regions, kernelStart, kernelEnd, mem).0 ==
               if clear >= 2 && low <= 1 then Halted(TableUnreachable)
               else if clear < STACK_PAGES + 1 then Halted(OutOfMemory)
               else Running
  {
    var base := PagingBase(regions, kernelStart, kernelEnd);
    BaseConserved(regions, kernelStart, kernelEnd);
    PagingStartInv(mem, base);
    MapStackCompletes(PagingStart(mem, base), base, STACK_PAGES);
    CountSplitLow(base);
  }

  /** A completed boot took exactly sixteen clear frames, so at most sixteen below 4 MByte. */
  lemma BootTakesSixteen(regions: seq<Region>, kernelStart: uint32, kernelEnd: uint32, mem: Memory)
    requires Bootable(regions, kernelEnd) && DisjointBelow(regions, MaxFrame(regions, 0))
    requires BootSpace(regions, kernelStart, kernelEnd, mem).0 == Running
    ensures var base := PagingBase(regions, kernelStart, kernelEnd);
            var p := BootSpace(regions, kernelStart, kernelEnd, mem).1.frames;
            && WellFormed(base) && WellFormed(p) && p.total == base.total
            && CountClear(p.bits, 1, p.total) == CountClear(base.bits, 1, base.total) - (STACK_PAGES + 1)
            && CountClear(p.bits, 1, Min(WINDOW_FRAMES, p.total)) >=
               CountClear(base.bits, 1, Min(WINDOW_FRAMES, base.total)) - (STACK_PAGES + 1)
  {
    var base := PagingBase(regions, kernelStart, kernelEnd);
    BaseConserved(regions, kernelStart, kernelEnd);
    PagingStartInv(mem, base);
    MapStackCompletes(PagingStart(mem, base), base, STACK_PAGES);
  }

  lemma {:induction false} MapStackCompletes(s: Space, base: Frames, n: nat)
    requires WellFormed(s.frames) && s.frames.total <= s.frames.maxIdx
    requires 1 <= n <= STACK_PAGES && StackMapped(s, base, 0)
    ensures var r := MapStack(s, n);
            var low := CountClear(s.frames.bits, 1, Min(WINDOW_FRAMES, s.frames.total));
            var clear := CountClear(s.frames.bits, 1, s.frames.total);
            && r.0 == (if clear >= 2 && low <= 1 then Halted(TableUnreachable)
                       else if clear < n + 1 then Halted(OutOfMemory)
                       else Running)
            && (r.0 == Running ==>
                  r.1.frames.total == s.frames.total &&
                  CountClear(r.1.frames.bits, 1, r.1.frames.total) == clear - (n + 1) &&
                  CountClear(r.1.frames.bits, 1, Min(WINDOW_FRAMES, r.1.frames.total)) >= low - (n + 1))
  {
    hide StackMapped, DemandMap, MapStackPage;
    if n == 1 {
      assert MapStack(s, 0) == (Running, s);
      FirstStackPage(s, base);
    } else {
      MapStackCompletes(s, base, n - 1);
      if MapStack(s, n - 1).0 == Running {
        MapStackInv(s, base, n - 1);
        LaterStackPage(MapStack(s, n - 1).1, base, n);
      }
    }
  }

  lemma FirstStackPage(s: Space, base: Frames)
    requires WellFormed(s.frames) && s.frames.total <= s.frames.maxIdx
    requires StackMapped(s, base, 0)
    ensures var r := MapStackPage(s, 1);
            var low := CountClear(s.frames.bits, 1, Min(WINDOW_FRAMES, s.frames.total));
            var clear := CountClear(s.frames.bits, 1, s.frames.total);
            && r.0 == (if clear >= 2 && low <= 1 then Halted(TableUnreachable)
                       else if clear < 2 then Halted(OutOfMemory)
                       else Running)
            && (r.0 == Running ==>
                  r.1.frames.total == s.frames.total &&
                  CountClear(r.1.frames.bits, 1, r.1.frames.total) == clear - 2 &&
                  CountClear(r.1.frames.bits, 1, Min(WINDOW_FRAMES, r.1.frames.total)) >= low - 2)
  {
    StackAddressPage(1);
    InvWellFormed(s, base);
    hide Inv;
    assert STACK_DIR_INDEX !in Tables(s.mem);
    NewTableCounts(s, StackAddress(1));
    hide DemandMap, CountClear, Tables, Alloc;
    if DemandMap(s, StackAddress(1)).0 == Running {
      MarkingIsRedundant(s, base, 1);
    }
  }

  /** Demand mapping with a new table takes two clear frames. */
  lemma NewTableCounts(s: Space, v: uint32)
    requires WellFormed(s.frames) && !Present(DirEntry(s.mem, DirIndex(v)))
    ensures var r := DemandMap(s, v);
            var low := CountClear(s.frames.bits, 1, Min(WINDOW_FRAMES, s.frames.total));
            var clear := CountClear(s.frames.bits, 1, s.frames.total);
            && r.0 == (if clear >= 2 && low <= 1 then Halted(TableUnreachable)
                       else if clear < 2 then Halted(OutOfMemory)
                       else Running)
            && (r.0 == Running ==>
                  r.1.frames.total == s.frames.total &&
                  CountClear(r.1.frames.bits, 1, r.1.frames.total) == clear - 2 &&
                  CountClear(r.1.frames.bits, 1, Min(WINDOW_FRAMES, r.1.frames.total)) >= low - 2)
  {
    DemandMapOutcome(s, v);
    CountSplitLow(s.frames);
    AllocByCount(s.frames);
    AllocByCount(Alloc(s.frames).1);
    hide CountClear;
  }

  lemma LaterStackPage(s: Space, base: Frames, k: nat)
    requires WellFormed(s.frames) && s.frames.total <= s.frames.maxIdx
    requires 2 <= k <= STACK_PAGES && StackMapped(s, base, k - 1)
    ensures var r := MapStackPage(s, k);
            var low := CountClear(s.frames.bits, 1, Min(WINDOW_FRAMES, s.frames.total));
            var clear := CountClear(s.frames.bits, 1, s.frames.total);
            && r.0 == (if clear == 0 then Halted(OutOfMemory) else Running)
            && (r.0 == Running ==>
                  r.1.frames.total == s.frames.total &&
                  CountClear(r.1.frames.bits, 1, r.1.frames.total) == clear - 1 &&
                  CountClear(r.1.frames.bits, 1, Min(WINDOW_FRAMES, r.1.frames.total)) >= low - 1)
  {
    StackAddressPage(k);
    InvWellFormed(s, base);
    hide Inv;
    assert STACK_DIR_INDEX in Tables(s.mem);
    DemandMapOutcome(s, StackAddress(k));
    AllocByCount(s.frames);
    if DemandMap(s, StackAddress(k)).0 == Running {
      MarkingIsRedundant(s, base, k);
    }
  }

  // ----- from boot through any run -----

  lemma GoodAccounts(s: Space, base: Frames)
    requires Good(s, base)
    ensures s.frames.used == base.used + |Tables(s.mem)| + |Pages(s.mem)|
    ensures WalkPage(s.mem, KERNEL_STACK_BOTTOM / PAGE_SIZE) == NotPresent
  {
    assert KERNEL_STACK_BOTTOM / PAGE_SIZE !in Pages(s.mem);
  }

  /** Frame accounting over whole runs: `used_frames` is the number of frames the
      reservations took, plus the trial allocations that succeeded, plus page tables, plus
      mapped pages; at most 4096 faults ever return; the guard page is never mapped. */
  lemma BootedRun(regions: seq<Region>, kernelStart: uint32, kernelEnd: uint32, mem: Memory, events: seq<Event>, s': Space)
    requires Bootable(regions, kernelEnd) && DisjointBelow(regions, MaxFrame(regions, 0))
    requires BootSpace(regions, kernelStart, kernelEnd, mem).0 == Running
    requires Reaches(BootSpace(regions, kernelStart, kernelEnd, mem).1, events, s')
    ensures var reserved := ReservedFrames(regions, kernelStart, kernelEnd);
            && Good(s', PagingBase(regions, kernelStart, kernelEnd))
            && Conserved(reserved)
            && s'.frames.used == reserved.used + Trials(reserved) + |Tables(s'.mem)| + |Pages(s'.mem)|
            && |Pages(s'.mem)| == 15 + Faults(events)
            && Faults(events) <= 4096
            && Walk(s'.mem, 0xC2FF_0000) == NotPresent
  {
    BaseCounts(regions, kernelStart, kernelEnd);
    BootIsGood(regions, kernelStart, kernelEnd, mem);
    hide Good, Reaches, PagingBase, ReservedFrames, BootSpace, Conserved, Tables, Pages, WalkPage, Trials;
    var base := PagingBase(regions, kernelStart, kernelEnd);
    var s := BootSpace(regions, kernelStart, kernelEnd, mem).1;
    RunKeepsGood(s, base, events, s');
    FaultsAreBounded(s, base, events, s');
    RangeCardinality(KERNEL_STACK_BOTTOM / PAGE_SIZE + 1, KERNEL_STACK_TOP / PAGE_SIZE);
    assert |Pages(s.mem)| == |Pages(s.mem).Keys| == STACK_PAGES;
    GoodAccounts(s', base);
  }

  /** In every state reached from boot, the frames of two present pages above 4 MByte are
      different, used, above 1 MByte, no page table, outside the kernel image and the bitmap,
      and covered by a region: wholly inside usable memory if every region fits.  Each such
      page is supervisor-only and writable. */
  lemma BootedPagesAreSafe(regions: seq<Region>, kernelStart: uint32, kernelEnd: uint32, mem: Memory, events: seq<Event>, s': Space,
                           p: nat, q: nat, i: nat)
    requires Bootable(regions, kernelEnd) && DisjointBelow(regions, MaxFrame(regions, 0))
    requires BootSpace(regions, kernelStart, kernelEnd, mem).0 == Running
    requires Reaches(BootSpace(regions, kernelStart, kernelEnd, mem).1, events, s')
    requires ENTRIES <= p < PAGES && WalkPage(s'.mem, p).Mapped?
    ensures var t := WalkPage(s'.mem, p);
            && t.Writable() && !t.UserAccess()
            && 256 <= t.frame < |s'.frames.bits| && s'.frames.bits[t.frame]
            && t.frame < MaxFrame(regions, 0) && Covered(regions, t.frame)
            && ((forall j :: 0 <= j < |regions| ==> Fits(regions[j], MaxFrame(regions, 0))) ==> Usable(regions, t.frame))
            && !ReservedAtBoot(t.frame, kernelStart, kernelEnd, MaxFrame(regions, 0))
            && (ENTRIES <= q < PAGES && q != p && WalkPage(s'.mem, q).Mapped? ==> WalkPage(s'.mem, q).frame != t.frame)
            && (i < ENTRIES && Present(DirEntry(s'.mem, i)) ==> FrameOf(DirEntry(s'.mem, i)) != t.frame)
  {
    var base := PagingBase(regions, kernelStart, kernelEnd);
    BootedRun(regions, kernelStart, kernelEnd, mem, events, s');
    BaseCoversReserved(regions, kernelStart, kernelEnd);
    hide BootSpace, PagingBase, Reaches, Confined, InvFor, WalkPage, Covered, Usable, Fits, MaxFrame, ReservedAtBoot;
    PageFrameIsOwn(s', base, p);
    PageFrameIsUnshared(s', base, p);
    GoodShape(s', base);
  }

  /** The stack set-up writes no frame that was in use, either. */
  lemma {:induction false} MapStackKeepsFrame(s: Space, base: Frames, n: nat, f: nat, i: nat)
    requires WellFormed(s.frames) && s.frames.total <= s.frames.maxIdx
    requires n <= STACK_PAGES && StackMapped(s, base, 0) && MapStack(s, n).0 == Running
    requires Untouched(base, f) && i < ENTRIES
    ensures Entry(MapStack(s, n).1.mem, f, i) == Entry(s.mem, f, i)
  {
    hide StackMapped, DemandMap, MapStackPage, Untouched, Entry;
    if n != 0 {
      MapStackKeepsFrame(s, base, n - 1, f, i);
      MapStackInv(s, base, n - 1);
      StackPageKeepsFrame(MapStack(s, n - 1).1, base, n, f, i);
    }
  }

  lemma StackPageKeepsFrame(s: Space, base: Frames, k: nat, f: nat, i: nat)
    requires WellFormed(s.frames) && s.frames.total <= s.frames.maxIdx
    requires 1 <= k <= STACK_PAGES && StackMapped(s, base, k - 1) && MapStackPage(s, k).0 == Running
    requires Untouched(base, f) && i < ENTRIES
    ensures Entry(MapStackPage(s, k).1.mem, f, i) == Entry(s.mem, f, i)
  {
    InvWellFormed(s, base);
    StackAddressPage(k);
    assert DemandMap(s, StackAddress(k)).0 == Running;
    hide DemandMap, Inv, MapStackPage, Untouched, Entry, Pages, WalkPage;
    MarkingIsRedundant(s, base, k);
    assert PageOf(StackAddress(k)) !in Pages(s.mem);
    DemandMapKeepsFrame(s, base, StackAddress(k), f, i);
  }

  /** From the memory before paging to any state reached: every frame reserved at boot, the
      frame bitmap among them, is unchanged, but for the directory and the first table. */
  lemma BootedRunKeepsReserved(regions: seq<Region>, kernelStart: uint32, kernelEnd: uint32, mem: Memory, events: seq<Event>, s': Space,
                               f: nat, i: nat)
    requires Bootable(regions, kernelEnd) && DisjointBelow(regions, MaxFrame(regions, 0))
    requires BootSpace(regions, kernelStart, kernelEnd, mem).0 == Running
    requires Reaches(BootSpace(regions, kernelStart, kernelEnd, mem).1, events, s')
    requires ReservedAtBoot(f, kernelStart, kernelEnd, MaxFrame(regions, 0))
    requires f != DIR_FRAME && f != FIRST_TABLE_FRAME && i < ENTRIES
    ensures Entry(s'.mem, f, i) == Entry(mem, f, i)
  {
    var base := PagingBase(regions, kernelStart, kernelEnd);
    ReservedIsUntouched(regions, kernelStart, kernelEnd, f);
    BootIsGood(regions, kernelStart, kernelEnd, mem);
    hide PagingBase, BootSpace, Reaches, Good, Entry, Untouched, Pages, Tables;
    BootKeepsFrame(regions, kernelStart, kernelEnd, mem, f, i);
    RunKeepsFrame(BootSpace(regions, kernelStart, kernelEnd, mem).1, base, events, s', f, i);
  }

  lemma BootKeepsFrame(regions: seq<Region>, kernelStart: uint32, kernelEnd: uint32, mem: Memory, f: nat, i: nat)
    requires Bootable(regions, kernelEnd) && DisjointBelow(regions, MaxFrame(regions, 0))
    requires BootSpace(regions, kernelStart, kernelEnd, mem).0 == Running
    requires Untouched(PagingBase(regions, kernelStart, kernelEnd), f) && f != FIRST_TABLE_FRAME && i < ENTRIES
    ensures Entry(BootSpace(regions, kernelStart, kernelEnd, mem).1.mem, f, i) == Entry(mem, f, i)
  {
    var base := PagingBase(regions, kernelStart, kernelEnd);
    BaseConserved(regions, kernelStart, kernelEnd);
    PagingStartInv(mem, base);
    InitPagingKeepsFrame(mem, f, i);
    hide Inv, Tables, Pages, PagingBase, Conserved, LowMemoryUsed, InitPaging, Entry, MapStack;
    MapStackKeepsFrame(PagingStart(mem, base), base, STACK_PAGES, f, i);
  }

  lemma InitPagingKeepsFrame(mem: Memory, f: nat, i: nat)
    requires f < PAGES && f != DIR_FRAME && f != FIRST_TABLE_FRAME && i < ENTRIES
    ensures Entry(InitPaging(mem), f, i) == Entry(mem, f, i)
  {
  }

  lemma ReservedIsUntouched(regions: seq<Region>, kernelStart: uint32, kernelEnd: uint32, f: nat)
    requires Bootable(regions, kernelEnd) && DisjointBelow(regions, MaxFrame(regions, 0))
    requires ReservedAtBoot(f, kernelStart, kernelEnd, MaxFrame(regions, 0)) && f != DIR_FRAME
    ensures Untouched(PagingBase(regions, kernelStart, kernelEnd), f)
  {
    BitmapRange(MaxFrame(regions, 0));
    BaseCoversReserved(regions, kernelStart, kernelEnd);
    hide PagingBase, MaxFrame, Covered;
  }

  lemma GoodShape(s: Space, base: Frames)
    requires Good(s, base)
    ensures |s.frames.bits| == |base.bits|
  {
  }

  /** A frame still clear when paging starts is covered, usable if every region fits, and
      not reserved. */
  lemma BaseCoversReserved(regions: seq<Region>, kernelStart: uint32, kernelEnd: uint32)
    requires Bootable(regions, kernelEnd) && DisjointBelow(regions, MaxFrame(regions, 0))
    ensures var base := PagingBase(regions, kernelStart, kernelEnd);
            forall f :: 0 <= f < |base.bits| && !base.bits[f] ==>
              && f < base.maxIdx && Covered(regions, f) && !ReservedAtBoot(f, kernelStart, kernelEnd, base.maxIdx)
              && ((forall j :: 0 <= j < |regions| ==> Fits(regions[j], base.maxIdx)) ==> Usable(regions, f))
  {
    var p := ReservedFrames(regions, kernelStart, kernelEnd);
    ReservationsExact(regions, kernelStart, kernelEnd);
    ReservationsConserve(regions, kernelStart, kernelEnd);
    TrialsKeepUsed(p);
    hide ReservedFrames, Conserved, Covered, Alloc, Usable, Fits, ReservedAtBoot, MaxFrame;
  }

  lemma TrialsKeepUsed(p: Frames)
    requires Conserved(p)
    ensures WellFormed(Alloc(p).1)
    ensures var q := Alloc(Alloc(p).1).1;
            |q.bits| == |p.bits| && forall f :: 0 <= f < |p.bits| && p.bits[f] ==> q.bits[f]
  {
  }
}
