/** The boot sequence and the first heap access of kernel/main/kernel.c, end to end, on a
    machine whose memory is one block: exactly how the boot ends, and that a store to the
    heap faults, is mapped, and reads back. */
module FirstAccess {
  import opened Bits
  import opened FrameTable
  import opened FrameTheorems
  import opened FrameRuns
  import opened UsableMemory
  import opened PageWalk
  import opened DemandPaging
  import opened KernelRuns
  import opened Boot

  /** The regions cover exactly the frames from `lo` to `m`, each once. */
  ghost predicate IsBlock(regions: seq<Region>, lo: nat, m: nat) {
    && MaxFrame(regions, 0) == m && DisjointBelow(regions, m) && lo <= m
    && forall f: nat :: Covered(regions, f) <==> lo <= f < m
  }

  /** One available region of whole pages is a block of its frames. */
  lemma OneRegionIsBlock(lo: nat, m: nat)
    requires lo < m < 0x10_0000
    ensures IsBlock([Region(lo * PAGE_SIZE, (m - lo) * PAGE_SIZE, 1)], lo, m)
  {
    var r := Region(lo * PAGE_SIZE, (m - lo) * PAGE_SIZE, 1);
    var regions := [r];
    Below4GByte(r);
    assert RegionBase(r) == lo * PAGE_SIZE && RegionEnd(r) == m * PAGE_SIZE && Steps(r) == m - lo;
    OneRegionMax(r);
    hide MaxFrame;
    forall f: nat
      ensures Covered(regions, f) <==> lo <= f < m
    {
      assert Touches(regions[0], f) <==> lo <= f < m;
    }
  }

  lemma BlockTotal(regions: seq<Region>, lo: nat, m: nat)
    requires IsBlock(regions, lo, m)
    ensures InitFrames(regions, 0).total == m - lo
  {
    var p := InitFrames(regions, 0);
    InitTotal(regions, 0);
    hide InitFrames, MaxFrame, Covered;
    CountSplit(p.bits, 0, lo, m);
    CountZero(p.bits, 0, lo);
    CountAllClear(p.bits, lo, m);
  }

  /** A block with the kernel image below 1 MByte leaves its frames from 1 MByte on clear. */
  lemma BlockReserved(regions: seq<Region>, lo: nat, m: nat, kernelStart: uint32, kernelEnd: uint32)
    requires IsBlock(regions, lo, m) && 248 <= m && kernelEnd <= 0x10_0000
    ensures Bootable(regions, kernelEnd)
    ensures var p := ReservedFrames(regions, kernelStart, kernelEnd);
            && Conserved(p) && p.total == m - lo
            && forall f :: 0 <= f < |p.bits| ==> (!p.bits[f] <==> Max(lo, 256) <= f < m)
  {
    BitmapRange(m);
    assert RangeHi(kernelEnd) <= 256;
    BlockTotal(regions, lo, m);
    ReservationsConserve(regions, kernelStart, kernelEnd);
    hide ReservedFrames, Covered, MaxFrame, InitFrames, Conserved, BitmapEnd;
    ClearAfterReservations(regions, kernelStart, kernelEnd);
  }

  /** First fit on a suffix takes its first frame, if `total_frames` reaches that far. */
  lemma AllocFromSuffix(p: Frames, lo: nat, m: nat)
    requires WellFormed(p) && 1 <= lo && p.total <= m
    requires forall f :: 0 <= f < |p.bits| ==> (!p.bits[f] <==> lo <= f < m)
    requires p.total <= lo || lo < m <= |p.bits|
    ensures var q := Alloc(p).1;
            && WellFormed(q) && q.total == p.total && |q.bits| == |p.bits|
            && forall f :: 0 <= f < |q.bits| ==> (!q.bits[f] <==> After(lo, p.total) <= f < m)
  {
    FirstFit(p);
    if lo < p.total {
      assert Alloc(p).0 == Some(lo);
    } else {
      assert Alloc(p).0 == None;
    }
    hide FirstClear;
  }

  function After(lo: nat, total: nat): nat { if lo < total then lo + 1 else lo }

  /** First clear frame when paging starts. */
  function FirstLeft(lo: nat, m: nat): nat
    requires lo <= m
  {
    After(After(Max(lo, 256), m - lo), m - lo)
  }

  lemma BlockBase(regions: seq<Region>, lo: nat, m: nat, kernelStart: uint32, kernelEnd: uint32)
    requires IsBlock(regions, lo, m) && 248 <= m && kernelEnd <= 0x10_0000
    ensures Bootable(regions, kernelEnd)
    ensures var base := PagingBase(regions, kernelStart, kernelEnd);
            && WellFormed(base) && base.total == m - lo && m <= |base.bits|
            && forall f :: 0 <= f < |base.bits| ==> (!base.bits[f] <==> FirstLeft(lo, m) <= f < m)
  {
    BlockReserved(regions, lo, m, kernelStart, kernelEnd);
    var p := ReservedFrames(regions, kernelStart, kernelEnd);
    assert m <= |p.bits|;
    hide ReservedFrames, Alloc, MaxFrame, Covered;
    AllocFromSuffix(p, Max(lo, 256), m);
    AllocFromSuffix(Alloc(p).1, After(Max(lo, 256), m - lo), m);
  }

  lemma SuffixCount(bits: seq<bool>, lo: nat, m: nat, hi: nat)
    requires hi <= m <= |bits| && 1 <= lo
    requires forall f :: 0 <= f < |bits| ==> (!bits[f] <==> lo <= f < m)
    ensures CountClear(bits, 1, hi) == if lo < hi then hi - lo else 0
  {
    if lo < hi {
      CountSplit(bits, 1, lo, hi);
      CountZero(bits, 1, lo);
      CountAllClear(bits, lo, hi);
    } else {
      CountZero(bits, 1, hi);
    }
  }

  /** How the boot ends on a block: the clear frames the allocator can hand out are those
      from the first one left up to `total_frames`. */
  lemma BlockOutcome(regions: seq<Region>, lo: nat, m: nat, kernelStart: uint32, kernelEnd: uint32, mem: Memory)
    requires IsBlock(regions, lo, m) && 248 <= m && kernelEnd <= 0x10_0000
    ensures Bootable(regions, kernelEnd)
    ensures var first, total := FirstLeft(lo, m), m - lo;
            BootSpace(regions, kernelStart, kernelEnd, mem).0 ==
            if total >= first + 2 && WINDOW_FRAMES <= first + 1 then Halted(TableUnreachable)
            else if total < first + STACK_PAGES + 1 then Halted(OutOfMemory)
            else Running
  {
    BlockBase(regions, lo, m, kernelStart, kernelEnd);
    BootOutcome(regions, kernelStart, kernelEnd, mem);
    var base := PagingBase(regions, kernelStart, kernelEnd);
    hide PagingBase, BootSpace, IsBlock, CountClear, WellFormed, FirstLeft;
    assert FirstLeft(lo, m) >= 1 by { FirstLeftPositive(lo, m); }
    SuffixCount(base.bits, FirstLeft(lo, m), m, m - lo);
    SuffixCount(base.bits, FirstLeft(lo, m), m, Min(WINDOW_FRAMES, m - lo));
  }

  lemma FirstLeftPositive(lo: nat, m: nat)
    requires lo <= m
    ensures FirstLeft(lo, m) >= 256
  {
  }

  /** On one block of memory from 0 the boot completes exactly when there are 274 frames:
      1 MByte of low memory, two trial frames, one page table and fifteen stack pages. */
  lemma BlockBoots(regions: seq<Region>, m: nat, kernelStart: uint32, kernelEnd: uint32, mem: Memory)
    requires IsBlock(regions, 0, m) && 248 <= m && kernelEnd <= 0x10_0000
    ensures Bootable(regions, kernelEnd)
    ensures BootSpace(regions, kernelStart, kernelEnd, mem).0 == if m >= 274 then Running else Halted(OutOfMemory)
  {
    BlockOutcome(regions, 0, m, kernelStart, kernelEnd, mem);
    hide BootSpace, IsBlock;
  }

  /** With all memory in one block above 4 MByte that is four pages larger than the gap below
      it, the boot halts on the stack's table, which lies outside the identity window. */
  lemma HighBlockHalts(regions: seq<Region>, lo: nat, m: nat, kernelStart: uint32, kernelEnd: uint32, mem: Memory)
    requires IsBlock(regions, lo, m) && lo >= WINDOW_FRAMES && m >= 2 * lo + 4 && kernelEnd <= 0x10_0000
    ensures Bootable(regions, kernelEnd)
    ensures BootSpace(regions, kernelStart, kernelEnd, mem).0 == Halted(TableUnreachable)
  {
    BlockOutcome(regions, lo, m, kernelStart, kernelEnd, mem);
    hide BootSpace, IsBlock;
  }

  /** For example 4 MByte and 16 KByte of memory from address 0x400000. */
  lemma HighMemoryHalts(kernelStart: uint32, kernelEnd: uint32, mem: Memory)
    requires kernelEnd <= 0x10_0000
    ensures var regions := [Region(0x40_0000, 0x40_4000, 1)];
            && Bootable(regions, kernelEnd) && DisjointBelow(regions, MaxFrame(regions, 0))
            && BootSpace(regions, kernelStart, kernelEnd, mem).0 == Halted(TableUnreachable)
  {
    OneRegionIsBlock(1024, 2052);
    hide BootSpace, MaxFrame, Covered, Bootable;
    HighBlockHalts([Region(0x40_0000, 0x40_4000, 1)], 1024, 2052, kernelStart, kernelEnd, mem);
  }

  /** With two frames more, any aligned heap word can be stored right after boot: the store
      faults, the handler maps the page, the store is repeated, and the value reads back. */
  lemma FirstHeapAccess(regions: seq<Region>, m: nat, kernelStart: uint32, kernelEnd: uint32, mem: Memory,
                        v: uint32, value: uint32, esp: uint32)
    returns (s: Space, s': Space)
    requires IsBlock(regions, 0, m) && 276 <= m && kernelEnd <= 0x10_0000
    requires InHeap(v) && v % 4 == 0
    ensures Bootable(regions, kernelEnd) && DisjointBelow(regions, MaxFrame(regions, 0))
    ensures BootSpace(regions, kernelStart, kernelEnd, mem) == (Running, s)
    ensures Walk(s.mem, v) == NotPresent
    ensures Reaches(s, [Fault(v, esp), StoreWord(v, value)], s')
    ensures Walk(s'.mem, v).Mapped? && Load(s'.mem, v) == value
  {
    BlockLeavesTwo(regions, m, kernelStart, kernelEnd, mem);
    BootIsGood(regions, kernelStart, kernelEnd, mem);
    s := BootSpace(regions, kernelStart, kernelEnd, mem).1;
    hide BootSpace, PagingBase, IsBlock, CountClear, Good, Reaches, Walk, Load;
    s' := AccessHeap(s, PagingBase(regions, kernelStart, kernelEnd), v, value, esp);
  }

  lemma BlockLeavesTwo(regions: seq<Region>, m: nat, kernelStart: uint32, kernelEnd: uint32, mem: Memory)
    requires IsBlock(regions, 0, m) && 276 <= m && kernelEnd <= 0x10_0000
    ensures Bootable(regions, kernelEnd)
    ensures var r := BootSpace(regions, kernelStart, kernelEnd, mem);
            && r.0 == Running && WellFormed(r.1.frames)
            && CountClear(r.1.frames.bits, 1, Min(WINDOW_FRAMES, r.1.frames.total)) >= 2
  {
    BlockBase(regions, 0, m, kernelStart, kernelEnd);
    BlockBoots(regions, m, kernelStart, kernelEnd, mem);
    BootTakesSixteen(regions, kernelStart, kernelEnd, mem);
    var base := PagingBase(regions, kernelStart, kernelEnd);
    hide PagingBase, BootSpace, IsBlock, CountClear;
    assert FirstLeft(0, m) == 258;
    SuffixCount(base.bits, 258, m, Min(WINDOW_FRAMES, m));
  }

  lemma HeapIsAbsent(s: Space, v: uint32)
    requires Tables(s.mem).Keys == {STACK_DIR_INDEX} && InHeap(v)
    ensures !Present(DirEntry(s.mem, DirIndex(v))) && Walk(s.mem, v) == NotPresent && !InGuardPage(v)
  {
    assert DirIndex(v) !in Tables(s.mem);
  }

  lemma AccessHeap(s: Space, base: Frames, v: uint32, value: uint32, esp: uint32) returns (s': Space)
    requires Good(s, base) && Tables(s.mem).Keys == {STACK_DIR_INDEX}
    requires InHeap(v) && v % 4 == 0
    requires WellFormed(s.frames) && CountClear(s.frames.bits, 1, Min(WINDOW_FRAMES, s.frames.total)) >= 2
    ensures Walk(s.mem, v) == NotPresent
    ensures Reaches(s, [Fault(v, esp), StoreWord(v, value)], s')
    ensures Walk(s'.mem, v).Mapped? && Load(s'.mem, v) == value
  {
    GoodParts(s, base, v);
    HeapIsAbsent(s, v);
    DemandMapOutcome(s, v);
    assert HandleFault(s, v, esp) == DemandMap(s, v);
    FaultProgress(s, base, v, esp);
    var s1 := HandleFault(s, v, esp).1;
    hide Good, DemandMap, Tables, CountClear, HandleFault, Walk, Load;
    GoodParts(s1, base, v);
    StoreHolds(s1, base, v, value, map[]);
    s' := s1.(mem := Store(s1.mem, v, value));
    hide Reaches;
    TwoSteps(s, Fault(v, esp), s1, StoreWord(v, value), s');
  }

  lemma TwoSteps(s: Space, e: Event, s1: Space, f: Event, s': Space)
    requires WellFormed(s.frames) && Possible(s, e) && StepEvent(s, e) == (Running, s1)
    requires WellFormed(s1.frames) && Possible(s1, f) && StepEvent(s1, f) == (Running, s')
    ensures Reaches(s, [e, f], s')
  {
    hide StepEvent, Possible;
    assert [e, f][1..] == [f] && [f][1..] == [];
    assert Reaches(s', [], s');
    assert Reaches(s1, [f], s');
  }
}
