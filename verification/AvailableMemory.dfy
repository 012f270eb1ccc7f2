/** From the BIOS memory map to the frames in use: what the kernel hands out and maps is
    memory that an entry of type 1 reports. */
module AvailableMemory {
  import opened Bits
  import opened FrameTable
  import opened FrameTheorems
  import opened UsableMemory
  import opened MemoryMap
  import opened PageWalk
  import opened DemandPaging
  import opened KernelRuns
  import opened Boot

  /** Every byte of frame `f` is in one entry of type 1. */
  predicate InAvailable(entries: seq<E820Entry>, f: nat) {
    exists i :: 0 <= i < |entries| && entries[i].kind == 1
                && entries[i].base <= 4096 * f && 4096 * (f + 1) <= entries[i].base + entries[i].length
  }

  /** The regions that `pmm_init` sees report no other memory; with at most 32 entries of
      type 1, they report all of it. */
  lemma UsableIffAvailable(entries: seq<E820Entry>, f: nat)
    ensures Usable(FirstRegions(Available(entries)), f) ==> InAvailable(entries, f)
    ensures |Positions(entries)| <= 32 ==> (Usable(FirstRegions(Available(entries)), f) <==> InAvailable(entries, f))
  {
    var ps, rs := Positions(entries), FirstRegions(Available(entries));
    FirstRegionsRecord(entries);
    AvailableKeepsOrder(entries);
    hide Positions, Available, FirstRegions;
    if k :| 0 <= k < |rs| && WhollyInside(rs[k], f) {
      assert entries[ps[k]].kind == 1;
    }
    if |ps| <= 32 && InAvailable(entries, f) {
      var i: nat :| i < |entries| && entries[i].kind == 1
        && entries[i].base <= 4096 * f && 4096 * (f + 1) <= entries[i].base + entries[i].length;
      assert i in ps;
      var k :| 0 <= k < |ps| && ps[k] == i;
      assert WhollyInside(rs[k], f);
    }
  }

  /** After the reservations, on a map whose regions fit: the clear frames are the memory of
      type 1 above 1 MByte, without the kernel image and the bitmap. */
  lemma ClearIffAvailable(entries: seq<E820Entry>, kernelStart: uint32, kernelEnd: uint32, f: nat)
    requires var regions := FirstRegions(Available(entries));
             && Bootable(regions, kernelEnd)
             && forall i :: 0 <= i < |regions| ==> Fits(regions[i], MaxFrame(regions, 0))
    requires |Positions(entries)| <= 32 && f < 0x10_0000
    ensures var p := ReservedFrames(FirstRegions(Available(entries)), kernelStart, kernelEnd);
            f < |p.bits| && !p.bits[f] <==>
            InAvailable(entries, f) && !ReservedAtBoot(f, kernelStart, kernelEnd, p.maxIdx)
  {
    var regions := FirstRegions(Available(entries));
    UsableIffAvailable(entries, f);
    ReservationsExact(regions, kernelStart, kernelEnd);
    FitsFrees(regions, 0);
    assert Usable(regions, f) ==> f < MaxFrame(regions, 0) by {
      if Usable(regions, f) {
        assert Freed(regions, 0, f);
      }
    }
    hide Positions, Available, FirstRegions, Usable, InAvailable, ReservedFrames, Fits, MaxFrame, Covered, ReservedAtBoot;
  }

  /** In every state reached from boot, the frames still clear are memory of type 1. */
  lemma BootedClearIsMemory(entries: seq<E820Entry>, kernelStart: uint32, kernelEnd: uint32, mem: Memory, events: seq<Event>, s': Space, f: nat)
    requires var regions := FirstRegions(Available(entries));
             && Bootable(regions, kernelEnd) && DisjointBelow(regions, MaxFrame(regions, 0))
             && (forall i :: 0 <= i < |regions| ==> Fits(regions[i], MaxFrame(regions, 0)))
             && BootSpace(regions, kernelStart, kernelEnd, mem).0 == Running
             && Reaches(BootSpace(regions, kernelStart, kernelEnd, mem).1, events, s')
    requires f < |s'.frames.bits| && !s'.frames.bits[f]
    ensures InAvailable(entries, f) && f >= 256
  {
    var regions := FirstRegions(Available(entries));
    var base := PagingBase(regions, kernelStart, kernelEnd);
    BootedRun(regions, kernelStart, kernelEnd, mem, events, s');
    BaseCoversReserved(regions, kernelStart, kernelEnd);
    UsableIffAvailable(entries, f);
    hide PagingBase, BootSpace, Reaches, Bootable, MaxFrame, Fits, Usable, Covered, InAvailable, Available, FirstRegions, DisjointBelow, ReservedFrames;
    StillClear(s', base, f);
  }

  lemma StillClear(s: Space, base: Frames, f: nat)
    requires Good(s, base) && f < |s.frames.bits| && !s.frames.bits[f]
    ensures f < |base.bits| && !base.bits[f]
  {
  }

  /** And the frame of every page mapped above 4 MByte is memory of type 1. */
  lemma BootedPageIsMemory(entries: seq<E820Entry>, kernelStart: uint32, kernelEnd: uint32, mem: Memory, events: seq<Event>, s': Space, v: uint32)
    requires var regions := FirstRegions(Available(entries));
             && Bootable(regions, kernelEnd) && DisjointBelow(regions, MaxFrame(regions, 0))
             && (forall i :: 0 <= i < |regions| ==> Fits(regions[i], MaxFrame(regions, 0)))
             && BootSpace(regions, kernelStart, kernelEnd, mem).0 == Running
             && Reaches(BootSpace(regions, kernelStart, kernelEnd, mem).1, events, s')
    requires v >= 0x40_0000 && Walk(s'.mem, v).Mapped?
    ensures InAvailable(entries, Walk(s'.mem, v).frame)
  {
    var regions := FirstRegions(Available(entries));
    hide PagingBase, BootSpace, Reaches, Bootable, MaxFrame, Fits, Usable, Covered, InAvailable, Available, FirstRegions, DisjointBelow, ReservedFrames, ReservedAtBoot, WalkPage;
    BootedPagesAreSafe(regions, kernelStart, kernelEnd, mem, events, s', PageOf(v), 0, 0);
    UsableIffAvailable(entries, Walk(s'.mem, v).frame);
  }
}
