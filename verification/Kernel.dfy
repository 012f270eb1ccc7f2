/** The running kernel: the frame allocator and the memory-management unit, with
    `paging_map_page`, the page-fault handler and the boot sequence as they act on them. */
module KernelModel {
  import opened Bits
  import opened FrameTable
  import opened FrameTheorems
  import opened FrameAllocation
  import opened MemoryMap
  import opened PageWalk
  import opened PageTheorems
  import opened DemandPaging
  import opened KernelRuns
  import opened Boot
  import opened MmuModel

  // ----- what `paging_map_page` relies on -----

  ghost predicate NoTableAt(m: Memory, f: nat) {
    f != DIR_FRAME && forall i :: 0 <= i < ENTRIES && Present(DirEntry(m, i)) ==> FrameOf(DirEntry(m, i)) != f
  }

  ghost predicate SameWalks(m: Memory, m': Memory) {
    forall p :: 0 <= p < PAGES ==> WalkPage(m, p) == WalkPage(m', p)
  }

  /** The directory and every table are reached through the identity window, and a next
      frame outside the window is not mapped at its own address. */
  ghost predicate MapReady(s: Space) {
    && TablesSound(s) && IdentityWindow(s.mem)
    && (forall i :: 0 <= i < ENTRIES && Present(DirEntry(s.mem, i)) ==> FrameOf(DirEntry(s.mem, i)) < WINDOW_FRAMES)
    && (Alloc(s.frames).0.Some? && Alloc(s.frames).0.value >= WINDOW_FRAMES ==>
          Alloc(s.frames).0.value < PAGES && WalkPage(s.mem, Alloc(s.frames).0.value) == NotPresent)
  }

  lemma InvMapReady(s: Space, base: Frames, pages: map<nat, nat>)
    requires InvFor(s, base, pages) && FewReserved(base)
    requires forall p :: p in pages ==> HeapPage(p) || StackPage(p)
    requires Pages(s.mem).Keys <= pages.Keys
    ensures MapReady(s)
  {
    InvTablesSound(s, base, pages);
    forall i | 0 <= i < ENTRIES && Present(DirEntry(s.mem, i))
      ensures FrameOf(DirEntry(s.mem, i)) < WINDOW_FRAMES
    {
      TableIsUsed(s, base, pages, i);
    }
    if Alloc(s.frames).0.Some? && Alloc(s.frames).0.value >= WINDOW_FRAMES {
      TableFaultHalts(s, base, pages, 0);
    }
  }

  /** The address of entry `i` in a frame of the identity window reaches that entry. */
  lemma WindowEntry(m: Memory, f: nat, i: nat, x: uint32)
    requires IdentityWindow(m) && f < WINDOW_FRAMES && i < ENTRIES
    ensures var a := f * PAGE_SIZE + 4 * i;
            a < 0x40_0000 && a % 4 == 0 && Walk(m, a).Mapped?
            && Load(m, a) == Entry(m, f, i) && Store(m, a, x) == SetEntry(m, f, i, x)
  {
    var a := f * PAGE_SIZE + 4 * i;
    WindowTranslatesToItself(m, a);
    EntryAddress(f, i);
  }

  lemma CoherentTransfer(tlb: map<nat, Translation>, m: Memory, m': Memory)
    requires Coherent(tlb, m) && SameWalks(m, m')
    ensures Coherent(tlb, m')
  {
  }

  /** Clearing entries of a frame that is no page table changes no translation. */
  lemma ZeroingChangesNoWalk(s: Space, f: nat, n: nat)
    requires TablesSound(s) && NoTableAt(s.mem, f) && f < PAGES && n <= ENTRIES
    ensures SameWalks(s.mem, ZeroEntries(s.mem, f, n))
    ensures IdentityWindow(s.mem) ==> IdentityWindow(ZeroEntries(s.mem, f, n))
  {
    FirstDirEntryIfWindow(s.mem);
    var m' := ZeroEntries(s.mem, f, n);
    assert forall i :: 0 <= i < ENTRIES ==> DirEntry(m', i) == DirEntry(s.mem, i);
  }

  lemma FirstDirEntryIfWindow(m: Memory)
    ensures IdentityWindow(m) ==> Present(DirEntry(m, 0)) && FrameOf(DirEntry(m, 0)) == FIRST_TABLE_FRAME
  {
    if IdentityWindow(m) {
      FirstDirEntry(DirEntry(m, 0));
    }
  }

  /** Linking an empty table at an absent directory entry changes no translation. */
  lemma LinkingChangesNoWalk(m: Memory, d: nat, t: nat)
    requires IdentityWindow(m) && d < ENTRIES && t < PAGES && t != DIR_FRAME
    requires !Present(DirEntry(m, d)) && forall j :: 0 <= j < ENTRIES ==> Entry(m, t, j) == 0
    requires NoTableAt(m, t) && forall i :: 0 <= i < ENTRIES && Present(DirEntry(m, i)) ==> FrameOf(DirEntry(m, i)) != DIR_FRAME
    ensures SameWalks(m, SetEntry(m, DIR_FRAME, d, t * PAGE_SIZE + 3))
    ensures IdentityWindow(SetEntry(m, DIR_FRAME, d, t * PAGE_SIZE + 3))
  {
    FirstDirEntry(DirEntry(m, 0));
    var m' := SetEntry(m, DIR_FRAME, d, t * PAGE_SIZE + 3);
    forall p | 0 <= p < PAGES
      ensures WalkPage(m', p) == WalkPage(m, p)
    {
      if p / ENTRIES == d {
        WalkLinked(m', p, t);
      } else if Present(DirEntry(m, p / ENTRIES)) {
        EntryBeside(m, d, t * PAGE_SIZE + 3, FrameOf(DirEntry(m, p / ENTRIES)), p % ENTRIES);
      }
    }
  }

  lemma EntryBeside(m: Memory, d: nat, x: uint32, f: nat, j: nat)
    requires d < ENTRIES && f < PAGES && j < ENTRIES
    requires f != DIR_FRAME || j != d
    ensures Entry(SetEntry(m, DIR_FRAME, d, x), f, j) == Entry(m, f, j)
  {
  }

  /** The next clear frame holds no table. */
  lemma NextFrameIsNoTable(s: Space)
    requires TablesSound(s) && Alloc(s.frames).0.Some?
    ensures NoTableAt(s.mem, Alloc(s.frames).0.value)
    ensures TablesSound(s.(frames := Alloc(s.frames).1))
  {
  }

  /** Memory once a new table `t` is clear and linked at directory index `d`. */
  function WithNewTable(m: Memory, d: nat, t: nat): Memory
    requires d < ENTRIES && t < WINDOW_FRAMES
  {
    SetEntry(ZeroEntries(m, t, ENTRIES), DIR_FRAME, d, LinkEntry(t * PAGE_SIZE))
  }

  lemma NewTableChangesNoWalk(s: Space, d: nat)
    requires TablesSound(s) && IdentityWindow(s.mem) && d < ENTRIES && !Present(DirEntry(s.mem, d))
    requires Alloc(s.frames).0.Some? && Alloc(s.frames).0.value < WINDOW_FRAMES
    ensures var t := Alloc(s.frames).0.value;
            var zeroed := ZeroEntries(s.mem, t, ENTRIES);
            && IdentityWindow(zeroed) && SameWalks(zeroed, WithNewTable(s.mem, d, t))
            && SameWalks(s.mem, WithNewTable(s.mem, d, t)) && IdentityWindow(WithNewTable(s.mem, d, t))
  {
    var t := Alloc(s.frames).0.value;
    NextFrameIsNoTable(s);
    ZeroingChangesNoWalk(s, t, ENTRIES);
    var zeroed := ZeroEntries(s.mem, t, ENTRIES);
    assert forall i :: 0 <= i < ENTRIES ==> DirEntry(zeroed, i) == DirEntry(s.mem, i);
    LinkingChangesNoWalk(zeroed, d, t);
  }

  /** `MapPage` is the last store, into the linked table or into the new one. */
  lemma MapIsLastStore(s: Space, v: uint32, physical: uint32, flags: uint32)
    requires MapReady(s)
    ensures var d := DirEntry(s.mem, DirIndex(v));
            Present(d) ==>
              MapPage(s, v, physical, flags) ==
              (Running, s.(mem := SetEntry(s.mem, FrameOf(d), TableIndex(v), MakeEntry(physical, flags))))
    ensures !Present(DirEntry(s.mem, DirIndex(v))) ==>
              var (t, frames) := Alloc(s.frames);
              if t.None? then MapPage(s, v, physical, flags) == (Halted(OutOfMemory), s)
              else if t.value >= WINDOW_FRAMES then
                MapPage(s, v, physical, flags) == (Halted(TableUnreachable), s.(frames := frames))
              else
                MapPage(s, v, physical, flags) ==
                (Running, Space(SetEntry(WithNewTable(s.mem, DirIndex(v), t.value), t.value, TableIndex(v), MakeEntry(physical, flags)), frames))
  {
  }

  /** What the TLB may hold once the entry of `v` is rewritten and `v` is invalidated:
      translations from before the store or from after it, but none for `v`. */
  ghost predicate NearlyCoherent(tlb: map<nat, Translation>, before: Memory, after: Memory, v: uint32) {
    forall p :: p in tlb ==>
      p != PageOf(v) && p < PAGES && tlb[p].Mapped? && (tlb[p] == WalkPage(before, p) || tlb[p] == WalkPage(after, p))
  }

  /** That is enough: the TLB is coherent again. */
  lemma CoherentAfterMap(s: Space, v: uint32, physical: uint32, flags: uint32, m: Memory, tlb: map<nat, Translation>)
    requires TablesSound(s) && MapPage(s, v, physical, flags).0 == Running
    requires SameWalks(s.mem, m)
    requires NearlyCoherent(tlb, m, MapPage(s, v, physical, flags).1.mem, v)
    ensures Coherent(tlb, MapPage(s, v, physical, flags).1.mem)
  {
    forall p | p in tlb
      ensures p < PAGES && tlb[p].Mapped? && tlb[p] == WalkPage(MapPage(s, v, physical, flags).1.mem, p)
    {
      MapPageAt(s, v, physical, flags, p);
    }
  }

  class Kernel {
    const pmm: FrameAllocator
    const mmu: Mmu
    /** The allocator when paging was switched on. */
    ghost var base: Frames

    ghost predicate Shape()
      reads this, pmm, mmu
    {
      && pmm.Valid() && mmu.Valid()
      && (pmm.bitmap as object) != (mmu.phys as object)
    }

    ghost function State(): Space
      requires Shape()
      reads this, pmm, mmu, pmm.bitmap, mmu.phys
    {
      Space(mmu.Mem(), pmm.Value())
    }

    /** Paging is on and every cached translation is current. */
    ghost predicate Live()
      reads this, pmm, mmu, mmu.phys
    {
      Shape() && mmu.paging && Coherent(mmu.tlb, mmu.Mem())
    }

    constructor (pmm: FrameAllocator, mmu: Mmu)
      requires pmm.Valid() && mmu.Valid() && (pmm.bitmap as object) != (mmu.phys as object)
      ensures this.pmm == pmm && this.mmu == mmu && Shape()
    {
      this.pmm, this.mmu := pmm, mmu;
      base := Frames([], 0, 0, 0);
    }

    /** One round of the zeroing loop of `paging_map_page`. */
    method ZeroEntry(ghost s: Space, table: uint32, entry: nat) returns (ok: bool)
      requires Live() && TablesSound(s) && IdentityWindow(s.mem) && NoTableAt(s.mem, table / PAGE_SIZE)
      requires table % PAGE_SIZE == 0 && entry < ENTRIES
      requires mmu.Mem() == ZeroEntries(s.mem, table / PAGE_SIZE, entry)
      requires table / PAGE_SIZE >= WINDOW_FRAMES ==> WalkPage(s.mem, table / PAGE_SIZE) == NotPresent
      modifies mmu`tlb, mmu.phys
      ensures Shape() && mmu.paging && pmm.Value() == old(pmm.Value())
      ensures ok <==> table / PAGE_SIZE < WINDOW_FRAMES
      ensures ok ==> Live() && mmu.Mem() == ZeroEntries(s.mem, table / PAGE_SIZE, entry + 1)
      ensures !ok ==> mmu.Mem() == old(mmu.Mem())
    {
      hide Mmu.Mem, FrameAllocator.Value, SetEntry, ZeroEntries;
      ghost var f, m := table / PAGE_SIZE, mmu.Mem();
      EntryAddress(f, entry);
      ZeroOneMore(s.mem, f, entry);
      ZeroingChangesNoWalk(s, f, entry);
      ZeroingChangesNoWalk(s, f, entry + 1);
      if f < WINDOW_FRAMES {
        WindowEntry(m, f, entry, 0);
      }
      hide WalkPage, IdentityWindow, TablesSound, NoTableAt;
      assert WalkPage(m, f) == WalkPage(s.mem, f);
      assert table + 4 * entry == f * PAGE_SIZE + 4 * entry;
      ok := mmu.StoreWord(table + 4 * entry, 0);
      if ok {
        CoherentTransfer(mmu.tlb, m, mmu.Mem());
      }
    }

    lemma ZeroOneMore(m: Memory, f: nat, n: nat)
      requires f < PAGES && n < ENTRIES
      ensures ZeroEntries(m, f, n + 1) == SetEntry(ZeroEntries(m, f, n), f, n, 0)
      ensures ZeroEntries(m, f, 0) == m
    {
      FillOneMore(m, f, n, _ => 0);
    }

    /** The zeroing loop: it ends with the first store when the table is out of reach. */
    method ZeroTable(table: uint32) returns (ok: bool)
      requires Live() && TablesSound(State()) && IdentityWindow(mmu.Mem()) && NoTableAt(mmu.Mem(), table / PAGE_SIZE)
      requires table % PAGE_SIZE == 0
      requires table / PAGE_SIZE >= WINDOW_FRAMES ==> WalkPage(mmu.Mem(), table / PAGE_SIZE) == NotPresent
      modifies mmu`tlb, mmu.phys
      ensures Shape() && mmu.paging && pmm.Value() == old(pmm.Value())
      ensures ok <==> table / PAGE_SIZE < WINDOW_FRAMES
      ensures ok ==> Live() && mmu.Mem() == ZeroEntries(old(mmu.Mem()), table / PAGE_SIZE, ENTRIES)
      ensures !ok ==> mmu.Mem() == old(mmu.Mem())
    {
      ghost var s, f := State(), table / PAGE_SIZE;
      hide WalkPage, IdentityWindow, TablesSound, NoTableAt, Coherent, ZeroEntries;
      ZeroOneMore(s.mem, f, 0);
      for entry := 0 to ENTRIES
        invariant Live() && pmm.Value() == s.frames
        invariant mmu.Mem() == ZeroEntries(s.mem, f, entry)
        invariant entry > 0 ==> f < WINDOW_FRAMES
      {
        ok := ZeroEntry(s, table, entry);
        if !ok {
          return;
        }
      }
      ok := true;
    }

    /** The branch of `paging_map_page` that allocates, clears and links a new table. */
    method NewTable(dirIndex: nat) returns (status: Status, table: uint32)
      requires Live() && MapReady(State())
      requires dirIndex < ENTRIES && !Present(DirEntry(mmu.Mem(), dirIndex))
      modifies pmm`usedFrames, pmm.bitmap, mmu`tlb, mmu.phys
      ensures Shape() && mmu.paging
      ensures var (f, frames) := Alloc(old(State()).frames);
              var m := old(mmu.Mem());
              if f.None? then status == Halted(OutOfMemory) && State() == old(State())
              else if f.value >= WINDOW_FRAMES then status == Halted(TableUnreachable) && State() == Space(m, frames)
              else
                && status == Running && table == f.value * PAGE_SIZE && Live()
                && State() == Space(WithNewTable(m, dirIndex, f.value), frames)
    {
      ghost var s := State();
      table := pmm.AllocFrame();
      if table == 0 {
        return Halted(OutOfMemory), table;
      }
      ghost var f := Alloc(s.frames).0.value;
      assert table / PAGE_SIZE == f && table % PAGE_SIZE == 0;
      NextFrameIsNoTable(s);
      hide WalkPage, IdentityWindow, TablesSound, NoTableAt;
      var ok := ZeroTable(table);
      if !ok {
        return Halted(TableUnreachable), table;
      }
      NewTableChangesNoWalk(s, dirIndex);
      LinkTable(dirIndex, table);
      status := Running;
    }

    /** `page_directory[dirIndex] = table | PAGE_PRESENT | PAGE_WRITE` for a table whose
        linking changes no translation. */
    method LinkTable(dirIndex: nat, table: uint32)
      requires Live() && IdentityWindow(mmu.Mem()) && dirIndex < ENTRIES && table % PAGE_SIZE == 0
      requires SameWalks(mmu.Mem(), SetEntry(mmu.Mem(), DIR_FRAME, dirIndex, LinkEntry(table)))
      modifies mmu`tlb, mmu.phys
      ensures Live() && pmm.Value() == old(pmm.Value())
      ensures mmu.Mem() == SetEntry(old(mmu.Mem()), DIR_FRAME, dirIndex, LinkEntry(table))
    {
      ghost var m := mmu.Mem();
      WindowEntry(m, DIR_FRAME, dirIndex, LinkEntry(table));
      hide WalkPage, IdentityWindow;
      var ok := mmu.StoreWord(PAGE_DIR_ADDR + 4 * dirIndex, LinkEntry(table));
      CoherentTransfer(mmu.tlb, m, mmu.Mem());
    }

    /** `page_directory[dirIndex]`, read through the identity window. */
    method ReadDirectory(dirIndex: nat) returns (d: uint32)
      requires Live() && IdentityWindow(mmu.Mem()) && dirIndex < ENTRIES
      modifies mmu`tlb
      ensures Live() && State() == old(State()) && d == DirEntry(mmu.Mem(), dirIndex)
    {
      WindowEntry(mmu.Mem(), DIR_FRAME, dirIndex, 0);
      var ok, x := mmu.LoadWord(PAGE_DIR_ADDR + 4 * dirIndex);
      d := x;
    }

    /** The last store of `paging_map_page` and the invalidation of the page. */
    method WriteMapping(ghost f: nat, table: uint32, virtual: uint32, entry: uint32)
      requires Live() && IdentityWindow(mmu.Mem())
      requires f < WINDOW_FRAMES && table == f * PAGE_SIZE
      modifies mmu`tlb, mmu.phys
      ensures Shape() && mmu.paging && pmm.Value() == old(pmm.Value())
      ensures mmu.Mem() == SetEntry(old(mmu.Mem()), f, TableIndex(virtual), entry)
      ensures NearlyCoherent(mmu.tlb, old(mmu.Mem()), mmu.Mem(), virtual)
    {
      var tableIndex := TableIndex(virtual);
      ghost var m := mmu.Mem();
      WindowEntry(m, f, tableIndex, entry);
      hide WalkPage, IdentityWindow;
      var ok := mmu.StoreWord(table + 4 * tableIndex, entry);
      mmu.Invlpg(virtual);
    }

    /** `paging_map_page` */
    method MapPageIn(virtual: uint32, physical: uint32, flags: uint32) returns (status: Status)
      requires Live() && MapReady(State())
      modifies pmm`usedFrames, pmm.bitmap, mmu`tlb, mmu.phys
      ensures Shape() && mmu.paging
      ensures status == MapPage(old(State()), virtual, physical, flags).0
      ensures State() == MapPage(old(State()), virtual, physical, flags).1
      ensures status == Running ==> Live()
    {
      ghost var s := State();
      var dirIndex := DirIndex(virtual);
      var d := ReadDirectory(dirIndex);
      MapIsLastStore(s, virtual, physical, flags);
      assert IdentityWindow(s.mem) && TablesSound(s);
      assert Present(d) ==> FrameOf(d) < WINDOW_FRAMES;
      hide WalkPage, IdentityWindow, TablesSound, NoTableAt, MapPage, WithNewTable, Coherent, NearlyCoherent;
      var table: uint32;
      ghost var f: nat;
      if Present(d) {
        table := Base(d);
        f := FrameOf(d);
      } else {
        status, table := NewTable(dirIndex);
        if status != Running {
          return;
        }
        f := Alloc(s.frames).0.value;
        NewTableChangesNoWalk(s, dirIndex);
      }
      ghost var m := mmu.Mem();
      assert IdentityWindow(m) && SameWalks(s.mem, m);
      WriteMapping(f, table, virtual, MakeEntry(physical, flags));
      CoherentAfterMap(s, virtual, physical, flags, m, mmu.tlb);
      status := Running;
    }

    /** `pmm_alloc_frame` and then `paging_map_page`, as the fault handler and the stack
        set-up do. */
    method MapFreshFrame(virtual: uint32) returns (status: Status, frame: uint32)
      requires Live() && Inv(State(), base) && FewReserved(base)
      requires forall p :: p in Pages(mmu.Mem()) ==> HeapPage(p) || StackPage(p)
      requires InHeap(virtual) || InStack(virtual)
      requires Walk(mmu.Mem(), virtual) == NotPresent
      modifies pmm`usedFrames, pmm.bitmap, mmu`tlb, mmu.phys
      ensures Shape() && mmu.paging
      ensures status == DemandMap(old(State()), virtual).0 && State() == DemandMap(old(State()), virtual).1
      ensures status == Running ==> Live() && Inv(State(), base)
      ensures status == Running ==> frame == Alloc(old(State()).frames).0.value * PAGE_SIZE
    {
      hide Inv, MapReady, Coherent, MapPage, Pages, WalkPage, HeapPage, StackPage, InHeap, InStack, FewReserved;
      ghost var s := State();
      FreshFrameReady(s, base, virtual);
      if DemandMap(s, virtual).0 == Running {
        DemandMapKeepsInv(s, base, virtual);
      }
      frame := pmm.AllocFrame();
      if frame == 0 {
        return Halted(OutOfMemory), frame;
      }
      status := MapPageIn(virtual, frame, Or(PAGE_PRESENT, PAGE_WRITE));
    }

    lemma FreshFrameReady(s: Space, base: Frames, v: uint32)
      requires Inv(s, base) && FewReserved(base)
      requires forall p :: p in Pages(s.mem) ==> HeapPage(p) || StackPage(p)
      requires InHeap(v) || InStack(v)
      requires Walk(s.mem, v) == NotPresent
      ensures WellFormed(s.frames) && v >= 0x40_0000
      ensures Alloc(s.frames).0.Some? ==> MapReady(s.(frames := Alloc(s.frames).1))
      ensures Or(PAGE_PRESENT, PAGE_WRITE) == PAGE_PRESENT + PAGE_WRITE
    {
      PageKinds(v);
      if Alloc(s.frames).0.Some? {
        var pages := Pages(s.mem)[PageOf(v) := Alloc(s.frames).0.value];
        OwnPage(s.frames, base, Tables(s.mem), Pages(s.mem), PageOf(v));
        InvMapReady(s.(frames := Alloc(s.frames).1), base, pages);
      }
      SmallFlags();
    }

    /** `page_fault_handler` for a fault on an absent page. */
    method PageFault(address: uint32, esp: uint32) returns (status: Status)
      requires Live() && Good(State(), base) && FewReserved(base)
      requires Walk(mmu.Mem(), address) == NotPresent
      modifies pmm`usedFrames, pmm.bitmap, mmu`tlb, mmu.phys
      ensures Shape() && mmu.paging
      ensures status == HandleFault(old(State()), address, esp).0
      ensures State() == HandleFault(old(State()), address, esp).1
      ensures status == Running ==> Live() && Good(State(), base)
    {
      ghost var s := State();
      if HandleFault(s, address, esp).0 == Running {
        FaultProgress(s, base, address, esp);
      }
      GoodParts(s, base, address);
      hide Good, Inv, IdentityWindow, DemandMap, Coherent, Pages, WalkPage;
      if address >= KERNEL_STACK_BOTTOM && address < KERNEL_STACK_BOTTOM + PAGE_SIZE {
        WindowEntry(s.mem, 0, 0, 123);
        var ok := mmu.StoreWord(0, 123);
        return Halted(StackOverflow);
      }
      if address >= KERNEL_HEAP_START && address < KERNEL_HEAP_END {
        var frame;
        status, frame := MapFreshFrame(address);
        return;
      }
      if address >= KERNEL_STACK_BOTTOM + PAGE_SIZE && address < KERNEL_STACK_TOP {
        if address >= Wrap32(esp - STACK_GROWTH_GAP) && address < esp {
          var frame;
          status, frame := MapFreshFrame(address);
          return;
        }
      }
      return Halted(Unhandled);
    }

    /** The physical memory manager part of `kernel_main`. */
    method BootFrames(regions: seq<Region>, kernelStart: uint32, kernelEnd: uint32)
      requires Shape() && pmm.maxFrameIdx == 0
      requires |regions| <= MAX_MEMORY_REGIONS && forall r :: r in regions ==> StepsEnd(r)
      requires Bootable(regions, kernelEnd) && DisjointBelow(regions, MaxFrame(regions, 0))
      modifies pmm, pmm.bitmap
      ensures Shape() && mmu.Mem() == old(mmu.Mem())
      ensures pmm.Value() == PagingBase(regions, kernelStart, kernelEnd)
    {
      hide FrameAllocator.Value, Mmu.Mem, SetRange, Conserved, PagingBase, InitFrames, Reserve, ReserveRegion;
      BitmapRange(MaxFrame(regions, 0));
      pmm.Init(regions);
      ReserveKinds(pmm.Value(), kernelStart, kernelEnd);
      pmm.ReserveMemoryRegion(RESERVED_TYPE_INIT, kernelStart, kernelEnd);
      ReserveKinds(pmm.Value(), kernelStart, kernelEnd);
      pmm.ReserveMemoryRegion(RESERVED_TYPE_KERNEL, kernelStart, kernelEnd);
      ReserveKinds(pmm.Value(), kernelStart, kernelEnd);
      pmm.ReserveMemoryRegion(RESERVED_TYPE_BITMAP, kernelStart, kernelEnd);
      assert pmm.Value() == ReservedFrames(regions, kernelStart, kernelEnd);
      ReservedWellFormed(regions, kernelStart, kernelEnd);
      hide ReservedFrames;
      var frame1 := pmm.AllocFrame();
      var frame2 := pmm.AllocFrame();
    }

    lemma ReservedWellFormed(regions: seq<Region>, kernelStart: uint32, kernelEnd: uint32)
      requires Bootable(regions, kernelEnd) && DisjointBelow(regions, MaxFrame(regions, 0))
      ensures var p := ReservedFrames(regions, kernelStart, kernelEnd);
              && WellFormed(p) && WellFormed(Alloc(p).1)
              && PagingBase(regions, kernelStart, kernelEnd) == Alloc(Alloc(p).1).1
    {
      ReservationsConserve(regions, kernelStart, kernelEnd);
    }

    /** One round of the stack loop of `kernel_main`. */
    method MapOneStackPage(ghost s: Space, ghost k: nat, virtual: uint32) returns (status: Status)
      requires Shape() && Live() && State() == s && StackReady(s, base, k) && virtual == StackAddress(k)
      modifies pmm`usedFrames, pmm.bitmap, mmu`tlb, mmu.phys
      ensures Shape() && mmu.paging
      ensures status == MapStackPage(s, k).0
      ensures State() == MapStackPage(s, k).1
      ensures status == Running ==> Live() && StackMapped(State(), base, k)
    {
      StackPageAbsent(s, base, k);
      StackPageResult(s, base, k);
      hide Inv, StackMapped, StackReady, Coherent, DemandMap, MapStackPage, MarkedUsed, Alloc, Pages, WalkPage;
      hide HeapPage, StackPage, InHeap, InStack, FewReserved, Reserve, WellFormed, Mmu.Mem, FrameAllocator.Value;
      hide Live, State;
      var frame;
      status, frame := MapFreshFrame(virtual);
      if status != Running {
        return;
      }
      MarkAgain(Alloc(s.frames).0.value, frame);
    }

    /** `pmm_set_frame_bitmap(frame, frame + PAGE_SIZE)` on a frame that is in use. */
    method MarkAgain(ghost f: nat, frame: uint32)
      requires Shape() && frame == f * PAGE_SIZE && MarkedUsed(State().frames, f)
      modifies pmm`usedFrames, pmm.bitmap
      ensures Shape() && State() == old(State()) && (old(Live()) ==> Live())
    {
      ReserveUsedFrame(pmm.Value(), f);
      pmm.SetFrameBitmap(frame, frame + PAGE_SIZE);
    }

    ghost predicate StackReady(s: Space, base: Frames, k: nat) {
      && 1 <= k <= STACK_PAGES && StackMapped(s, base, k - 1) && FewReserved(base)
      && WellFormed(s.frames) && s.frames.total <= s.frames.maxIdx
    }

    lemma StackPageAbsent(s: Space, base: Frames, k: nat)
      requires StackReady(s, base, k)
      ensures Inv(s, base) && FewReserved(base) && InStack(StackAddress(k)) && Walk(s.mem, StackAddress(k)) == NotPresent
      ensures forall p :: p in Pages(s.mem) ==> HeapPage(p) || StackPage(p)
    {
      StackAddressPage(k);
      InvWellFormed(s, base);
      hide Inv;
      PageKinds(StackAddress(k));
      assert PageOf(StackAddress(k)) !in Pages(s.mem);
    }

    /** A round is demand mapping; the frame just used is marked used. */
    lemma StackPageResult(s: Space, base: Frames, k: nat)
      requires StackReady(s, base, k)
      ensures MapStackPage(s, k) == DemandMap(s, StackAddress(k))
      ensures DemandMap(s, StackAddress(k)).0 == Running ==>
                && Alloc(s.frames).0.Some? && MarkedUsed(DemandMap(s, StackAddress(k)).1.frames, Alloc(s.frames).0.value)
                && StackMapped(DemandMap(s, StackAddress(k)).1, base, k)
    {
      if DemandMap(s, StackAddress(k)).0 == Running {
        hide StackMapped, DemandMap, WellFormed, FewReserved, Alloc;
        MarkingIsRedundant(s, base, k);
        StackPageStep(s, base, k);
      }
    }

    /** The stack loop of `kernel_main`: fifteen pages above the guard page. */
    method MapKernelStack(ghost s: Space, ghost n: nat) returns (status: Status)
      requires Shape() && mmu.paging && Live() && State() == s && StackReady(s, base, 1) && n == STACK_PAGES
      modifies pmm`usedFrames, pmm.bitmap, mmu`tlb, mmu.phys
      ensures Shape() && mmu.paging
      ensures (status, State()) == MapStack(s, n)
      ensures status == Running ==> Live() && StackMapped(State(), base, n)
    {
      hide MapStack, MapStackPage, StackMapped, StackReady, WellFormed, FewReserved, Live, State, Mmu.Mem, FrameAllocator.Value;
      ghost var k := 1;
      var off: uint32 := PAGE_SIZE;
      MapStackZero(s, base);
      while off < KERNEL_STACK_TOP - KERNEL_STACK_BOTTOM
        invariant 1 <= k <= n + 1 && off == k * PAGE_SIZE
        invariant Shape() && Live() && mmu.paging
        invariant MapStack(s, k - 1) == (Running, State())
        invariant StackMapped(State(), base, k - 1) && FewReserved(base)
      {
        MapStackNext(s, base, k);
        status := MapOneStackPage(State(), k, KERNEL_STACK_BOTTOM + off);
        if status != Running {
          MapStackStops(s, k, n, status, State());
          return;
        }
        off := off + PAGE_SIZE;
        k := k + 1;
      }
      status := Running;
    }

    lemma MapStackZero(s: Space, base: Frames)
      requires StackReady(s, base, 1)
      ensures WellFormed(s.frames) && s.frames.total <= s.frames.maxIdx && MapStack(s, 0) == (Running, s)
      ensures StackMapped(s, base, 0) && FewReserved(base)
    {
    }

    lemma MapStackNext(s: Space, base: Frames, k: nat)
      requires WellFormed(s.frames) && s.frames.total <= s.frames.maxIdx && 1 <= k <= STACK_PAGES
      requires FewReserved(base)
      requires MapStack(s, k - 1).0 == Running && StackMapped(MapStack(s, k - 1).1, base, k - 1)
      ensures StackReady(MapStack(s, k - 1).1, base, k)
      ensures MapStack(s, k) == MapStackPage(MapStack(s, k - 1).1, k)
    {
    }

    /** A halted stack loop does nothing more. */
    lemma {:induction false} MapStackStops(s: Space, k: nat, n: nat, status: Status, stopped: Space)
      requires WellFormed(s.frames) && s.frames.total <= s.frames.maxIdx && k <= n <= STACK_PAGES
      requires status != Running && MapStack(s, k) == (status, stopped)
      ensures MapStack(s, n) == (status, stopped)
    {
      if k < n {
        MapStackStops(s, k, n - 1, status, stopped);
      }
    }

    /** `kernel_main` from the memory map to the switch to the high stack. */
    method Start(memoryMap: RegionTable, entries: seq<E820Entry>, kernelStart: uint32, kernelEnd: uint32)
      returns (status: Status)
      requires Shape() && !mmu.paging && pmm.maxFrameIdx == 0
      requires memoryMap.Valid() && memoryMap.Regions() == [] && |entries| < 0x1_0000
      requires var regions := FirstRegions(Available(entries));
               && (forall r :: r in regions ==> StepsEnd(r))
               && Bootable(regions, kernelEnd) && DisjointBelow(regions, MaxFrame(regions, 0))
               && kernelEnd <= 0x7000_0000
      modifies this`base, memoryMap, memoryMap.table, pmm, pmm.bitmap, mmu, mmu.phys
      ensures Shape() && mmu.paging
      ensures var regions := FirstRegions(Available(entries));
              && base == PagingBase(regions, kernelStart, kernelEnd) && FewReserved(base)
              && status == BootSpace(regions, kernelStart, kernelEnd, old(mmu.Mem())).0
              && State() == BootSpace(regions, kernelStart, kernelEnd, old(mmu.Mem())).1
      ensures status == Running ==> Live() && Good(State(), base)
    {
      ghost var m := mmu.Mem();
      ghost var kept := FirstRegions(Available(entries));
      memoryMap.Parse(entries);
      assert [] + Available(entries) == Available(entries);
      var regions := memoryMap.table[..memoryMap.count];
      assert regions == kept;
      hide FirstRegions, BootSpace, PagingBase, Bootable, Good, FrameAllocator.Value, Mmu.Mem, Coherent;
      BootFrames(regions, kernelStart, kernelEnd);
      status := StartPaging(regions, kernelStart, kernelEnd);
    }

    /** From `paging_init` to the end of the stack loop. */
    method StartPaging(ghost regions: seq<Region>, kernelStart: uint32, kernelEnd: uint32) returns (status: Status)
      requires Shape() && !mmu.paging
      requires Bootable(regions, kernelEnd) && DisjointBelow(regions, MaxFrame(regions, 0)) && kernelEnd <= 0x7000_0000
      requires pmm.Value() == PagingBase(regions, kernelStart, kernelEnd)
      modifies this`base, pmm, pmm.bitmap, mmu, mmu.phys
      ensures Shape() && mmu.paging
      ensures base == PagingBase(regions, kernelStart, kernelEnd) && FewReserved(base)
      ensures status == BootSpace(regions, kernelStart, kernelEnd, old(mmu.Mem())).0
      ensures State() == BootSpace(regions, kernelStart, kernelEnd, old(mmu.Mem())).1
      ensures status == Running ==> Live() && Good(State(), base)
    {
      hide PagingBase, FrameAllocator.Value, Mmu.Mem, Coherent, InitPaging, ReserveRegion, Good, MapStack;
      ghost var m := mmu.Mem();
      mmu.PagingInit();
      base := pmm.Value();
      BaseConserved(regions, kernelStart, kernelEnd);
      BaseUsesFew(regions, kernelStart, kernelEnd);
      BitmapRange(base.maxIdx);
      ReserveKinds(base, kernelStart, kernelEnd);
      pmm.ReserveMemoryRegion(RESERVED_TYPE_PAGE_TABLE, kernelStart, kernelEnd);
      PagingStartInv(m, base);
      status := MapKernelStack(State(), STACK_PAGES);
      if status == Running {
        BootIsGood(regions, kernelStart, kernelEnd, m);
      }
    }

    lemma ProgramStoreSafe(s: Space, base: Frames, a: uint32, x: uint32)
      requires Good(s, base) && Possible(s, StoreWord(a, x))
      ensures a % 4 == 0 && Walk(s.mem, a).Mapped?
      ensures Good(s.(mem := Store(s.mem, a, x)), base) && SameWalks(s.mem, Store(s.mem, a, x))
    {
      StoreKeepsGood(s, base, a, x);
      StoreKeepsTables(s, base, a, x);
    }

    /** A store of the running program to a mapped page above the identity window. */
    method ProgramStore(address: uint32, value: uint32)
      requires Live() && Good(State(), base) && Possible(State(), StoreWord(address, value))
      modifies mmu`tlb, mmu.phys
      ensures Live() && Good(State(), base)
      ensures State() == old(State()).(mem := Store(old(mmu.Mem()), address, value))
    {
      hide Good, Possible, SameWalks, Coherent, WalkPage, DirEntry, Store, Mmu.Mem, FrameAllocator.Value;
      ghost var m := mmu.Mem();
      ProgramStoreSafe(State(), base, address, value);
      var ok := mmu.StoreWord(address, value);
      CoherentTransfer(mmu.tlb, m, mmu.Mem());
    }
  }
}
