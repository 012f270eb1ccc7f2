/** The system invariant, which ties the page tables in memory to the frames the allocator
    handed out, and demand mapping: allocate a frame and map it. */
module DemandPaging {
  import opened Bits
  import opened FrameTable
  import opened FrameTheorems
  import opened PageWalk
  import opened PageTheorems

  const KERNEL_HEAP_START := 0xC100_0000
  const KERNEL_HEAP_END := 0xC200_0000
  const KERNEL_STACK_TOP := 0xC300_0000
  const KERNEL_STACK_BOTTOM := 0xC2FF_0000
  const STACK_GROWTH_GAP := 32

  // ----- the address space as finite maps -----

  /** Directory index to table frame, for the tables outside the first 4 MByte. */
  function Tables(m: Memory): map<nat, nat> {
    map i: nat | 1 <= i < ENTRIES && Present(DirEntry(m, i)) :: FrameOf(DirEntry(m, i))
  }

  /** Page number to frame, for the present pages outside the first 4 MByte. */
  function Pages(m: Memory): map<nat, nat> {
    map p: nat | ENTRIES <= p < PAGES && WalkPage(m, p).Mapped? :: WalkPage(m, p).frame
  }

  /** Every address below 4 MByte translates to itself, for the supervisor only. */
  ghost predicate IdentityWindow(m: Memory) {
    && DirEntry(m, 0) == PAGE_TABLE_ADDR + 3
    && forall i :: 0 <= i < ENTRIES ==> Entry(m, FIRST_TABLE_FRAME, i) == i * PAGE_SIZE + 7
  }

  /** The entries the kernel builds: absent, or present and writable for the supervisor. */
  ghost predicate KernelEntries(m: Memory) {
    && (forall i :: 1 <= i < ENTRIES ==> DirEntry(m, i) == 2 || DirEntry(m, i) % PAGE_SIZE == 3)
    && (forall i, j :: 1 <= i < ENTRIES && Present(DirEntry(m, i)) && 0 <= j < ENTRIES ==>
          Entry(m, FrameOf(DirEntry(m, i)), j) == 0 || Entry(m, FrameOf(DirEntry(m, i)), j) % PAGE_SIZE == 3)
  }

  ghost predicate Injective(m: map<nat, nat>) {
    forall i, j :: i in m && j in m && i != j ==> m[i] != m[j]
  }

  /** The frames in `m` were clear in `base` and can be handed out below `limit`. */
  ghost predicate FromClear(base: Frames, m: map<nat, nat>, limit: nat) {
    forall i :: i in m ==> 1 <= m[i] < base.total && m[i] < limit && m[i] < |base.bits| && !base.bits[m[i]]
  }

  ghost predicate UsedExactly(bits: seq<bool>, base: seq<bool>, tables: map<nat, nat>, pages: map<nat, nat>) {
    && |bits| == |base|
    && forall f :: 0 <= f < |base| ==> (bits[f] <==> base[f] || f in tables.Values || f in pages.Values)
  }

  /** `base` is the allocator when paging was switched on.  The tables and pages own
      pairwise distinct frames that were clear then; those and the frames used then are
      exactly the used frames, and `used_frames` counts them. */
  ghost predicate Owned(frames: Frames, base: Frames, tables: map<nat, nat>, pages: map<nat, nat>) {
    && Conserved(frames) && frames.total == base.total && frames.maxIdx == base.maxIdx
    && Injective(tables) && Injective(pages) && tables.Values !! pages.Values
    && FromClear(base, tables, WINDOW_FRAMES) && FromClear(base, pages, PAGES)
    && UsedExactly(frames.bits, base.bits, tables, pages)
    && frames.used == base.used + |tables| + |pages|
  }

  /** Reserved before paging: everything below 1 MByte. */
  ghost predicate LowMemoryUsed(base: Frames) {
    256 <= |base.bits| && forall f :: 0 <= f < 256 ==> base.bits[f]
  }

  ghost predicate InvFor(s: Space, base: Frames, pages: map<nat, nat>) {
    && Conserved(base) && LowMemoryUsed(base)
    && IdentityWindow(s.mem) && KernelEntries(s.mem)
    && Owned(s.frames, base, Tables(s.mem), pages)
  }

  ghost predicate Inv(s: Space, base: Frames) {
    InvFor(s, base, Pages(s.mem))
  }

  // ----- consequences of the invariant -----

  lemma FirstDirEntry(e: uint32)
    requires e == PAGE_TABLE_ADDR + 3
    ensures Present(e) && FrameOf(e) == FIRST_TABLE_FRAME && Flags(e) == 3
  {
  }

  lemma TableIsUsed(s: Space, base: Frames, pages: map<nat, nat>, i: nat)
    requires InvFor(s, base, pages) && i < ENTRIES && Present(DirEntry(s.mem, i))
    ensures var f := FrameOf(DirEntry(s.mem, i));
            f != DIR_FRAME && f < |s.frames.bits| && s.frames.bits[f] && f < WINDOW_FRAMES
    ensures i != 0 ==> FrameOf(DirEntry(s.mem, i)) >= 256
  {
    if i == 0 {
      FirstDirEntry(DirEntry(s.mem, 0));
    } else {
      var t := Tables(s.mem);
      assert i in t && t[i] in t.Values;
    }
  }

  lemma InvTablesSound(s: Space, base: Frames, pages: map<nat, nat>)
    requires InvFor(s, base, pages)
    ensures TablesSound(s)
  {
    forall i | 0 <= i < ENTRIES && Present(DirEntry(s.mem, i))
      ensures var f := FrameOf(DirEntry(s.mem, i));
              f != DIR_FRAME && f < |s.frames.bits| && s.frames.bits[f]
    {
      TableIsUsed(s, base, pages, i);
    }
    forall i, j | 0 <= i < j < ENTRIES && Present(DirEntry(s.mem, i)) && Present(DirEntry(s.mem, j))
      ensures FrameOf(DirEntry(s.mem, i)) != FrameOf(DirEntry(s.mem, j))
    {
      TableIsUsed(s, base, pages, j);
      var t := Tables(s.mem);
      if i == 0 {
        FirstDirEntry(DirEntry(s.mem, 0));
      } else {
        assert i in t && j in t;
      }
    }
  }

  /** Identity window: addresses below 4 MByte translate to themselves; although their
      table entries carry the user bit, the directory entry denies user access. */
  lemma WindowTranslatesToItself(m: Memory, v: uint32)
    requires IdentityWindow(m) && v < 0x40_0000
    ensures Walk(m, v) == Mapped(v / PAGE_SIZE, 7, 3)
    ensures Walk(m, v).Writable() && !Walk(m, v).UserAccess()
  {
    FirstDirEntry(DirEntry(m, 0));
    SplitEntry(v / PAGE_SIZE, 7);
    WindowRights(v / PAGE_SIZE);
    assert PageOf(v) / ENTRIES == 0 && PageOf(v) % ENTRIES == v / PAGE_SIZE;
  }

  lemma WindowRights(f: nat)
    ensures Mapped(f, 7, 3).Writable() && !Mapped(f, 7, 3).UserAccess()
    ensures (f * PAGE_SIZE + 7) % 2 == 1
  {
    assert f * PAGE_SIZE + 7 == 2 * (2048 * f + 3) + 1;
  }

  /** Every present page above 4 MByte is writable and closed to user code, and its frame
      is used, was clear before paging, and lies above 1 MByte. */
  lemma PageFrameIsOwn(s: Space, base: Frames, p: nat)
    requires Inv(s, base) && ENTRIES <= p < PAGES && WalkPage(s.mem, p).Mapped?
    ensures var t := WalkPage(s.mem, p);
            && t == Mapped(t.frame, 3, 3) && t.Writable() && !t.UserAccess()
            && 256 <= t.frame < |base.bits| && !base.bits[t.frame] && s.frames.bits[t.frame]
  {
    KernelFlags(s.mem, p);
    var pages := Pages(s.mem);
    assert p in pages && pages[p] in pages.Values;
  }

  lemma KernelFlags(m: Memory, p: nat)
    requires KernelEntries(m) && ENTRIES <= p < PAGES
    ensures WalkPage(m, p) == NotPresent || WalkPage(m, p) == Mapped(WalkPage(m, p).frame, 3, 3)
    ensures WalkPage(m, p).Mapped? ==> WalkPage(m, p).Writable() && !WalkPage(m, p).UserAccess()
  {
    assert 1 <= p / ENTRIES < ENTRIES;
    if WalkPage(m, p).Mapped? {
      KernelRights(WalkPage(m, p).frame);
    }
  }

  lemma KernelRights(f: nat)
    ensures Mapped(f, 3, 3).Writable() && !Mapped(f, 3, 3).UserAccess()
  {
  }

  /** It belongs to no other present page and to no page table. */
  lemma PageFrameIsUnshared(s: Space, base: Frames, p: nat)
    requires Inv(s, base) && ENTRIES <= p < PAGES && WalkPage(s.mem, p).Mapped?
    ensures forall q :: ENTRIES <= q < PAGES && q != p && WalkPage(s.mem, q).Mapped? ==>
              WalkPage(s.mem, q).frame != WalkPage(s.mem, p).frame
    ensures forall i :: 0 <= i < ENTRIES && Present(DirEntry(s.mem, i)) ==>
              FrameOf(DirEntry(s.mem, i)) != WalkPage(s.mem, p).frame
  {
    var pages, tables := Pages(s.mem), Tables(s.mem);
    PageFrameIsOwn(s, base, p);
    assert p in pages && pages[p] in pages.Values;
    forall q | ENTRIES <= q < PAGES && q != p && WalkPage(s.mem, q).Mapped?
      ensures WalkPage(s.mem, q).frame != WalkPage(s.mem, p).frame
    {
      assert q in pages;
    }
    forall i | 0 <= i < ENTRIES && Present(DirEntry(s.mem, i))
      ensures FrameOf(DirEntry(s.mem, i)) != WalkPage(s.mem, p).frame
    {
      if i == 0 {
        FirstDirEntry(DirEntry(s.mem, 0));
      } else {
        assert i in tables && tables[i] in tables.Values;
      }
    }
  }

  // ----- demand mapping: allocate a frame, then map it -----

  /** `pmm_alloc_frame` followed by `paging_map_page` with present and write flags, as in
      the fault handler and in the stack set-up. */
  function DemandMap(s: Space, v: uint32): (r: (Status, Space))
    requires WellFormed(s.frames)
    ensures WellFormed(r.1.frames) && |r.1.frames.bits| == |s.frames.bits|
  {
    var (f, frames) := Alloc(s.frames);
    if f.None? then (Halted(OutOfMemory), s)
    else MapPage(s.(frames := frames), v, f.value * PAGE_SIZE, PAGE_PRESENT + PAGE_WRITE)
  }

  /** Giving a frame that no one uses to a new key keeps a map injective. */
  lemma InsertUnused(frames: Frames, base: Frames, m: map<nat, nat>, k: nat, limit: nat)
    requires Conserved(frames) && |frames.bits| == |base.bits| && frames.total == base.total
    requires Injective(m) && FromClear(base, m, limit) && k !in m
    requires forall f :: 0 <= f < |base.bits| && (base.bits[f] || f in m.Values) ==> frames.bits[f]
    requires Alloc(frames).0.Some? && Alloc(frames).0.value < limit
    ensures var m' := m[k := Alloc(frames).0.value];
            Injective(m') && FromClear(base, m', limit)
  {
    assert forall i :: i in m ==> m[i] in m.Values;
  }

  /** A clear frame may be given to a directory index that has no table yet. */
  lemma OwnTable(frames: Frames, base: Frames, tables: map<nat, nat>, pages: map<nat, nat>, i: nat)
    requires Conserved(base) && Owned(frames, base, tables, pages) && i !in tables
    requires Alloc(frames).0.Some? && Alloc(frames).0.value < WINDOW_FRAMES
    ensures Owned(Alloc(frames).1, base, tables[i := Alloc(frames).0.value], pages)
  {
    AllocConserves(frames);
    ValuesAfterInsert(tables, i, Alloc(frames).0.value);
    InsertUnused(frames, base, tables, i, WINDOW_FRAMES);
  }

  /** A clear frame may be given to a page that is not mapped yet. */
  lemma OwnPage(frames: Frames, base: Frames, tables: map<nat, nat>, pages: map<nat, nat>, p: nat)
    requires Conserved(base) && Owned(frames, base, tables, pages) && p !in pages
    requires Alloc(frames).0.Some?
    ensures Owned(Alloc(frames).1, base, tables, pages[p := Alloc(frames).0.value])
  {
    AllocConserves(frames);
    ValuesAfterInsert(pages, p, Alloc(frames).0.value);
    InsertUnused(frames, base, pages, p, PAGES);
  }

  lemma ValuesAfterInsert(m: map<nat, nat>, k: nat, f: nat)
    requires k !in m
    ensures m[k := f].Values == m.Values + {f}
    ensures |m[k := f]| == |m| + 1
  {
    var n := m[k := f];
    assert n[k] == f;
    forall x | x in m.Values
      ensures x in n.Values
    {
      var j :| j in m && m[j] == x;
      assert n[j] == x;
    }
    assert n.Keys == m.Keys + {k};
  }

  // ----- mapping a page above 4 MByte -----

  /** The table that `MapPage` writes: the linked one, or the next clear frame. */
  function TargetTable(s: Space, v: uint32): nat
    requires WellFormed(s.frames)
  {
    var d := DirEntry(s.mem, DirIndex(v));
    if Present(d) then FrameOf(d) else Alloc(s.frames).0.GetOr(0)
  }

  /** A high mapping writes only the directory and its own table, which is not the first. */
  lemma MapFootprint(s: Space, v: uint32, q: nat)
    requires TablesSound(s) && IdentityWindow(s.mem) && q < PAGES && v >= 0x40_0000
    requires MapPage(s, v, q * PAGE_SIZE, 3).0 == Running
    ensures var m, m' := s.mem, MapPage(s, v, q * PAGE_SIZE, 3).1.mem;
            var t := TargetTable(s, v);
            && t < PAGES && t != FIRST_TABLE_FRAME && t != DIR_FRAME
            && (forall g, j :: 0 <= g < PAGES && 0 <= j < ENTRIES && g != t && g != DIR_FRAME ==>
                  Entry(m', g, j) == Entry(m, g, j))
            && (forall j :: 0 <= j < ENTRIES ==>
                  Entry(m', t, j) == if j == TableIndex(v) then q * PAGE_SIZE + 3
                                     else if Present(DirEntry(m, DirIndex(v))) then Entry(m, t, j) else 0)
            && (forall j :: 0 <= j < ENTRIES ==>
                  DirEntry(m', j) == if j == DirIndex(v) && !Present(DirEntry(m, j)) then t * PAGE_SIZE + 3 else DirEntry(m, j))
  {
    FirstDirEntry(DirEntry(s.mem, 0));
    KernelEntry(q);
    if Present(DirEntry(s.mem, DirIndex(v))) {
      MapFootprintOld(s, v, q);
    } else {
      MapFootprintNew(s, v, q);
    }
  }

  lemma KernelEntry(q: nat)
    requires q < PAGES
    ensures MakeEntry(q * PAGE_SIZE, 3) == q * PAGE_SIZE + 3
  {
    SplitEntry(q, 0);
    EntryParts(MakeEntry(q * PAGE_SIZE, 3));
  }

  lemma EntryParts(e: uint32)
    ensures e == FrameOf(e) * PAGE_SIZE + Flags(e)
  {
  }

  lemma MapFootprintOld(s: Space, v: uint32, q: nat)
    requires TablesSound(s) && q < PAGES && Present(DirEntry(s.mem, DirIndex(v)))
    ensures var m, m' := s.mem, MapPage(s, v, q * PAGE_SIZE, 3).1.mem;
            var t := FrameOf(DirEntry(s.mem, DirIndex(v)));
            forall g, j :: 0 <= g < PAGES && 0 <= j < ENTRIES ==>
              Entry(m', g, j) == if g == t && j == TableIndex(v) then q * PAGE_SIZE + 3 else Entry(m, g, j)
  {
    KernelEntry(q);
  }

  lemma MapFootprintNew(s: Space, v: uint32, q: nat)
    requires TablesSound(s) && q < PAGES && !Present(DirEntry(s.mem, DirIndex(v)))
    requires MapPage(s, v, q * PAGE_SIZE, 3).0 == Running
    ensures var m, m' := s.mem, MapPage(s, v, q * PAGE_SIZE, 3).1.mem;
            var t := Alloc(s.frames).0.value;
            && t < WINDOW_FRAMES && t != DIR_FRAME
            && forall g, j :: 0 <= g < PAGES && 0 <= j < ENTRIES ==>
                 Entry(m', g, j) ==
                 if g == t then (if j == TableIndex(v) then q * PAGE_SIZE + 3 else 0)
                 else if g == DIR_FRAME && j == DirIndex(v) then t * PAGE_SIZE + 3
                 else Entry(m, g, j)
  {
    KernelEntry(q);
  }

  lemma MapKeepsWindow(s: Space, v: uint32, q: nat)
    requires TablesSound(s) && IdentityWindow(s.mem) && q < PAGES && v >= 0x40_0000
    requires MapPage(s, v, q * PAGE_SIZE, 3).0 == Running
    ensures IdentityWindow(MapPage(s, v, q * PAGE_SIZE, 3).1.mem)
  {
    MapFootprint(s, v, q);
  }

  lemma MapKeepsKernelEntries(s: Space, v: uint32, q: nat)
    requires TablesSound(s) && IdentityWindow(s.mem) && KernelEntries(s.mem) && q < PAGES && v >= 0x40_0000
    requires MapPage(s, v, q * PAGE_SIZE, 3).0 == Running
    ensures KernelEntries(MapPage(s, v, q * PAGE_SIZE, 3).1.mem)
  {
    MapFootprint(s, v, q);
    var m, m' := s.mem, MapPage(s, v, q * PAGE_SIZE, 3).1.mem;
    var t := TargetTable(s, v);
    SplitEntry(t, 3);
    SplitEntry(q, 3);
    forall i, j | 1 <= i < ENTRIES && Present(DirEntry(m', i)) && 0 <= j < ENTRIES
      ensures Entry(m', FrameOf(DirEntry(m', i)), j) == 0 || Entry(m', FrameOf(DirEntry(m', i)), j) % PAGE_SIZE == 3
    {
      if i != DirIndex(v) {
        assert FrameOf(DirEntry(m, i)) != t;
      }
    }
  }

  /** Mapping a high page is a one-point update of the page map, and of the table map when
      its directory entry was absent. */
  lemma MapUpdatesPages(s: Space, v: uint32, q: nat)
    requires TablesSound(s) && q < PAGES && v >= 0x40_0000
    requires MapPage(s, v, q * PAGE_SIZE, 3).0 == Running
    ensures Pages(MapPage(s, v, q * PAGE_SIZE, 3).1.mem) == Pages(s.mem)[PageOf(v) := q]
  {
    var m, m' := s.mem, MapPage(s, v, q * PAGE_SIZE, 3).1.mem;
    forall p: nat | p < PAGES
      ensures WalkPage(m', p) == if p == PageOf(v) then Installed(m, v, q * PAGE_SIZE, 3) else WalkPage(m, p)
    {
      MapPageAt(s, v, q * PAGE_SIZE, 3, p);
    }
    assert Present(3);
    assert Installed(m, v, q * PAGE_SIZE, 3).frame == q;
  }

  /** Rewriting one directory entry changes the table map at that entry only. */
  lemma LinkOne(m: Memory, m': Memory, k: nat, t: nat)
    requires 1 <= k < ENTRIES && t < PAGES
    requires forall j :: 0 <= j < ENTRIES ==>
               DirEntry(m', j) == if j == k && !Present(DirEntry(m, j)) then t * PAGE_SIZE + 3 else DirEntry(m, j)
    ensures Tables(m') == if Present(DirEntry(m, k)) then Tables(m) else Tables(m)[k := t]
  {
    LinkFields(t);
    hide DirEntry;
    forall i: nat
      ensures i in Tables(m') <==> i in Tables(m) || (i == k && !Present(DirEntry(m, i)))
    {
    }
  }

  lemma MapUpdatesTables(s: Space, v: uint32, q: nat)
    requires TablesSound(s) && IdentityWindow(s.mem) && q < PAGES && v >= 0x40_0000
    requires MapPage(s, v, q * PAGE_SIZE, 3).0 == Running
    ensures var m, m' := s.mem, MapPage(s, v, q * PAGE_SIZE, 3).1.mem;
            Tables(m') == if Present(DirEntry(m, DirIndex(v))) then Tables(m)
                          else Tables(m)[DirIndex(v) := TargetTable(s, v)]
  {
    MapFootprint(s, v, q);
    hide MapPage, TargetTable, Tables, TablesSound, Entry, DirEntry;
    LinkOne(s.mem, MapPage(s, v, q * PAGE_SIZE, 3).1.mem, DirIndex(v), TargetTable(s, v));
  }

  // ----- demand mapping keeps the invariant -----

  /** When demand mapping of an absent high page returns, the invariant still holds, the
      page maps to the frame first fit chose, and a new table took the next clear frame. */
  lemma DemandMapKeepsInv(s: Space, base: Frames, v: uint32)
    requires Inv(s, base) && v >= 0x40_0000 && Walk(s.mem, v) == NotPresent
    requires DemandMap(s, v).0 == Running
    ensures Alloc(s.frames).0.Some?
    ensures var s' := DemandMap(s, v).1;
            && Inv(s', base)
            && Pages(s'.mem) == Pages(s.mem)[PageOf(v) := Alloc(s.frames).0.value]
            && (if Present(DirEntry(s.mem, DirIndex(v))) then Tables(s'.mem) == Tables(s.mem)
                else Alloc(Alloc(s.frames).1).0.Some? &&
                     Tables(s'.mem) == Tables(s.mem)[DirIndex(v) := Alloc(Alloc(s.frames).1).0.value])
  {
    var (f, frames) := Alloc(s.frames);
    var q, s1 := f.value, s.(frames := frames);
    var tables, pages := Tables(s.mem), Pages(s.mem)[PageOf(v) := q];
    OwnPage(s.frames, base, tables, Pages(s.mem), PageOf(v));
    InvTablesSound(s1, base, pages);
    MapKeepsWindow(s1, v, q);
    MapKeepsKernelEntries(s1, v, q);
    MapUpdatesPages(s1, v, q);
    MapUpdatesTables(s1, v, q);
    if !Present(DirEntry(s.mem, DirIndex(v))) {
      OwnTable(frames, base, tables, pages, DirIndex(v));
    }
  }

  lemma AllocByCount(p: Frames)
    requires WellFormed(p)
    ensures Alloc(p).0.Some? <==> CountClear(p.bits, 1, p.total) > 0
    ensures Alloc(p).0.Some? && Alloc(p).0.value < WINDOW_FRAMES <==>
            CountClear(p.bits, 1, Min(WINDOW_FRAMES, p.total)) > 0
    ensures Alloc(p).0.Some? ==>
              CountClear(Alloc(p).1.bits, 1, p.total) == CountClear(p.bits, 1, p.total) - 1
    ensures Alloc(p).0.Some? && Alloc(p).0.value < WINDOW_FRAMES ==>
              CountClear(Alloc(p).1.bits, 1, Min(WINDOW_FRAMES, p.total)) == CountClear(p.bits, 1, Min(WINDOW_FRAMES, p.total)) - 1
    ensures Alloc(p).0.Some? && Alloc(p).0.value >= WINDOW_FRAMES ==>
              CountClear(Alloc(p).1.bits, 1, Min(WINDOW_FRAMES, p.total)) == CountClear(p.bits, 1, Min(WINDOW_FRAMES, p.total))
  {
    var low := Min(WINDOW_FRAMES, p.total);
    CountZero(p.bits, 1, p.total);
    CountZero(p.bits, 1, low);
    var f := FirstClear(p.bits, 1, p.total);
    if f < p.total {
      CountUpdate(p.bits, f, true, 1, p.total);
      if f < WINDOW_FRAMES {
        CountUpdate(p.bits, f, true, 1, low);
      } else {
        CountSame(p.bits, Alloc(p).1.bits, 1, low);
      }
    }
  }

  /** Exactly when demand mapping returns, counted in clear frames: a page frame, and for a
      new table a second clear frame inside the identity window. */
  lemma DemandMapOutcome(s: Space, v: uint32)
    requires WellFormed(s.frames)
    ensures var bits, n := s.frames.bits, s.frames.total;
            var clear, low := CountClear(bits, 1, n), CountClear(bits, 1, Min(WINDOW_FRAMES, n));
            var linked := Present(DirEntry(s.mem, DirIndex(v)));
            && (DemandMap(s, v).0 == Running <==> if linked then clear >= 1 else low >= 2)
            && (DemandMap(s, v).0 == Halted(OutOfMemory) <==> if linked then clear == 0 else clear <= 1)
            && (DemandMap(s, v).0 == Halted(TableUnreachable) <==> !linked && clear >= 2 && low <= 1)
  {
    AllocByCount(s.frames);
    var q := Alloc(s.frames).1;
    AllocByCount(q);
    CountSplitLow(s.frames);
    CountSplitLow(q);
  }

  lemma CountSplitLow(p: Frames)
    requires WellFormed(p)
    ensures CountClear(p.bits, 1, Min(WINDOW_FRAMES, p.total)) <= CountClear(p.bits, 1, p.total)
  {
    if p.total > 0 {
      CountSplit(p.bits, 1, Min(WINDOW_FRAMES, p.total), p.total);
    }
  }

  /** Exactly how `paging_map_page` ends, for any address, frame and flags, by the frames
      that are clear: only a new table needs one, and below 4 MByte. */
  lemma MapPageOutcome(s: Space, v: uint32, physical: uint32, flags: uint32)
    requires WellFormed(s.frames)
    ensures var clear := CountClear(s.frames.bits, 1, s.frames.total);
            var low := CountClear(s.frames.bits, 1, Min(1024, s.frames.total));
            MapPage(s, v, physical, flags).0 ==
            if Present(DirEntry(s.mem, v / 0x40_0000)) || low >= 1 then Running
            else if clear >= 1 then Halted(TableUnreachable)
            else Halted(OutOfMemory)
    ensures Present(DirEntry(s.mem, v / 0x40_0000)) ==> MapPage(s, v, physical, flags).1.frames == s.frames
    ensures !Present(DirEntry(s.mem, v / 0x40_0000)) ==> MapPage(s, v, physical, flags).1.frames == Alloc(s.frames).1
  {
    AllocByCount(s.frames);
    CountSplitLow(s.frames);
    hide CountClear;
  }

  /** What `paging_init` translates: the first 4 MByte to themselves, present, writable and
      closed to user code, and nothing else; the rest of memory is as it was. */
  lemma InitTranslations(m: Memory, v: uint32)
    ensures Walk(InitPaging(m), v) == if v < 0x40_0000 then Mapped(v / 4096, 7, 3) else NotPresent
    ensures forall f, i :: 0 <= f < PAGES && 0 <= i < ENTRIES && f != 0x80 && f != 0x81 ==> Entry(InitPaging(m), f, i) == Entry(m, f, i)
  {
    var m' := InitPaging(m);
    if v < 0x40_0000 {
      assert IdentityWindow(m');
      WindowTranslatesToItself(m', v);
    } else {
      assert DirEntry(m', DirIndex(v)) == 2;
      assert !Present(2);
    }
  }

  /** Entries are words of memory: that of entry `a % 4096 / 4` in frame `a / 4096` is the word
      at byte address `a`. */
  lemma EntryIsWord(m: Memory, a: uint32)
    requires a % 4 == 0
    ensures Entry(m, a / 4096, a % 4096 / 4) == m[a / 4]
  {
  }
}
