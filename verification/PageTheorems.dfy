/** What one `paging_map_page` does to the translations of all addresses, and which
    translations a TLB may keep. */
module PageTheorems {
  import opened Bits
  import opened FrameTable
  import opened PageWalk

  /** The present directory entries point to distinct used frames other than the directory. */
  ghost predicate TablesSound(s: Space) {
    && WellFormed(s.frames)
    && DIR_FRAME < |s.frames.bits| && s.frames.bits[DIR_FRAME]
    && (forall i :: 0 <= i < ENTRIES && Present(DirEntry(s.mem, i)) ==>
          var f := FrameOf(DirEntry(s.mem, i));
          f != DIR_FRAME && f < |s.frames.bits| && s.frames.bits[f])
    && (forall i, j :: 0 <= i < j < ENTRIES && Present(DirEntry(s.mem, i)) && Present(DirEntry(s.mem, j)) ==>
          FrameOf(DirEntry(s.mem, i)) != FrameOf(DirEntry(s.mem, j)))
  }

  /** The translation that mapping `v` to `physical` with `flags` should give `v`. */
  function Installed(m: Memory, v: uint32, physical: uint32, flags: uint32): Translation {
    var d := DirEntry(m, DirIndex(v));
    if !Present(flags) then NotPresent
    else Mapped(physical / PAGE_SIZE, flags % PAGE_SIZE, if Present(d) then Flags(d) else PAGE_PRESENT + PAGE_WRITE)
  }

  /** Mapping a page refines a one-point update of the function from addresses to
      translations: page `v` walks to exactly the requested frame and flags, and every
      other 32-bit address keeps its translation, also when a new table was linked. */
  lemma MapPageUpdatesOneTranslation(s: Space, v: uint32, physical: uint32, flags: uint32)
    requires TablesSound(s)
    requires MapPage(s, v, physical, flags).0 == Running
    ensures var s' := MapPage(s, v, physical, flags).1;
            && TablesSound(s')
            && forall w: uint32 :: Walk(s'.mem, w) ==
                 if PageOf(w) == PageOf(v) then Installed(s.mem, v, physical, flags) else Walk(s.mem, w)
  {
    var s' := MapPage(s, v, physical, flags).1;
    MapPageKeepsTablesSound(s, v, physical, flags);
    forall w: uint32
      ensures Walk(s'.mem, w) ==
              if PageOf(w) == PageOf(v) then Installed(s.mem, v, physical, flags) else Walk(s.mem, w)
    {
      MapPageAt(s, v, physical, flags, PageOf(w));
    }
  }

  lemma FlagsParity(e: uint32)
    ensures Present(e) <==> Flags(e) % 2 == 1
  {
  }

  /** Linking changes at most the one directory entry of `v`. */
  lemma MapPageDirectory(s: Space, v: uint32, physical: uint32, flags: uint32)
    requires TablesSound(s)
    requires MapPage(s, v, physical, flags).0 == Running
    ensures var s' := MapPage(s, v, physical, flags).1;
            && (Present(DirEntry(s.mem, DirIndex(v))) ==>
                  s'.frames == s.frames && forall i :: 0 <= i < ENTRIES ==> DirEntry(s'.mem, i) == DirEntry(s.mem, i))
            && (!Present(DirEntry(s.mem, DirIndex(v))) ==>
                  var (t, frames) := Alloc(s.frames);
                  && t.Some? && t.value < WINDOW_FRAMES && t.value != DIR_FRAME && s'.frames == frames
                  && forall i :: 0 <= i < ENTRIES ==>
                       DirEntry(s'.mem, i) == if i == DirIndex(v) then t.value * PAGE_SIZE + 3 else DirEntry(s.mem, i))
  {
  }

  lemma MapPageKeepsTablesSound(s: Space, v: uint32, physical: uint32, flags: uint32)
    requires TablesSound(s)
    requires MapPage(s, v, physical, flags).0 == Running
    ensures TablesSound(MapPage(s, v, physical, flags).1)
  {
    var m, s' := s.mem, MapPage(s, v, physical, flags).1;
    MapPageDirectory(s, v, physical, flags);
    if !Present(DirEntry(m, DirIndex(v))) {
      var t := Alloc(s.frames).0.value;
      SplitEntry(t, 3);
      forall i | 0 <= i < ENTRIES && Present(DirEntry(s'.mem, i))
        ensures FrameOf(DirEntry(s'.mem, i)) == if i == DirIndex(v) then t else FrameOf(DirEntry(m, i))
        ensures i != DirIndex(v) ==> Present(DirEntry(m, i))
      {
      }
    }
  }

  lemma MapPageAt(s: Space, v: uint32, physical: uint32, flags: uint32, p: nat)
    requires TablesSound(s) && p < PAGES
    requires MapPage(s, v, physical, flags).0 == Running
    ensures WalkPage(MapPage(s, v, physical, flags).1.mem, p) ==
            if p == PageOf(v) then Installed(s.mem, v, physical, flags) else WalkPage(s.mem, p)
  {
    if Present(DirEntry(s.mem, DirIndex(v))) {
      MapInOldTable(s, v, physical, flags, p);
    } else if p / ENTRIES == DirIndex(v) {
      MapInNewTable(s, v, physical, flags, p);
    } else {
      MapBesideNewTable(s, v, physical, flags, p);
    }
  }

  lemma MapInOldTable(s: Space, v: uint32, physical: uint32, flags: uint32, p: nat)
    requires TablesSound(s) && p < PAGES
    requires Present(DirEntry(s.mem, DirIndex(v)))
    ensures WalkPage(MapPage(s, v, physical, flags).1.mem, p) ==
            if p == PageOf(v) then Installed(s.mem, v, physical, flags) else WalkPage(s.mem, p)
  {
    MapPageDirectory(s, v, physical, flags);
    FlagsParity(MakeEntry(physical, flags));
    FlagsParity(flags);
    var m, m' := s.mem, MapPage(s, v, physical, flags).1.mem;
    var d := DirEntry(m, p / ENTRIES);
    if Present(d) && p != PageOf(v) {
      assert Entry(m', FrameOf(d), p % ENTRIES) == Entry(m, FrameOf(d), p % ENTRIES);
    }
  }

  /** Of the 1024 pages of a new table, only `v` becomes present. */
  lemma MapInNewTable(s: Space, v: uint32, physical: uint32, flags: uint32, p: nat)
    requires TablesSound(s) && p < PAGES && p / ENTRIES == DirIndex(v)
    requires !Present(DirEntry(s.mem, DirIndex(v)))
    requires MapPage(s, v, physical, flags).0 == Running
    ensures WalkPage(MapPage(s, v, physical, flags).1.mem, p) ==
            if p == PageOf(v) then Installed(s.mem, v, physical, flags) else NotPresent
  {
    MapPageDirectory(s, v, physical, flags);
    FlagsParity(MakeEntry(physical, flags));
    FlagsParity(flags);
    var m' := MapPage(s, v, physical, flags).1.mem;
    var t := Alloc(s.frames).0.value;
    WalkLinked(m', p, t);
    assert p == PageOf(v) <==> p % ENTRIES == TableIndex(v);
    assert Entry(m', t, p % ENTRIES) == if p == PageOf(v) then MakeEntry(physical, flags) else 0;
  }

  lemma MapBesideNewTable(s: Space, v: uint32, physical: uint32, flags: uint32, p: nat)
    requires TablesSound(s) && p < PAGES && p / ENTRIES != DirIndex(v)
    requires !Present(DirEntry(s.mem, DirIndex(v)))
    requires MapPage(s, v, physical, flags).0 == Running
    ensures WalkPage(MapPage(s, v, physical, flags).1.mem, p) == WalkPage(s.mem, p)
  {
    MapPageDirectory(s, v, physical, flags);
    var m, m' := s.mem, MapPage(s, v, physical, flags).1.mem;
    if Present(DirEntry(m, p / ENTRIES)) {
      var f := FrameOf(DirEntry(m, p / ENTRIES));
      assert f != Alloc(s.frames).0.value;
      assert Entry(m', f, p % ENTRIES) == Entry(m, f, p % ENTRIES);
    }
  }

  // ----- the TLB -----

  /** Every cached translation agrees with the current walk. */
  ghost predicate Coherent(tlb: map<nat, Translation>, m: Memory) {
    forall p :: p in tlb ==> p < PAGES && tlb[p].Mapped? && tlb[p] == WalkPage(m, p)
  }

  /** Whatever was cached before, the TLB is coherent after mapping `v` if and only if it
      holds nothing stale for the page of `v`: invalidating that one page is enough. */
  lemma InvalidatingOnePageSuffices(s: Space, v: uint32, physical: uint32, flags: uint32, tlb: map<nat, Translation>)
    requires TablesSound(s) && Coherent(tlb, s.mem)
    requires MapPage(s, v, physical, flags).0 == Running
    ensures var m' := MapPage(s, v, physical, flags).1.mem;
            && Coherent(tlb - {PageOf(v)}, m')
            && (Coherent(tlb, m') <==> (PageOf(v) in tlb ==> tlb[PageOf(v)] == Installed(s.mem, v, physical, flags)))
  {
    forall p: nat | p < PAGES
      ensures WalkPage(MapPage(s, v, physical, flags).1.mem, p) ==
              if p == PageOf(v) then Installed(s.mem, v, physical, flags) else WalkPage(s.mem, p)
    {
      MapPageAt(s, v, physical, flags, p);
    }
  }
}
