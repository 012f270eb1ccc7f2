/** How far the heap can grow: which lists of heap pages can be faulted in, in terms of the
    clear frames there are. */
module HeapGrowth {
  import opened Bits
  import opened FrameTable
  import opened FrameTheorems
  import opened PageWalk
  import opened DemandPaging
  import opened KernelRuns
  import opened Boot
  import opened FirstAccess

  /** The clear frames that can be handed out, and those of them below 4 MByte. */
  function Clear(p: Frames): nat
    requires WellFormed(p)
  {
    CountClear(p.bits, 1, p.total)
  }

  function Low(p: Frames): nat
    requires WellFormed(p)
  {
    CountClear(p.bits, 1, Min(1024, p.total))
  }

  function Less(n: nat, k: nat): nat { if n < k then 0 else n - k }

  lemma LowIsClear(p: Frames)
    requires WellFormed(p)
    ensures Low(p) <= Clear(p) && Low(p) <= 1023
  {
    CountSplitLow(p);
  }

  /** A fault that returns takes one clear frame, or two with a new table, low ones first. */
  lemma FaultTakes(s: Space, base: Frames, a: uint32, esp: uint32)
    requires Good(s, base) && WellFormed(s.frames) && Walk(s.mem, a) == NotPresent && HandleFault(s, a, esp).0 == Running
    ensures var p, q := s.frames, HandleFault(s, a, esp).1.frames;
            var k := if Present(DirEntry(s.mem, a / 0x40_0000)) then 1 else 2;
            WellFormed(q) && q.total == p.total && Clear(q) == Less(Clear(p), k) && Low(q) == Less(Low(p), k)
  {
    OnlyHeapFaultsReturn(s, base, a, esp);
    DemandMapTakes(s, a);
    hide DemandMap, HandleFault, Good;
  }

  lemma DemandMapTakes(s: Space, v: uint32)
    requires WellFormed(s.frames) && DemandMap(s, v).0 == Running
    ensures var p, q := s.frames, DemandMap(s, v).1.frames;
            var k := if Present(DirEntry(s.mem, DirIndex(v))) then 1 else 2;
            q.total == p.total && Clear(q) == Less(Clear(p), k) && Low(q) == Less(Low(p), k)
  {
    AllocByCount(s.frames);
    AllocByCount(Alloc(s.frames).1);
    hide CountClear;
  }

  // ----- lists of heap pages -----

  function HeapFaults(addrs: seq<uint32>, esp: uint32): seq<Event> {
    seq(|addrs|, i requires 0 <= i < |addrs| => Fault(addrs[i], esp))
  }

  /** Heap addresses on pairwise different pages, none of them mapped. */
  ghost predicate Fresh(m: Memory, addrs: seq<uint32>) {
    && (forall i :: 0 <= i < |addrs| ==> 0xC100_0000 <= addrs[i] < 0xC200_0000 && Walk(m, addrs[i]) == NotPresent)
    && (forall i, j :: 0 <= i < j < |addrs| ==> addrs[i] / 4096 != addrs[j] / 4096)
  }

  /** Enough clear frames for the whole list: one for each page, and for the first page of
      each 4 MByte that has no table yet a second one, both below 4 MByte. */
  predicate Affordable(linked: set<nat>, addrs: seq<uint32>, low: nat, clear: nat)
    decreases |addrs|
  {
    addrs == [] ||
    var d := addrs[0] / 0x40_0000;
    if d in linked then clear >= 1 && Affordable(linked, addrs[1..], Less(low, 1), clear - 1)
    else low >= 2 && clear >= 2 && Affordable(linked + {d}, addrs[1..], low - 2, clear - 2)
  }

  lemma TableKeys(m: Memory, i: nat)
    requires 1 <= i < ENTRIES
    ensures i in Tables(m) <==> Present(DirEntry(m, i))
  {
  }

  lemma KeysAfter(m: map<nat, nat>, m': map<nat, nat>, k: nat)
    requires if k in m then m' == m else k in m' && m' == m[k := m'[k]]
    ensures m'.Keys == m.Keys + {k}
  {
  }

  lemma FaultLinks(s: Space, base: Frames, a: uint32, esp: uint32)
    requires Good(s, base) && Walk(s.mem, a) == NotPresent && HandleFault(s, a, esp).0 == Running
    ensures Tables(HandleFault(s, a, esp).1.mem).Keys == Tables(s.mem).Keys + {a / 0x40_0000}
  {
    OnlyHeapFaultsReturn(s, base, a, esp);
    GoodParts(s, base, a);
    hide Inv, Good, DemandMap, HandleFault, Tables, WalkPage;
    DemandMapLinks(s, base, a);
  }

  lemma DemandMapLinks(s: Space, base: Frames, v: uint32)
    requires Inv(s, base) && v >= 0x40_0000 && Walk(s.mem, v) == NotPresent
    requires DemandMap(s, v).0 == Running
    ensures Tables(DemandMap(s, v).1.mem).Keys == Tables(s.mem).Keys + {DirIndex(v)}
  {
    TableKeys(s.mem, DirIndex(v));
    hide Inv, DemandMap, Tables, Pages, WalkPage, Alloc;
    DemandMapKeepsInv(s, base, v);
    KeysAfter(Tables(s.mem), Tables(DemandMap(s, v).1.mem), DirIndex(v));
  }

  lemma FaultFrees(s: Space, base: Frames, addrs: seq<uint32>, esp: uint32)
    requires Good(s, base) && Fresh(s.mem, addrs) && addrs != []
    requires HandleFault(s, addrs[0], esp).0 == Running
    ensures var s1 := HandleFault(s, addrs[0], esp).1;
            Good(s1, base) && Fresh(s1.mem, addrs[1..])
  {
    FaultProgress(s, base, addrs[0], esp);
    OthersStayFresh(s.mem, HandleFault(s, addrs[0], esp).1.mem, addrs);
  }

  lemma OthersStayFresh(m: Memory, m': Memory, addrs: seq<uint32>)
    requires Fresh(m, addrs) && addrs != []
    requires forall w: uint32 :: PageOf(w) != PageOf(addrs[0]) ==> Walk(m', w) == Walk(m, w)
    ensures Fresh(m', addrs[1..])
  {
    hide Walk;
    forall i | 1 <= i < |addrs|
      ensures Walk(m', addrs[i]) == Walk(m, addrs[i])
    {
      assert PageOf(addrs[i]) != PageOf(addrs[0]);
    }
  }

  /** The events can happen one after the other, without a halt. */
  ghost predicate Returns(s: Space, events: seq<Event>) {
    exists s' :: Reaches(s, events, s')
  }

  lemma ReturnsCons(s: Space, events: seq<Event>)
    requires events != [] && WellFormed(s.frames) && Possible(s, events[0])
    ensures Returns(s, events) <==>
            StepEvent(s, events[0]).0 == Running && Returns(StepEvent(s, events[0]).1, events[1..])
  {
    hide StepEvent, Possible;
    var (status, s1) := StepEvent(s, events[0]);
    if Returns(s, events) {
      var s' :| Reaches(s, events, s');
      assert Reaches(s1, events[1..], s');
    }
    if status == Running && Returns(s1, events[1..]) {
      var s' :| Reaches(s1, events[1..], s');
      assert Reaches(s, events, s');
    }
  }

  lemma FaultStep(s: Space, base: Frames, addrs: seq<uint32>, esp: uint32)
    requires Good(s, base) && WellFormed(s.frames) && Fresh(s.mem, addrs) && addrs != []
    ensures Possible(s, Fault(addrs[0], esp))
    ensures var d := addrs[0] / 0x40_0000;
            var (status, s1) := StepEvent(s, Fault(addrs[0], esp));
            && (status == Running <==> if d in Tables(s.mem) then Clear(s.frames) >= 1 else Low(s.frames) >= 2)
            && (status == Running ==>
                  var k := if d in Tables(s.mem) then 1 else 2;
                  && Good(s1, base) && WellFormed(s1.frames) && Fresh(s1.mem, addrs[1..])
                  && Tables(s1.mem).Keys == Tables(s.mem).Keys + {d}
                  && Clear(s1.frames) == Less(Clear(s.frames), k) && Low(s1.frames) == Less(Low(s.frames), k))
  {
    var a := addrs[0];
    FaultOutcome(s, a, esp);
    TableKeys(s.mem, a / 0x40_0000);
    hide Good, HandleFault, Tables, CountClear, Fresh, DirEntry, WalkPage;
    if HandleFault(s, a, esp).0 == Running {
      FaultTakes(s, base, a, esp);
      FaultLinks(s, base, a, esp);
      FaultFrees(s, base, addrs, esp);
    }
  }

  lemma AffordableStep(linked: set<nat>, addrs: seq<uint32>, low: nat, clear: nat)
    requires addrs != [] && low <= clear
    ensures var d := addrs[0] / 0x40_0000;
            var k := if d in linked then 1 else 2;
            Affordable(linked, addrs, low, clear) <==>
            (if d in linked then clear >= 1 else low >= 2)
            && Affordable(linked + {d}, addrs[1..], Less(low, k), Less(clear, k))
  {
    var d := addrs[0] / 0x40_0000;
    if d in linked {
      assert linked + {d} == linked;
    }
  }

  /** A list of heap pages can be faulted in, one after the other, if and only if there are
      enough clear frames for it. */
  lemma {:induction false} FaultedInIff(s: Space, base: Frames, addrs: seq<uint32>, esp: uint32)
    requires Good(s, base) && WellFormed(s.frames) && Fresh(s.mem, addrs)
    ensures Returns(s, HeapFaults(addrs, esp)) <==>
            Affordable(Tables(s.mem).Keys, addrs, Low(s.frames), Clear(s.frames))
    decreases |addrs|
  {
    var events := HeapFaults(addrs, esp);
    if addrs == [] {
      assert Reaches(s, events, s);
    } else {
      assert events[0] == Fault(addrs[0], esp) && events[1..] == HeapFaults(addrs[1..], esp);
      LowIsClear(s.frames);
      FaultStep(s, base, addrs, esp);
      hide Good, Tables, Fresh, StepEvent, Possible, HeapFaults, Returns, Low, Clear, Affordable, Less, WellFormed;
      ReturnsCons(s, events);
      AffordableStep(Tables(s.mem).Keys, addrs, Low(s.frames), Clear(s.frames));
      if StepEvent(s, events[0]).0 == Running {
        FaultedInIff(StepEvent(s, events[0]).1, base, addrs[1..], esp);
      }
    }
  }

  lemma ReachesTail(s: Space, events: seq<Event>, s': Space)
    requires Reaches(s, events, s') && events != []
    ensures WellFormed(s.frames) && Possible(s, events[0]) && StepEvent(s, events[0]).0 == Running
    ensures Reaches(StepEvent(s, events[0]).1, events[1..], s')
  {
  }

  lemma HeapFaultsCons(addrs: seq<uint32>, esp: uint32)
    requires addrs != []
    ensures var events := HeapFaults(addrs, esp);
            events != [] && events[0] == Fault(addrs[0], esp) && events[1..] == HeapFaults(addrs[1..], esp)
  {
  }

  /** Afterwards every page of the list is mapped. */
  lemma {:induction false} FaultedInMaps(s: Space, base: Frames, addrs: seq<uint32>, esp: uint32, s': Space, i: nat)
    requires Good(s, base) && WellFormed(s.frames) && Fresh(s.mem, addrs) && i < |addrs|
    requires Reaches(s, HeapFaults(addrs, esp), s')
    ensures Walk(s'.mem, addrs[i]).Mapped?
    decreases |addrs|
  {
    hide Good, Fresh, StepEvent, Walk, Possible, HeapFaults, Low, Clear, DirEntry, Reaches, Tables, WellFormed;
    HeapFaultsCons(addrs, esp);
    ReachesTail(s, HeapFaults(addrs, esp), s');
    FaultStep(s, base, addrs, esp);
    FirstIsMapped(s, base, addrs, esp);
    var s1 := StepEvent(s, Fault(addrs[0], esp)).1;
    if i == 0 {
      MappedStays(s1, base, HeapFaults(addrs[1..], esp), s', addrs[0]);
    } else {
      FaultedInMaps(s1, base, addrs[1..], esp, s', i - 1);
    }
  }

  lemma FirstIsMapped(s: Space, base: Frames, addrs: seq<uint32>, esp: uint32)
    requires Good(s, base) && WellFormed(s.frames) && Fresh(s.mem, addrs) && addrs != []
    ensures Possible(s, Fault(addrs[0], esp)) && 0x40_0000 <= addrs[0]
    ensures var (status, s1) := StepEvent(s, Fault(addrs[0], esp));
            status == Running ==> Walk(s1.mem, addrs[0]).Mapped?
  {
    hide HandleFault, WalkPage;
    if HandleFault(s, addrs[0], esp).0 == Running {
      FaultProgress(s, base, addrs[0], esp);
    }
  }

  lemma MappedStays(s: Space, base: Frames, events: seq<Event>, s': Space, a: uint32)
    requires Good(s, base) && Reaches(s, events, s') && a >= 0x40_0000 && Walk(s.mem, a).Mapped?
    ensures Walk(s'.mem, a).Mapped?
  {
    PagesAt(s.mem, PageOf(a));
    PagesAt(s'.mem, PageOf(a));
    hide Good, Reaches, WalkPage, Pages;
    RunKeepsGood(s, base, events, s');
  }

  // ----- how much is enough -----

  function HeapTables(): set<nat> { {772, 773, 774, 775} }

  /** In any order: as many clear frames below 4 MByte as there are pages in the list, and one
      more for each of the four heap tables that is missing. */
  lemma {:induction false} AnyOrder(linked: set<nat>, addrs: seq<uint32>, low: nat, clear: nat)
    requires forall i :: 0 <= i < |addrs| ==> addrs[i] / 0x40_0000 in HeapTables()
    requires |addrs| + |HeapTables() - linked| <= low <= clear
    ensures Affordable(linked, addrs, low, clear)
    decreases |addrs|
  {
    if addrs != [] {
      var d := addrs[0] / 0x40_0000;
      hide HeapTables;
      AffordableStep(linked, addrs, low, clear);
      if d !in linked {
        assert HeapTables() - linked == (HeapTables() - (linked + {d})) + {d};
      } else {
        assert linked + {d} == linked;
      }
      AnyOrder(linked + {d}, addrs[1..], Less(low, if d in linked then 1 else 2), Less(clear, if d in linked then 1 else 2));
    }
  }

  /** Once the four tables are there: exactly one clear frame for each page. */
  lemma {:induction false} WithTables(linked: set<nat>, addrs: seq<uint32>, low: nat, clear: nat)
    requires HeapTables() <= linked && low <= clear
    requires forall i :: 0 <= i < |addrs| ==> addrs[i] / 0x40_0000 in HeapTables()
    ensures Affordable(linked, addrs, low, clear) <==> |addrs| <= clear
    decreases |addrs|
  {
    if addrs != [] {
      hide HeapTables;
      AffordableStep(linked, addrs, low, clear);
      assert linked + {addrs[0] / 0x40_0000} == linked;
      if clear >= 1 {
        WithTables(linked, addrs[1..], Less(low, 1), clear - 1);
      }
    }
  }

  /** If the first four pages of the list lie in the four different tables, eight low frames
      are enough for the tables, and one clear frame for each page and table. */
  lemma TablesFirst(linked: set<nat>, addrs: seq<uint32>, low: nat, clear: nat)
    requires linked !! HeapTables() && 8 <= low <= clear && |addrs| >= 4
    requires forall i :: 0 <= i < |addrs| ==> addrs[i] / 0x40_0000 in HeapTables()
    requires forall i :: 0 <= i < 4 ==> addrs[i] / 0x40_0000 == 772 + i
    ensures Affordable(linked, addrs, low, clear) <==> |addrs| + 4 <= clear
  {
    var rest := addrs[4..];
    hide Affordable;
    AffordableStep(linked, addrs, low, clear);
    AffordableStep(linked + {772}, addrs[1..], low - 2, clear - 2);
    AffordableStep(linked + {772} + {773}, addrs[2..], low - 4, clear - 4);
    AffordableStep(linked + {772} + {773} + {774}, addrs[3..], low - 6, clear - 6);
    assert addrs[1..][1..] == addrs[2..] && addrs[2..][1..] == addrs[3..] && addrs[3..][1..] == rest;
    WithTables(linked + {772} + {773} + {774} + {775}, rest, low - 8, clear - 8);
  }

  /** A table that the list needs only after `k` other pages costs two more low frames. */
  lemma {:induction false} LateTable(linked: set<nat>, addrs: seq<uint32>, low: nat, clear: nat, k: nat)
    requires k < |addrs| && low <= clear && addrs[k] / 0x40_0000 !in linked
    requires forall i :: 0 <= i < k ==> addrs[i] / 0x40_0000 != addrs[k] / 0x40_0000
    requires Affordable(linked, addrs, low, clear)
    ensures k + 2 <= low
    decreases |addrs|
  {
    AffordableStep(linked, addrs, low, clear);
    if k > 0 {
      var d := addrs[0] / 0x40_0000;
      var used := if d in linked then 1 else 2;
      hide Affordable;
      LateTable(linked + {d}, addrs[1..], Less(low, used), Less(clear, used), k - 1);
    }
  }

  /** Growing the heap page after page stops at 4 MByte, however much memory there is: the
      second table would have to lie below 4 MByte, where no clear frame is left. */
  lemma SequentialHeapHalts(s: Space, base: Frames, addrs: seq<uint32>, esp: uint32)
    requires Good(s, base) && WellFormed(s.frames) && Fresh(s.mem, addrs)
    requires 773 !in Tables(s.mem) && |addrs| >= 1025
    requires forall i :: 0 <= i < |addrs| ==> addrs[i] / 4096 == 0xC1000 + i
    ensures !Returns(s, HeapFaults(addrs, esp))
  {
    FaultedInIff(s, base, addrs, esp);
    LowIsClear(s.frames);
    assert addrs[1024] / 4096 == 0xC1400;
    SequentialTables(addrs);
    if Affordable(Tables(s.mem).Keys, addrs, Low(s.frames), Clear(s.frames)) {
      hide Affordable, Good, Tables, Fresh, Returns;
      LateTable(Tables(s.mem).Keys, addrs, Low(s.frames), Clear(s.frames), 1024);
    }
  }

  lemma SequentialTables(addrs: seq<uint32>)
    requires |addrs| >= 1025
    requires forall i :: 0 <= i < |addrs| ==> addrs[i] / 4096 == 0xC1000 + i
    ensures addrs[1024] / 0x40_0000 == 773
    ensures forall i :: 0 <= i < 1024 ==> addrs[i] / 0x40_0000 == 772
  {
    forall i | 0 <= i < 1024
      ensures addrs[i] / 0x40_0000 == 772
    {
      assert addrs[i] / 0x40_0000 == addrs[i] / 4096 / 1024;
    }
    assert addrs[1024] / 0x40_0000 == addrs[1024] / 4096 / 1024;
  }

  // ----- from boot -----

  /** Heap addresses on pairwise different pages. */
  ghost predicate HeapList(addrs: seq<uint32>) {
    && (forall i :: 0 <= i < |addrs| ==> 0xC100_0000 <= addrs[i] < 0xC200_0000)
    && (forall i, j :: 0 <= i < j < |addrs| ==> addrs[i] / 4096 != addrs[j] / 4096)
  }

  /** The clear frames that the boot leaves on a machine with one block of memory. */
  lemma ClearAfterBoot(regions: seq<Region>, m: nat, kernelStart: uint32, kernelEnd: uint32, mem: Memory)
    requires IsBlock(regions, 0, m) && 274 <= m && kernelEnd <= 0x10_0000
    ensures Bootable(regions, kernelEnd)
    ensures var (status, s) := BootSpace(regions, kernelStart, kernelEnd, mem);
            && status == Running && WellFormed(s.frames)
            && Clear(s.frames) == m - 274 && Low(s.frames) >= Min(1024, m) - 274
  {
    BlockBoots(regions, m, kernelStart, kernelEnd, mem);
    BlockBase(regions, 0, m, kernelStart, kernelEnd);
    BootTakesSixteen(regions, kernelStart, kernelEnd, mem);
    var base := PagingBase(regions, kernelStart, kernelEnd);
    assert FirstLeft(0, m) == 258;
    hide PagingBase, BootSpace, IsBlock, CountClear, FirstLeft;
    SuffixCount(base.bits, 258, m, m);
    SuffixCount(base.bits, 258, m, Min(1024, m));
  }

  lemma TablesAfterBoot(regions: seq<Region>, m: nat, kernelStart: uint32, kernelEnd: uint32, mem: Memory)
    requires IsBlock(regions, 0, m) && 274 <= m && kernelEnd <= 0x10_0000
    ensures Bootable(regions, kernelEnd)
    ensures var s := BootSpace(regions, kernelStart, kernelEnd, mem).1;
            Good(s, PagingBase(regions, kernelStart, kernelEnd)) && Tables(s.mem).Keys == {779}
  {
    BlockBoots(regions, m, kernelStart, kernelEnd, mem);
    hide PagingBase, BootSpace, Good, Tables, Pages;
    BootIsGood(regions, kernelStart, kernelEnd, mem);
  }

  lemma HeapIsFresh(s: Space, addrs: seq<uint32>)
    requires Tables(s.mem).Keys == {779} && HeapList(addrs)
    ensures Fresh(s.mem, addrs)
  {
    hide Tables, WalkPage;
    forall i | 0 <= i < |addrs|
      ensures Walk(s.mem, addrs[i]) == NotPresent
    {
      HeapIsAbsent(s, addrs[i]);
    }
  }

  lemma HeapAddressTable(addrs: seq<uint32>)
    requires HeapList(addrs)
    ensures forall i :: 0 <= i < |addrs| ==> addrs[i] / 0x40_0000 in HeapTables()
  {
  }

  lemma FourTablesMissing()
    ensures |HeapTables() - {779}| == 4
  {
    assert HeapTables() - {779} == HeapTables();
  }

  lemma AnyPagesFrom(s: Space, base: Frames, addrs: seq<uint32>, esp: uint32)
    requires Good(s, base) && WellFormed(s.frames) && Tables(s.mem).Keys == {779} && HeapList(addrs)
    requires |addrs| + 4 <= Low(s.frames)
    ensures Returns(s, HeapFaults(addrs, esp))
  {
    HeapIsFresh(s, addrs);
    HeapAddressTable(addrs);
    FaultedInIff(s, base, addrs, esp);
    LowIsClear(s.frames);
    hide Good, Tables, Fresh, HeapList, Low, Clear, Returns, Affordable, WellFormed, HeapFaults;
    FourTablesMissing();
    AnyOrder({779}, addrs, Low(s.frames), Clear(s.frames));
  }

  /** Any list of different heap pages can be faulted in, in any order, if the low frames
      left by the boot cover it and the four heap tables. */
  lemma AnyPagesReturn(regions: seq<Region>, m: nat, kernelStart: uint32, kernelEnd: uint32, mem: Memory, addrs: seq<uint32>, esp: uint32)
    requires IsBlock(regions, 0, m) && 274 <= m && kernelEnd <= 0x10_0000
    requires HeapList(addrs) && |addrs| + 4 <= Min(1024, m) - 274
    ensures Bootable(regions, kernelEnd)
    ensures Returns(BootSpace(regions, kernelStart, kernelEnd, mem).1, HeapFaults(addrs, esp))
  {
    ClearAfterBoot(regions, m, kernelStart, kernelEnd, mem);
    TablesAfterBoot(regions, m, kernelStart, kernelEnd, mem);
    hide PagingBase, BootSpace, IsBlock, Good, Tables, HeapList, Low, Clear, Returns, WellFormed, HeapFaults;
    AnyPagesFrom(BootSpace(regions, kernelStart, kernelEnd, mem).1, PagingBase(regions, kernelStart, kernelEnd), addrs, esp);
  }

  lemma TablesFirstFrom(s: Space, base: Frames, addrs: seq<uint32>, esp: uint32)
    requires Good(s, base) && WellFormed(s.frames) && Tables(s.mem).Keys == {779} && HeapList(addrs)
    requires |addrs| >= 4 && Low(s.frames) >= 8
    requires forall i :: 0 <= i < 4 ==> addrs[i] / 0x40_0000 == 772 + i
    ensures Returns(s, HeapFaults(addrs, esp)) <==> |addrs| + 4 <= Clear(s.frames)
  {
    HeapIsFresh(s, addrs);
    HeapAddressTable(addrs);
    FaultedInIff(s, base, addrs, esp);
    LowIsClear(s.frames);
    hide Good, Tables, Fresh, HeapList, Low, Clear, Returns, Affordable, WellFormed, HeapFaults;
    TablesFirst({779}, addrs, Low(s.frames), Clear(s.frames));
  }

  /** If the list begins with a page of each of the four tables, it can be faulted in if and
      only if memory has room for it, the tables, and what the boot takes. */
  lemma TablesFirstReturn(regions: seq<Region>, m: nat, kernelStart: uint32, kernelEnd: uint32, mem: Memory, addrs: seq<uint32>, esp: uint32)
    requires IsBlock(regions, 0, m) && 282 <= m && kernelEnd <= 0x10_0000
    requires HeapList(addrs) && |addrs| >= 4
    requires forall i :: 0 <= i < 4 ==> addrs[i] / 0x40_0000 == 772 + i
    ensures Bootable(regions, kernelEnd)
    ensures Returns(BootSpace(regions, kernelStart, kernelEnd, mem).1, HeapFaults(addrs, esp)) <==> m >= 274 + 4 + |addrs|
  {
    ClearAfterBoot(regions, m, kernelStart, kernelEnd, mem);
    TablesAfterBoot(regions, m, kernelStart, kernelEnd, mem);
    hide PagingBase, BootSpace, IsBlock, Good, Tables, HeapList, Low, Clear, Returns, WellFormed, HeapFaults;
    TablesFirstFrom(BootSpace(regions, kernelStart, kernelEnd, mem).1, PagingBase(regions, kernelStart, kernelEnd), addrs, esp);
  }

  /** Page `k` of the heap, the first page of each table before all others. */
  function HeapOrder(k: nat): uint32
    requires k < 4096
  {
    if k < 4 then 0xC100_0000 + k * 0x40_0000
    else 0xC100_0000 + (k - 4) / 1023 * 0x40_0000 + (1 + (k - 4) % 1023) * 4096
  }

  lemma HeapOrderParts(k: nat)
    requires k < 4096
    ensures var t, j := if k < 4 then k else (k - 4) / 1023, if k < 4 then 0 else 1 + (k - 4) % 1023;
            t < 4 && j < 1024 && HeapOrder(k) / 4096 == 0xC1000 + 1024 * t + j
  {
  }

  lemma HeapOrderIsList()
    ensures HeapList(seq(4096, k requires 0 <= k < 4096 => HeapOrder(k)))
  {
    var addrs := seq(4096, k requires 0 <= k < 4096 => HeapOrder(k));
    forall i | 0 <= i < 4096
      ensures 0xC100_0000 <= addrs[i] < 0xC200_0000
    {
      HeapOrderParts(i);
    }
    forall i, j | 0 <= i < j < 4096
      ensures addrs[i] / 4096 != addrs[j] / 4096
    {
      HeapOrderParts(i);
      HeapOrderParts(j);
    }
  }

  /** All 4096 pages of the heap can be mapped, given 4374 frames of memory: one order. */
  lemma WholeHeap(regions: seq<Region>, m: nat, kernelStart: uint32, kernelEnd: uint32, mem: Memory, esp: uint32)
    requires IsBlock(regions, 0, m) && 4374 <= m && kernelEnd <= 0x10_0000
    ensures Bootable(regions, kernelEnd)
    ensures var addrs := seq(4096, k requires 0 <= k < 4096 => HeapOrder(k));
            HeapList(addrs) && Returns(BootSpace(regions, kernelStart, kernelEnd, mem).1, HeapFaults(addrs, esp))
  {
    var addrs := seq(4096, k requires 0 <= k < 4096 => HeapOrder(k));
    HeapOrderIsList();
    assert forall i :: 0 <= i < 4 ==> addrs[i] / 0x40_0000 == 772 + i;
    hide HeapOrder, HeapList, BootSpace, HeapFaults, Returns, IsBlock;
    TablesFirstReturn(regions, m, kernelStart, kernelEnd, mem, addrs, esp);
  }

  /** Page after page from the start of the heap, no machine of this kind gets beyond 4 MByte. */
  lemma SequentialFromBoot(regions: seq<Region>, m: nat, kernelStart: uint32, kernelEnd: uint32, mem: Memory, addrs: seq<uint32>, esp: uint32)
    requires IsBlock(regions, 0, m) && 274 <= m && kernelEnd <= 0x10_0000
    requires HeapList(addrs) && |addrs| >= 1025
    requires forall i :: 0 <= i < |addrs| ==> addrs[i] / 4096 == 0xC1000 + i
    ensures Bootable(regions, kernelEnd)
    ensures !Returns(BootSpace(regions, kernelStart, kernelEnd, mem).1, HeapFaults(addrs, esp))
  {
    ClearAfterBoot(regions, m, kernelStart, kernelEnd, mem);
    TablesAfterBoot(regions, m, kernelStart, kernelEnd, mem);
    var s := BootSpace(regions, kernelStart, kernelEnd, mem).1;
    hide PagingBase, BootSpace, IsBlock, Good, Tables, Fresh, HeapList, Low, Clear, Returns, WellFormed;
    HeapIsFresh(s, addrs);
    assert 773 !in Tables(s.mem).Keys;
    SequentialHeapHalts(s, PagingBase(regions, kernelStart, kernelEnd), addrs, esp);
  }
}
