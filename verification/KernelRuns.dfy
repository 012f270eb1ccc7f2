/** Runs of the booted kernel: page faults handled as in kernel/memory/page_fault.c,
    interleaved with stores of the running program to mapped pages. */
module KernelRuns {
  import opened Bits
  import opened FrameTable
  import opened FrameTheorems
  import opened PageWalk
  import opened PageTheorems
  import opened DemandPaging

  // ----- the handler -----

  predicate InGuardPage(a: uint32) { KERNEL_STACK_BOTTOM <= a < KERNEL_STACK_BOTTOM + PAGE_SIZE }

  predicate InHeap(a: uint32) { KERNEL_HEAP_START <= a < KERNEL_HEAP_END }

  predicate InStack(a: uint32) { KERNEL_STACK_BOTTOM + PAGE_SIZE <= a < KERNEL_STACK_TOP }

  /** Within the growth gap below the stack pointer, in 32-bit arithmetic. */
  predicate NearStackPointer(a: uint32, esp: uint32) {
    Wrap32(esp - STACK_GROWTH_GAP) <= a < esp
  }

  /** `page_fault_handler` for a fault at `a`: the guard-page branch stores 123 at virtual
      address 0 and then halts; heap and near-stack faults map a page; all others halt. */
  function HandleFault(s: Space, a: uint32, esp: uint32): (Status, Space)
    requires WellFormed(s.frames)
  {
    if InGuardPage(a) then (Halted(StackOverflow), s.(mem := SetEntry(s.mem, 0, 0, 123)))
    else if InHeap(a) then DemandMap(s, a)
    else if InStack(a) && NearStackPointer(a, esp) then DemandMap(s, a)
    else (Halted(Unhandled), s)
  }

  /** The growth gap in plain arithmetic: 1 to 32 bytes below a stack pointer that is at
      least 32; a smaller stack pointer wraps and no address is near it. */
  lemma StackGrowthGap(a: uint32, esp: uint32)
    ensures NearStackPointer(a, esp) <==> esp >= STACK_GROWTH_GAP && 1 <= esp - a <= STACK_GROWTH_GAP
  {
    if esp < STACK_GROWTH_GAP {
      assert Wrap32(esp - STACK_GROWTH_GAP) == esp - STACK_GROWTH_GAP + TWO_32;
    }
  }

  /** Exactly how the handler ends, for every address and every state of the tables: a stack
      overflow in the guard page; a mapped page in the heap, and in the stack within 32 bytes
      below the stack pointer, as far as clear frames go; otherwise an unhandled fault. */
  lemma FaultOutcome(s: Space, a: uint32, esp: uint32)
    requires WellFormed(s.frames)
    ensures var clear := CountClear(s.frames.bits, 1, s.frames.total);
            var low := CountClear(s.frames.bits, 1, Min(1024, s.frames.total));
            var linked := Present(DirEntry(s.mem, a / 0x40_0000));
            var maps := 0xC100_0000 <= a < 0xC200_0000
                        || (0xC2FF_1000 <= a < 0xC300_0000 && esp >= 32 && 1 <= esp - a <= 32);
            HandleFault(s, a, esp).0 ==
            if 0xC2FF_0000 <= a < 0xC2FF_1000 then Halted(StackOverflow)
            else if !maps then Halted(Unhandled)
            else if linked then (if clear >= 1 then Running else Halted(OutOfMemory))
            else if low >= 2 then Running
            else if clear >= 2 then Halted(TableUnreachable)
            else Halted(OutOfMemory)
  {
    StackGrowthGap(a, esp);
    DemandMapOutcome(s, a);
    CountSplitLow(s.frames);
    hide DemandMap, CountClear, NearStackPointer;
  }

  /** What a fault that maps no page leaves behind: the allocator as it was, and memory as it
      was but for the word that the guard page branch stores. */
  lemma HaltingFaultEffect(s: Space, a: uint32, esp: uint32)
    requires WellFormed(s.frames) && !(0xC100_0000 <= a < 0xC200_0000)
    requires !(0xC2FF_1000 <= a < 0xC300_0000 && esp >= 32 && 1 <= esp - a <= 32)
    ensures HandleFault(s, a, esp).1.frames == s.frames
    ensures HandleFault(s, a, esp).1.mem == if 0xC2FF_0000 <= a < 0xC2FF_1000 then s.mem[0 := 123] else s.mem
  {
    StackGrowthGap(a, esp);
  }

  // ----- program accesses -----

  /** The word offset of an address within its page. */
  function WordIndex(a: uint32): (i: nat)
    ensures i < ENTRIES
  {
    a % PAGE_SIZE / 4
  }

  /** The address of entry `i` in frame `f`. */
  lemma EntryAddress(f: nat, i: nat)
    requires f < PAGES && i < ENTRIES
    ensures var a := f * PAGE_SIZE + 4 * i;
            a < TWO_32 && a % 4 == 0 && PageOf(a) == f && WordIndex(a) == i
            && (f < WINDOW_FRAMES ==> a < 0x40_0000)
  {
  }

  function Load(m: Memory, a: uint32): uint32
    requires Walk(m, a).Mapped?
  {
    Entry(m, Walk(m, a).frame, WordIndex(a))
  }

  function Store(m: Memory, a: uint32, x: uint32): Memory
    requires Walk(m, a).Mapped?
  {
    SetEntry(m, Walk(m, a).frame, WordIndex(a), x)
  }

  // ----- events and runs -----

  datatype Event = Fault(address: uint32, esp: uint32) | StoreWord(address: uint32, value: uint32)

  /** The processor faults only on absent pages; the program stores aligned words to
      mapped pages above the identity window. */
  predicate Possible(s: Space, e: Event) {
    match e
    case Fault(a, _) => Walk(s.mem, a) == NotPresent
    case StoreWord(a, _) => a >= 0x40_0000 && a % 4 == 0 && Walk(s.mem, a).Mapped?
  }

  function StepEvent(s: Space, e: Event): (Status, Space)
    requires WellFormed(s.frames) && Possible(s, e)
  {
    match e
    case Fault(a, esp) => HandleFault(s, a, esp)
    case StoreWord(a, x) => (Running, s.(mem := Store(s.mem, a, x)))
  }

  /** `s` goes to `s'` through `events`, every one of them possible when it happens and
      none of them halting. */
  ghost predicate Reaches(s: Space, events: seq<Event>, s': Space)
    decreases |events|
  {
    if events == [] then s == s'
    else
      && WellFormed(s.frames) && Possible(s, events[0])
      && StepEvent(s, events[0]).0 == Running
      && Reaches(StepEvent(s, events[0]).1, events[1..], s')
  }

  function Faults(events: seq<Event>): nat {
    if events == [] then 0 else (if events[0].Fault? then 1 else 0) + Faults(events[1..])
  }

  // ----- the invariant of the running kernel -----

  predicate HeapPage(p: nat) { KERNEL_HEAP_START / PAGE_SIZE <= p < KERNEL_HEAP_END / PAGE_SIZE }

  predicate StackPage(p: nat) { KERNEL_STACK_BOTTOM / PAGE_SIZE < p < KERNEL_STACK_TOP / PAGE_SIZE }

  const HEAP_PAGES := 4096
  const STACK_PAGES := 15

  /** All stack pages but the guard page are mapped, and nothing else outside the heap. */
  ghost predicate Confined(pages: map<nat, nat>) {
    && (forall p :: p in pages ==> HeapPage(p) || StackPage(p))
    && (forall p :: StackPage(p) ==> p in pages)
  }

  ghost predicate Good(s: Space, base: Frames) {
    Inv(s, base) && Confined(Pages(s.mem))
  }

  lemma PageKinds(a: uint32)
    ensures InHeap(a) <==> HeapPage(PageOf(a))
    ensures InStack(a) <==> StackPage(PageOf(a))
    ensures InGuardPage(a) <==> PageOf(a) == KERNEL_STACK_BOTTOM / PAGE_SIZE
  {
  }

  /** The guard page is absent and the stack pages are present, so the stack-growth branch
      is never taken: a fault either maps a heap page or halts the kernel. */
  lemma OnlyHeapFaultsReturn(s: Space, base: Frames, a: uint32, esp: uint32)
    requires Good(s, base) && Walk(s.mem, a) == NotPresent
    ensures !InStack(a)
    ensures HandleFault(s, a, esp).0 == Running ==> InHeap(a) && HandleFault(s, a, esp) == DemandMap(s, a)
    ensures InGuardPage(a) ==> HandleFault(s, a, esp).0 == Halted(StackOverflow)
    ensures Walk(s.mem, KERNEL_STACK_BOTTOM) == NotPresent
  {
    PageKinds(a);
    PageKinds(KERNEL_STACK_BOTTOM);
    assert PageOf(a) in Pages(s.mem) <==> ENTRIES <= PageOf(a) && Walk(s.mem, a).Mapped?;
    assert KERNEL_STACK_BOTTOM / PAGE_SIZE !in Pages(s.mem);
  }

  /** The store of the guard-page branch, meant to raise a double fault, succeeds: address 0
      is mapped and writable.  It overwrites the first word of memory and no translation. */
  lemma GuardFaultOverwritesWordZero(s: Space, base: Frames, a: uint32, esp: uint32)
    requires Good(s, base) && InGuardPage(a)
    ensures Walk(s.mem, 0) == Mapped(0, 7, 3) && Walk(s.mem, 0).Writable()
    ensures var m' := HandleFault(s, a, esp).1.mem;
            && m' == Store(s.mem, 0, 123)
            && (forall g, j :: 0 <= g < PAGES && 0 <= j < ENTRIES && (g != 0 || j != 0) ==> Entry(m', g, j) == Entry(s.mem, g, j))
            && (forall w: uint32 :: Walk(m', w) == Walk(s.mem, w))
  {
    WindowTranslatesToItself(s.mem, 0);
    var m' := HandleFault(s, a, esp).1.mem;
    forall i | 0 <= i < ENTRIES && Present(DirEntry(s.mem, i))
      ensures FrameOf(DirEntry(s.mem, i)) >= 1
    {
      TableIsUsed(s, base, Pages(s.mem), i);
      FirstDirEntryOfWindow(s.mem);
    }
    assert forall i :: 0 <= i < ENTRIES ==> DirEntry(m', i) == DirEntry(s.mem, i);
  }

  lemma FirstDirEntryOfWindow(m: Memory)
    requires IdentityWindow(m)
    ensures FrameOf(DirEntry(m, 0)) == FIRST_TABLE_FRAME
  {
    FirstDirEntry(DirEntry(m, 0));
  }

  /** Fault progress: a fault that returns was in the heap; its page now maps, present and
      writable, to a frame that was clear; every earlier translation is kept; and
      `used_frames` grew by one, or by two exactly when the directory entry was absent. */
  lemma FaultProgress(s: Space, base: Frames, a: uint32, esp: uint32)
    requires Good(s, base) && Walk(s.mem, a) == NotPresent
    requires HandleFault(s, a, esp).0 == Running
    ensures var s' := HandleFault(s, a, esp).1;
            && Good(s', base)
            && Walk(s'.mem, a).Mapped? && Walk(s'.mem, a).Writable() && !Walk(s'.mem, a).UserAccess()
            && Walk(s'.mem, a).frame < |s.frames.bits| && !s.frames.bits[Walk(s'.mem, a).frame]
            && (forall w: uint32 :: PageOf(w) != PageOf(a) ==> Walk(s'.mem, w) == Walk(s.mem, w))
            && s'.frames.used == s.frames.used + if Present(DirEntry(s.mem, DirIndex(a))) then 1 else 2
  {
    OnlyHeapFaultsReturn(s, base, a, esp);
    HeapMappingKeepsGood(s, base, a);
    assert Inv(s, base);
    hide Inv, DemandMap, WalkPage, Good, HandleFault;
    DemandMapKeepsOthers(s, base, a);
    DemandMapCounts(s, base, a);
    PageIsNew(s, base, a);
  }

  lemma HeapMappingKeepsGood(s: Space, base: Frames, a: uint32)
    requires Good(s, base) && Walk(s.mem, a) == NotPresent && InHeap(a)
    requires WellFormed(s.frames) && DemandMap(s, a).0 == Running
    ensures Good(DemandMap(s, a).1, base)
  {
    PageKinds(a);
    assert Inv(s, base);
    hide Inv, DemandMap, WalkPage, Pages, Alloc;
    DemandMapKeepsInv(s, base, a);
  }

  lemma DemandMapCounts(s: Space, base: Frames, v: uint32)
    requires Inv(s, base) && DemandMap(s, v).0 == Running
    ensures DemandMap(s, v).1.frames.used == s.frames.used + if Present(DirEntry(s.mem, DirIndex(v))) then 1 else 2
  {
    AllocConserves(s.frames);
    AllocConserves(Alloc(s.frames).1);
  }

  lemma PagesAt(m: Memory, p: nat)
    requires p < PAGES
    ensures p in Pages(m) <==> ENTRIES <= p && WalkPage(m, p).Mapped?
    ensures p in Pages(m) ==> Pages(m)[p] == WalkPage(m, p).frame
  {
  }

  lemma AllocWasClear(p: Frames)
    requires WellFormed(p) && Alloc(p).0.Some?
    ensures Alloc(p).0.value < |p.bits| && !p.bits[Alloc(p).0.value]
  {
  }

  lemma PageIsNew(s: Space, base: Frames, v: uint32)
    requires Inv(s, base) && v >= 0x40_0000 && Walk(s.mem, v) == NotPresent
    requires DemandMap(s, v).0 == Running
    ensures var t := Walk(DemandMap(s, v).1.mem, v);
            && t.Mapped? && t.Writable() && !t.UserAccess()
            && t.frame < |s.frames.bits| && !s.frames.bits[t.frame]
  {
    assert WellFormed(s.frames);
    hide Inv, DemandMap, WalkPage, Pages, Alloc;
    DemandMapKeepsInv(s, base, v);
    var s' := DemandMap(s, v).1;
    PagesAt(s'.mem, PageOf(v));
    AllocWasClear(s.frames);
    assert PageOf(v) in Pages(s'.mem);
    PageFrameIsOwn(s', base, PageOf(v));
    assert Pages(s'.mem)[PageOf(v)] == Alloc(s.frames).0.value;
  }

  lemma DemandMapKeepsOthers(s: Space, base: Frames, v: uint32)
    requires Inv(s, base) && v >= 0x40_0000 && Walk(s.mem, v) == NotPresent
    requires DemandMap(s, v).0 == Running
    ensures forall w: uint32 :: PageOf(w) != PageOf(v) ==> Walk(DemandMap(s, v).1.mem, w) == Walk(s.mem, w)
  {
    var (f, frames) := Alloc(s.frames);
    var s1 := s.(frames := frames);
    OwnPage(s.frames, base, Tables(s.mem), Pages(s.mem), PageOf(v));
    InvTablesSound(s1, base, Pages(s.mem)[PageOf(v) := f.value]);
    MapPageUpdatesOneTranslation(s1, v, f.value * PAGE_SIZE, 3);
  }

  /** The handler does not ask whether the faulting page is absent.  Demand mapping keeps
      the invariant if and only if it is: remapping a present page loses a frame, which
      stays counted as used and is owned by nobody.  Such a fault is not `Possible` in a run. */
  lemma RemappingLosesFrame(s: Space, base: Frames, v: uint32)
    requires Inv(s, base) && v >= 0x40_0000 && DemandMap(s, v).0 == Running
    ensures Inv(DemandMap(s, v).1, base) <==> Walk(s.mem, v) == NotPresent
  {
    if Walk(s.mem, v) == NotPresent {
      DemandMapKeepsInv(s, base, v);
    } else {
      var s' := DemandMap(s, v).1;
      RemapCounts(s, base, v);
      DemandMapCounts(s, base, v);
      assert s'.frames.used != base.used + |Tables(s'.mem)| + |Pages(s'.mem)|;
    }
  }

  lemma RemapCounts(s: Space, base: Frames, v: uint32)
    requires Inv(s, base) && v >= 0x40_0000 && DemandMap(s, v).0 == Running
    requires Walk(s.mem, v).Mapped?
    ensures var m' := DemandMap(s, v).1.mem;
            Present(DirEntry(s.mem, DirIndex(v))) && |Pages(m')| == |Pages(s.mem)| && Tables(m') == Tables(s.mem)
  {
    var (f, frames) := Alloc(s.frames);
    var s1 := s.(frames := frames);
    InvTablesSound(s, base, Pages(s.mem));
    assert TablesSound(s1);
    MapUpdatesPages(s1, v, f.value);
    MapUpdatesTables(s1, v, f.value);
    PagesAt(s.mem, PageOf(v));
    hide Inv, DemandMap, Pages, Tables, WalkPage;
    ReplaceKeepsSize(Pages(s.mem), PageOf(v), f.value);
  }

  lemma ReplaceKeepsSize(m: map<nat, nat>, k: nat, f: nat)
    requires k in m
    ensures |m[k := f]| == |m|
  {
    assert m[k := f].Keys == m.Keys;
  }

  // ----- stores -----

  /** A store to a high page changes no table, hence no translation. */
  lemma StoreKeepsTables(s: Space, base: Frames, a: uint32, x: uint32)
    requires Inv(s, base) && Possible(s, StoreWord(a, x))
    ensures var m' := Store(s.mem, a, x);
            && (forall i :: 0 <= i < ENTRIES ==> DirEntry(m', i) == DirEntry(s.mem, i))
            && (forall i, j :: 0 <= i < ENTRIES && Present(DirEntry(s.mem, i)) && 0 <= j < ENTRIES ==>
                  Entry(m', FrameOf(DirEntry(s.mem, i)), j) == Entry(s.mem, FrameOf(DirEntry(s.mem, i)), j))
            && (forall p :: 0 <= p < PAGES ==> WalkPage(m', p) == WalkPage(s.mem, p))
  {
    PageFrameIsOwn(s, base, PageOf(a));
    PageFrameIsUnshared(s, base, PageOf(a));
  }

  lemma StoreKeepsShape(s: Space, base: Frames, a: uint32, x: uint32)
    requires Inv(s, base) && Possible(s, StoreWord(a, x))
    ensures IdentityWindow(Store(s.mem, a, x)) && KernelEntries(Store(s.mem, a, x))
  {
    StoreKeepsTables(s, base, a, x);
    PageFrameIsOwn(s, base, PageOf(a));
  }

  lemma StoreKeepsGood(s: Space, base: Frames, a: uint32, x: uint32)
    requires Good(s, base) && Possible(s, StoreWord(a, x))
    ensures Good(s.(mem := Store(s.mem, a, x)), base)
    ensures Pages(Store(s.mem, a, x)) == Pages(s.mem)
  {
    StoreKeepsTables(s, base, a, x);
    StoreKeepsShape(s, base, a, x);
    assert Tables(Store(s.mem, a, x)) == Tables(s.mem);
    assert Pages(Store(s.mem, a, x)) == Pages(s.mem);
  }

  // ----- whole runs -----

  /** Every page of `pages` is kept by `grown`. */
  ghost predicate Keeps(pages: map<nat, nat>, grown: map<nat, nat>) {
    forall p :: p in pages ==> p in grown && grown[p] == pages[p]
  }

  /** A returned fault adds exactly the faulting page. */
  lemma FaultAddsPage(s: Space, base: Frames, a: uint32, esp: uint32)
    requires Good(s, base) && Walk(s.mem, a) == NotPresent
    requires HandleFault(s, a, esp).0 == Running
    ensures var before, after := Pages(s.mem), Pages(HandleFault(s, a, esp).1.mem);
            |after| == |before| + 1 && Keeps(before, after)
  {
    hide Good, Inv, Pages, DemandMap, WalkPage, Alloc;
    GoodParts(s, base, a);
    OnlyHeapFaultsReturn(s, base, a, esp);
    DemandMapKeepsInv(s, base, a);
    InsertKeeps(Pages(s.mem), PageOf(a), Alloc(s.frames).0.value);
  }

  lemma GoodParts(s: Space, base: Frames, a: uint32)
    requires Good(s, base)
    ensures Inv(s, base) && WellFormed(s.frames) && IdentityWindow(s.mem)
    ensures Walk(s.mem, a) == NotPresent ==> PageOf(a) !in Pages(s.mem)
    ensures forall p :: p in Pages(s.mem) ==> HeapPage(p) || StackPage(p)
  {
  }

  lemma InsertKeeps(pages: map<nat, nat>, p: nat, f: nat)
    requires p !in pages
    ensures Keeps(pages, pages[p := f]) && |pages[p := f]| == |pages| + 1
  {
    ValuesAfterInsert(pages, p, f);
  }

  lemma StepKeepsGood(s: Space, base: Frames, e: Event)
    requires WellFormed(s.frames) && Good(s, base) && Possible(s, e) && StepEvent(s, e).0 == Running
    ensures var s' := StepEvent(s, e).1;
            && Good(s', base) && Keeps(Pages(s.mem), Pages(s'.mem))
            && |Pages(s'.mem)| == |Pages(s.mem)| + (if e.Fault? then 1 else 0)
  {
    hide Good, HandleFault, Pages, WalkPage, WellFormed;
    match e
    case Fault(a, esp) =>
      FaultProgress(s, base, a, esp);
      FaultAddsPage(s, base, a, esp);
    case StoreWord(a, x) =>
      StoreKeepsGood(s, base, a, x);
  }

  /** Whole-run safety: through any sequence of absent-page faults and program stores, the
      invariant holds, mapped pages keep their frames, and each returned fault added one page. */
  lemma {:induction false} RunKeepsGood(s: Space, base: Frames, events: seq<Event>, s': Space)
    requires Good(s, base) && Reaches(s, events, s')
    ensures Good(s', base)
    ensures |Pages(s'.mem)| == |Pages(s.mem)| + Faults(events)
    ensures Keeps(Pages(s.mem), Pages(s'.mem))
    decreases |events|
  {
    hide Good, Pages;
    if events != [] {
      StepKeepsGood(s, base, events[0]);
      RunKeepsGood(StepEvent(s, events[0]).1, base, events[1..], s');
    }
  }

  function Range(lo: nat, hi: nat): (r: set<nat>)
    ensures forall p :: p in r <==> lo <= p < hi
  {
    if lo >= hi then {} else Range(lo, hi - 1) + {hi - 1}
  }

  lemma {:induction false} RangeCardinality(lo: nat, hi: nat)
    requires lo <= hi
    ensures |Range(lo, hi)| == hi - lo
  {
    if lo < hi {
      RangeCardinality(lo, hi - 1);
    }
  }

  lemma SubsetCardinality(a: set<nat>, b: set<nat>)
    requires a <= b
    ensures |a| <= |b|
  {
    assert b == a + (b - a);
  }

  lemma ConfinedCardinality(pages: map<nat, nat>)
    requires Confined(pages)
    ensures STACK_PAGES <= |pages| <= STACK_PAGES + HEAP_PAGES
  {
    var stack := Range(KERNEL_STACK_BOTTOM / PAGE_SIZE + 1, KERNEL_STACK_TOP / PAGE_SIZE);
    RangeCardinality(KERNEL_STACK_BOTTOM / PAGE_SIZE + 1, KERNEL_STACK_TOP / PAGE_SIZE);
    SubsetCardinality(stack, pages.Keys);
    assert |pages| == |pages.Keys|;
    PagesAreFew(pages);
  }

  /** At most 4096 faults can ever return, minus the heap pages mapped at the start. */
  lemma FaultsAreBounded(s: Space, base: Frames, events: seq<Event>, s': Space)
    requires Good(s, base) && Reaches(s, events, s')
    ensures Faults(events) <= HEAP_PAGES - (|Pages(s.mem)| - STACK_PAGES)
  {
    RunKeepsGood(s, base, events, s');
    ConfinedCardinality(Pages(s'.mem));
  }

  // ----- the heap is memory -----

  /** The words last stored through a run, on top of those known before it. */
  function Written(known: map<uint32, uint32>, events: seq<Event>): map<uint32, uint32>
    decreases |events|
  {
    if events == [] then known
    else
      Written(match events[0]
              case StoreWord(a, x) => known[a := x]
              case Fault(_, _) => known, events[1..])
  }

  /** Every known word can be loaded back. */
  ghost predicate Holds(m: Memory, known: map<uint32, uint32>) {
    forall a :: a in known ==> a >= 0x40_0000 && a % 4 == 0 && Walk(m, a).Mapped? && Load(m, a) == known[a]
  }

  lemma StoreHolds(s: Space, base: Frames, a: uint32, x: uint32, known: map<uint32, uint32>)
    requires Good(s, base) && Possible(s, StoreWord(a, x)) && Holds(s.mem, known)
    ensures Holds(Store(s.mem, a, x), known[a := x])
  {
    var m' := Store(s.mem, a, x);
    StoreKeepsTables(s, base, a, x);
    PageFrameIsUnshared(s, base, PageOf(a));
    forall b | b in known[a := x]
      ensures b >= 0x40_0000 && b % 4 == 0 && Walk(m', b).Mapped? && Load(m', b) == known[a := x][b]
    {
      assert Walk(m', b) == Walk(s.mem, b);
      if b != a {
        WordsDiffer(a, b);
      }
    }
  }

  lemma WordsDiffer(a: uint32, b: uint32)
    requires a % 4 == 0 && b % 4 == 0 && a != b
    ensures PageOf(a) != PageOf(b) || WordIndex(a) != WordIndex(b)
  {
  }

  /** Handling a fault leaves the words of mapped pages alone: it writes only the directory
      and a page table. */
  lemma FaultHolds(s: Space, base: Frames, a: uint32, esp: uint32, known: map<uint32, uint32>)
    requires Good(s, base) && Possible(s, Fault(a, esp)) && Holds(s.mem, known)
    requires HandleFault(s, a, esp).0 == Running
    ensures Holds(HandleFault(s, a, esp).1.mem, known)
  {
    var m' := HandleFault(s, a, esp).1.mem;
    OnlyHeapFaultsReturn(s, base, a, esp);
    DemandMapKeepsOthers(s, base, a);
    forall b | b in known
      ensures Walk(m', b) == Walk(s.mem, b) && Load(m', b) == Load(s.mem, b)
    {
      assert PageOf(b) != PageOf(a);
      DemandMapKeepsWord(s, base, a, PageOf(b), WordIndex(b));
    }
  }

  lemma DemandMapKeepsWord(s: Space, base: Frames, v: uint32, p: nat, i: nat)
    requires Inv(s, base) && v >= 0x40_0000 && Walk(s.mem, v) == NotPresent
    requires DemandMap(s, v).0 == Running
    requires ENTRIES <= p < PAGES && WalkPage(s.mem, p).Mapped? && i < ENTRIES
    ensures var f := WalkPage(s.mem, p).frame;
            Entry(DemandMap(s, v).1.mem, f, i) == Entry(s.mem, f, i)
  {
    var (q, frames) := Alloc(s.frames);
    var s1 := s.(frames := frames);
    OwnPage(s.frames, base, Tables(s.mem), Pages(s.mem), PageOf(v));
    InvTablesSound(s1, base, Pages(s.mem)[PageOf(v) := q.value]);
    MapFootprint(s1, v, q.value);
    PageFrameIsOwn(s, base, p);
    TargetIsNoPage(s, base, v, p);
  }

  /** The table written by demand mapping is not the frame of any mapped page. */
  lemma TargetIsNoPage(s: Space, base: Frames, v: uint32, p: nat)
    requires Inv(s, base) && DemandMap(s, v).0 == Running
    requires ENTRIES <= p < PAGES && WalkPage(s.mem, p).Mapped?
    ensures TargetTable(s.(frames := Alloc(s.frames).1), v) != WalkPage(s.mem, p).frame
  {
    PageFrameIsOwn(s, base, p);
    PageFrameIsUnshared(s, base, p);
    assert WellFormed(s.frames);
    AllocFromUsed(s.frames);
    hide Inv, WalkPage, Alloc, WellFormed;
  }

  /** Two allocations in a row: the second takes a frame that was clear before the first. */
  lemma AllocFromUsed(p: Frames)
    requires WellFormed(p)
    ensures WellFormed(Alloc(p).1)
    ensures var q := Alloc(p).1;
            Alloc(q).0.Some? ==> Alloc(q).0.value < |p.bits| && !p.bits[Alloc(q).0.value]
  {
  }

  /** The demand-paged address space behaves as memory: after any run, every word the
      program stored is still there, whatever was faulted in since. */
  lemma {:induction false} HeapIsMemory(s: Space, base: Frames, events: seq<Event>, s': Space, known: map<uint32, uint32>)
    requires Good(s, base) && Reaches(s, events, s') && Holds(s.mem, known)
    ensures Holds(s'.mem, Written(known, events))
    decreases |events|
  {
    hide Good, Pages, HandleFault;
    if events != [] {
      StepKeepsGood(s, base, events[0]);
      match events[0] {
        case StoreWord(a, x) =>
          StoreHolds(s, base, a, x, known);
          HeapIsMemory(StepEvent(s, events[0]).1, base, events[1..], s', known[a := x]);
        case Fault(a, esp) =>
          FaultHolds(s, base, a, esp, known);
          HeapIsMemory(StepEvent(s, events[0]).1, base, events[1..], s', known);
      }
    }
  }

  // ----- what no run writes -----

  /** Neither the page directory nor a frame that was clear when paging was switched on. */
  predicate Untouched(base: Frames, f: nat) {
    f < PAGES && f != DIR_FRAME && (f < |base.bits| ==> base.bits[f])
  }

  lemma StoreKeepsFrame(s: Space, base: Frames, a: uint32, x: uint32, f: nat, i: nat)
    requires Inv(s, base) && Possible(s, StoreWord(a, x)) && Untouched(base, f) && i < ENTRIES
    ensures Entry(Store(s.mem, a, x), f, i) == Entry(s.mem, f, i)
  {
    PageFrameIsOwn(s, base, PageOf(a));
  }

  /** The table that demand mapping writes was clear when paging was switched on. */
  lemma TargetWasClear(s: Space, base: Frames, v: uint32)
    requires Inv(s, base) && v >= 0x40_0000 && DemandMap(s, v).0 == Running
    ensures var t := TargetTable(s.(frames := Alloc(s.frames).1), v);
            t < |base.bits| && !base.bits[t]
  {
    var i := DirIndex(v);
    assert 1 <= i < ENTRIES;
    if Present(DirEntry(s.mem, i)) {
      assert i in Tables(s.mem);
    }
  }

  lemma DemandMapKeepsFrame(s: Space, base: Frames, v: uint32, f: nat, i: nat)
    requires Inv(s, base) && v >= 0x40_0000 && Walk(s.mem, v) == NotPresent
    requires DemandMap(s, v).0 == Running && Untouched(base, f) && i < ENTRIES
    ensures Entry(DemandMap(s, v).1.mem, f, i) == Entry(s.mem, f, i)
  {
    var (q, frames) := Alloc(s.frames);
    var s1 := s.(frames := frames);
    OwnPage(s.frames, base, Tables(s.mem), Pages(s.mem), PageOf(v));
    InvTablesSound(s1, base, Pages(s.mem)[PageOf(v) := q.value]);
    TargetWasClear(s, base, v);
    MapFootprint(s1, v, q.value);
  }

  /** No run writes a frame that was in use when paging was switched on, except the page
      directory: not the kernel image, the frame bitmap or video memory, for instance. */
  lemma {:induction false} RunKeepsFrame(s: Space, base: Frames, events: seq<Event>, s': Space, f: nat, i: nat)
    requires Good(s, base) && Reaches(s, events, s') && Untouched(base, f) && i < ENTRIES
    ensures Entry(s'.mem, f, i) == Entry(s.mem, f, i)
    decreases |events|
  {
    if events != [] {
      StepKeepsGood(s, base, events[0]);
      match events[0] {
        case StoreWord(a, x) =>
          GoodParts(s, base, a);
          StoreKeepsFrame(s, base, a, x, f, i);
        case Fault(a, esp) =>
          GoodParts(s, base, a);
          OnlyHeapFaultsReturn(s, base, a, esp);
          DemandMapKeepsFrame(s, base, a, f, i);
      }
      hide Good, HandleFault, Untouched, Store, Possible, DemandMap;
      RunKeepsFrame(StepEvent(s, events[0]).1, base, events[1..], s', f, i);
    }
  }

  // ----- tables outside the identity window -----

  /** Reservations and trial allocations took at most half of the 2^20 frames. */
  predicate FewReserved(base: Frames) { base.used <= 0x8_0000 }

  lemma TablesAreFew(m: Memory)
    ensures |Tables(m)| < ENTRIES
  {
    RangeCardinality(1, ENTRIES);
    assert |Tables(m)| == |Tables(m).Keys|;
    SubsetCardinality(Tables(m).Keys, Range(1, ENTRIES));
  }

  lemma PagesAreFew(pages: map<nat, nat>)
    requires forall p :: p in pages ==> HeapPage(p) || StackPage(p)
    ensures |pages| <= STACK_PAGES + HEAP_PAGES
  {
    var heap := Range(KERNEL_HEAP_START / PAGE_SIZE, KERNEL_HEAP_END / PAGE_SIZE);
    var stack := Range(KERNEL_STACK_BOTTOM / PAGE_SIZE + 1, KERNEL_STACK_TOP / PAGE_SIZE);
    RangeCardinality(KERNEL_HEAP_START / PAGE_SIZE, KERNEL_HEAP_END / PAGE_SIZE);
    RangeCardinality(KERNEL_STACK_BOTTOM / PAGE_SIZE + 1, KERNEL_STACK_TOP / PAGE_SIZE);
    assert |pages| == |pages.Keys|;
    SubsetCardinality(pages.Keys, heap + stack);
    assert |heap + stack| <= |heap| + |stack|;
  }

  /** First fit hands out no frame above the middle of the frames while few are in use. */
  lemma FirstFitIsLow(p: Frames)
    requires Conserved(p) && Alloc(p).0.Some?
    ensures 2 * Alloc(p).0.value <= p.maxIdx + p.used
  {
    var f := Alloc(p).0.value;
    CountSplit(p.bits, 0, 1, p.maxIdx);
    CountSplit(p.bits, 1, f, p.maxIdx);
    CountZero(p.bits, 1, f);
  }

  /** A new table outside the identity window is itself not mapped, and the fault that the
      first store to it raises is one the handler only halts on. */
  lemma TableFaultHalts(s: Space, base: Frames, pages: map<nat, nat>, esp: uint32)
    requires InvFor(s, base, pages) && FewReserved(base)
    requires forall p :: p in pages ==> HeapPage(p) || StackPage(p)
    requires Pages(s.mem).Keys <= pages.Keys
    requires Alloc(s.frames).0.Some? && Alloc(s.frames).0.value >= WINDOW_FRAMES
    ensures var t := Alloc(s.frames).0.value;
            && t < KERNEL_HEAP_START / PAGE_SIZE
            && WalkPage(s.mem, t) == NotPresent
            && WellFormed(Alloc(s.frames).1)
            && HandleFault(s.(frames := Alloc(s.frames).1), t * PAGE_SIZE, esp).0 == Halted(Unhandled)
  {
    TablesAreFew(s.mem);
    PagesAreFew(pages);
    FirstFitIsLow(s.frames);
    var t := Alloc(s.frames).0.value;
    AllocConserves(s.frames);
    hide Alloc, Tables, WalkPage, IdentityWindow, KernelEntries, UsedExactly, FromClear, Injective;
    assert 2 * t <= 0x10_0000 + 0x8_0000 + ENTRIES + STACK_PAGES + HEAP_PAGES;
    assert t !in pages;
    PagesAt(s.mem, t);
  }
}
