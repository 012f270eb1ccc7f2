/** 32-bit paging with 4-KByte pages over physical memory seen as 32-bit words: the
    hardware walk (Intel SDM volume 3A, sections 4.3 and 4.6) and the value-level effect
    of `paging_init` and `paging_map_page` (kernel/memory/paging.c). */
module PageWalk {
  import opened Bits
  import opened FrameTable

  const WORDS := 0x4000_0000            // 4 GByte of 32-bit words
  const ENTRIES := 1024
  const PAGES := 0x10_0000
  const DIR_FRAME := 0x80               // 0x80000 / 4096
  const FIRST_TABLE_FRAME := 0x81       // 0x81000 / 4096

  const PAGE_PRESENT := 1
  const PAGE_WRITE := 2
  const PAGE_USER := 4

  /** The word at byte address `a` (a multiple of four) is element `a / 4`. */
  type Memory = m: seq<uint32> | |m| == WORDS witness seq(WORDS, (_: nat) => 0)

  /** Entry `i` of the table stored in frame `f`. */
  function Entry(m: Memory, f: nat, i: nat): uint32
    requires f < PAGES && i < ENTRIES
  {
    m[f * ENTRIES + i]
  }

  function SetEntry(m: Memory, f: nat, i: nat, x: uint32): (m': Memory)
    requires f < PAGES && i < ENTRIES
    ensures forall g, j :: 0 <= g < PAGES && 0 <= j < ENTRIES ==>
              Entry(m', g, j) == if g == f && j == i then x else Entry(m, g, j)
  {
    m[f * ENTRIES + i := x]
  }

  /** The first `n` entries of frame `f` become `x(0)`, `x(1)`, ... */
  function FillEntries(m: Memory, f: nat, n: nat, x: nat -> uint32): (m': Memory)
    requires f < PAGES && n <= ENTRIES
    ensures forall g, j :: 0 <= g < PAGES && 0 <= j < ENTRIES ==>
              Entry(m', g, j) == if g == f && j < n then x(j) else Entry(m, g, j)
  {
    seq(WORDS, k requires 0 <= k < WORDS => if f * ENTRIES <= k < f * ENTRIES + n then x(k - f * ENTRIES) else m[k])
  }

  lemma FillOneMore(m: Memory, f: nat, n: nat, x: nat -> uint32)
    requires f < PAGES && n < ENTRIES
    ensures SetEntry(FillEntries(m, f, n, x), f, n, x(n)) == FillEntries(m, f, n + 1, x)
    ensures FillEntries(m, f, 0, x) == m
  {
  }

  /** The first `n` entries of frame `f` become zero. */
  function ZeroEntries(m: Memory, f: nat, n: nat): (m': Memory)
    requires f < PAGES && n <= ENTRIES
    ensures forall g, j :: 0 <= g < PAGES && 0 <= j < ENTRIES ==>
              Entry(m', g, j) == if g == f && j < n then 0 else Entry(m, g, j)
  {
    FillEntries(m, f, n, _ => 0)
  }

  // ----- addresses and entries, by the shifts and masks of the source -----

  function DirIndex(v: uint32): (i: nat)
    ensures i == v / 0x40_0000 < ENTRIES
  {
    ShrDivides(v, 22);
    PowersOfTwo();
    Shr(v, 22)
  }

  function TableIndex(v: uint32): (i: nat)
    ensures i == v / PAGE_SIZE % ENTRIES
  {
    ShrDivides(v, 12);
    AndLowMask(Shr(v, 12), 10);
    PowersOfTwo();
    And(Shr(v, 12), 0x3FF)
  }

  function PageOf(v: uint32): (p: nat)
    ensures p < PAGES
    ensures p / ENTRIES == DirIndex(v) && p % ENTRIES == TableIndex(v)
  {
    v / PAGE_SIZE
  }

  predicate Present(e: uint32)
    ensures Present(e) <==> e % 2 == 1
  {
    PowersOfTwo();
    AndLowMask(e, 1);
    And(e, PAGE_PRESENT) != 0
  }

  function Base(e: uint32): (a: uint32)
    ensures a == e - e % PAGE_SIZE == FrameOf(e) * PAGE_SIZE
  {
    PowersOfTwo();
    AndHighMask(e, 12, 32);
    And(e, 0xFFFF_F000)
  }

  function FrameOf(e: uint32): (f: nat)
    ensures f < PAGES
  {
    e / PAGE_SIZE
  }

  function Flags(e: uint32): (f: nat)
    ensures f < PAGE_SIZE
  {
    e % PAGE_SIZE
  }

  /** `(physical_addr & 0xFFFFF000) | (flags & 0xFFF)` */
  function MakeEntry(physical: uint32, flags: uint32): (e: uint32)
    ensures FrameOf(e) == physical / PAGE_SIZE && Flags(e) == flags % PAGE_SIZE
  {
    MakeEntrySum(physical, flags);
    SplitEntry(physical / PAGE_SIZE, flags % PAGE_SIZE);
    Or(And(physical, 0xFFFF_F000), And(flags, 0xFFF))
  }

  lemma MakeEntrySum(physical: uint32, flags: uint32)
    ensures Or(And(physical, 0xFFFF_F000), And(flags, 0xFFF)) == physical / PAGE_SIZE * PAGE_SIZE + flags % PAGE_SIZE
  {
    PowersOfTwo();
    AndHighMask(physical, 12, 32);
    AndLowMask(flags, 12);
    SplitEntry(physical / PAGE_SIZE, 0);
    OrDisjoint(physical / PAGE_SIZE * PAGE_SIZE, flags % PAGE_SIZE, 12);
  }

  lemma SplitEntry(f: nat, low: nat)
    requires low < PAGE_SIZE
    ensures (f * PAGE_SIZE + low) / PAGE_SIZE == f && (f * PAGE_SIZE + low) % PAGE_SIZE == low
  {
  }

  /** `table | PAGE_PRESENT | PAGE_WRITE` for a page-aligned address. */
  function LinkEntry(table: uint32): (e: uint32)
    requires table % PAGE_SIZE == 0
    ensures e == table + 3
  {
    OrFlag(table, 0, PAGE_PRESENT);
    OrFlag(table, 1, PAGE_WRITE);
    SmallFlags();
    Or(Or(table, PAGE_PRESENT), PAGE_WRITE)
  }

  /** One more flag in the low bits of a page-aligned address. */
  lemma OrFlag(table: nat, low: nat, flag: nat)
    requires table % PAGE_SIZE == 0 && low < 8 && flag < 8
    ensures Or(table + low, flag) == table + Or(low, flag)
  {
    PowersOfTwo();
    OrLowBits(table, low, flag, 12);
  }

  // ----- the walk -----

  /** The outcome of a page walk: the frame, the low bits of the table entry and the low
      bits of the directory entry. */
  datatype Translation = NotPresent | Mapped(frame: nat, flags: nat, dirFlags: nat) {
    predicate Writable() { Mapped? && flags / 2 % 2 == 1 && dirFlags / 2 % 2 == 1 }
    predicate UserAccess() { Mapped? && flags / 4 % 2 == 1 && dirFlags / 4 % 2 == 1 }
  }

  function DirEntry(m: Memory, i: nat): uint32
    requires i < ENTRIES
  {
    Entry(m, DIR_FRAME, i)
  }

  function WalkPage(m: Memory, p: nat): (t: Translation)
    requires p < PAGES
    ensures t.Mapped? ==> t.frame < PAGES
  {
    var d := DirEntry(m, p / ENTRIES);
    if !Present(d) then NotPresent
    else
      var t := Entry(m, FrameOf(d), p % ENTRIES);
      if !Present(t) then NotPresent else Mapped(FrameOf(t), Flags(t), Flags(d))
  }

  function Walk(m: Memory, v: uint32): (t: Translation)
    ensures t.Mapped? ==> t.frame < PAGES
  {
    WalkPage(m, PageOf(v))
  }

  /** The walk through a directory entry that links table `t` as present and writable. */
  lemma WalkLinked(m: Memory, p: nat, t: nat)
    requires p < PAGES && t < PAGES && DirEntry(m, p / ENTRIES) == t * PAGE_SIZE + 3
    ensures WalkPage(m, p) ==
            var e := Entry(m, t, p % ENTRIES);
            if Present(e) then Mapped(FrameOf(e), Flags(e), 3) else NotPresent
  {
    LinkFields(t);
  }

  lemma LinkFields(t: nat)
    requires t < PAGES
    ensures var e := t * PAGE_SIZE + 3;
            Present(e) && FrameOf(e) == t && Flags(e) == 3
  {
    SplitEntry(t, 3);
    OddEntry(t);
  }

  lemma OddEntry(t: nat)
    ensures (t * PAGE_SIZE + 3) % 2 == 1
  {
    assert t * PAGE_SIZE + 3 == 2 * (2048 * t + 1) + 1;
  }

  // ----- paging_init -----

  function IdentityEntry(j: nat): uint32 {
    if j < ENTRIES then j * PAGE_SIZE + 7 else 0
  }

  function InitTable(m: Memory, n: nat): (m': Memory)
    requires n <= ENTRIES
    ensures forall g, j :: 0 <= g < PAGES && 0 <= j < ENTRIES ==>
              Entry(m', g, j) == if g == FIRST_TABLE_FRAME && j < n then j * PAGE_SIZE + 7 else Entry(m, g, j)
  {
    FillEntries(m, FIRST_TABLE_FRAME, n, IdentityEntry)
  }

  function InitDirectory(m: Memory, n: nat): (m': Memory)
    requires n <= ENTRIES
    ensures forall g, j :: 0 <= g < PAGES && 0 <= j < ENTRIES ==>
              Entry(m', g, j) == if g == DIR_FRAME && j < n then 2 else Entry(m, g, j)
  {
    FillEntries(m, DIR_FRAME, n, _ => 2)
  }

  function InitPaging(m: Memory): Memory {
    SetEntry(InitTable(InitDirectory(m, ENTRIES), ENTRIES), DIR_FRAME, 0, PAGE_TABLE_ADDR + 3)
  }

  // ----- paging_map_page -----

  datatype Status = Running | Halted(reason: Reason)

  datatype Reason = OutOfMemory | TableUnreachable | StackOverflow | Unhandled

  /** Physical memory and the frame allocator. */
  datatype Space = Space(mem: Memory, frames: Frames)

  /** Only the first 4 MByte of physical memory is reachable at its own address. */
  const WINDOW_FRAMES := 1024

  /** The effect of `paging_map_page(v, physical, flags)`.  A new table outside the identity
      window cannot be written: the machine halts after the frame was taken. */
  function MapPage(s: Space, v: uint32, physical: uint32, flags: uint32): (r: (Status, Space))
    requires WellFormed(s.frames)
    ensures WellFormed(r.1.frames) && |r.1.frames.bits| == |s.frames.bits|
  {
    var d := DirEntry(s.mem, DirIndex(v));
    if Present(d) then
      (Running, s.(mem := SetEntry(s.mem, FrameOf(d), TableIndex(v), MakeEntry(physical, flags))))
    else
      var (t, frames) := Alloc(s.frames);
      if t.None? then (Halted(OutOfMemory), s)
      else if t.value >= WINDOW_FRAMES then (Halted(TableUnreachable), s.(frames := frames))
      else
        var zeroed := ZeroEntries(s.mem, t.value, ENTRIES);
        var linked := SetEntry(zeroed, DIR_FRAME, DirIndex(v), LinkEntry(t.value * PAGE_SIZE));
        (Running, Space(SetEntry(linked, t.value, TableIndex(v), MakeEntry(physical, flags)), frames))
  }
}
