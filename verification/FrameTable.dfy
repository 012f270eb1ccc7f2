/** The abstract value of the physical frame allocator: which frames are marked used,
    and the three counters.  Every operation of the bitmap allocator is specified here
    as a function on this value; class FrameAllocator refines them. */
module FrameTable {
  import opened Bits

  const PAGE_SIZE := 4096
  const BITMAP_ADDR := 0x90000
  const PAGE_DIR_ADDR := 0x80000
  const PAGE_TABLE_ADDR := 0x81000
  const MAX_MEMORY_REGIONS := 32

  const RESERVED_TYPE_INIT := 7
  const RESERVED_TYPE_KERNEL := 8
  const RESERVED_TYPE_BITMAP := 16
  const RESERVED_TYPE_PAGE_TABLE := 32

  datatype Option<+T> = None | Some(value: T) {
    function GetOr(default: T): T {
      if Some? then value else default
    }
  }

  datatype Region = Region(base: uint64, length: uint64, kind: uint32)

  /** `bits[f]` is true when frame `f` is marked used. */
  datatype Frames = Frames(bits: seq<bool>, total: uint32, used: uint32, maxIdx: uint32)

  ghost predicate WellFormed(p: Frames) {
    |p.bits| == 8 * (p.maxIdx / 8 + 1) && p.maxIdx <= 0xFFFFF && p.total <= |p.bits|
  }

  // ----- counting -----

  function CountClear(bits: seq<bool>, lo: nat, hi: nat): (n: nat)
    requires hi <= |bits|
    ensures n <= if lo <= hi then hi - lo else 0
  {
    if lo >= hi then 0 else CountClear(bits, lo, hi - 1) + if bits[hi - 1] then 0 else 1
  }

  lemma {:induction false} CountSplit(bits: seq<bool>, lo: nat, mid: nat, hi: nat)
    requires lo <= mid <= hi <= |bits|
    ensures CountClear(bits, lo, hi) == CountClear(bits, lo, mid) + CountClear(bits, mid, hi)
  {
    if mid < hi {
      CountSplit(bits, lo, mid, hi - 1);
    }
  }

  lemma {:induction false} CountSame(a: seq<bool>, b: seq<bool>, lo: nat, hi: nat)
    requires hi <= |a| && hi <= |b|
    requires forall i :: lo <= i < hi ==> a[i] == b[i]
    ensures CountClear(a, lo, hi) == CountClear(b, lo, hi)
  {
    if lo < hi {
      CountSame(a, b, lo, hi - 1);
    }
  }

  lemma {:induction false} CountZero(bits: seq<bool>, lo: nat, hi: nat)
    requires hi <= |bits|
    ensures CountClear(bits, lo, hi) == 0 <==> forall i :: lo <= i < hi ==> bits[i]
  {
    if lo < hi {
      CountZero(bits, lo, hi - 1);
    }
  }

  lemma CountUpdate(bits: seq<bool>, f: nat, b: bool, lo: nat, hi: nat)
    requires lo <= f < hi <= |bits|
    ensures CountClear(bits[f := b], lo, hi) ==
            CountClear(bits, lo, hi) + (if bits[f] then 1 else 0) - (if b then 1 else 0)
  {
    var c := bits[f := b];
    CountSplit(bits, lo, f, hi);
    CountSplit(c, lo, f, hi);
    CountSplit(bits, f, f + 1, hi);
    CountSplit(c, f, f + 1, hi);
    CountSame(bits, c, lo, f);
    CountSame(bits, c, f + 1, hi);
  }

  // ----- pmm_init -----

  function RegionBase(r: Region): uint32 { Wrap32(r.base) }

  function RegionEnd(r: Region): uint32 { Wrap32(RegionBase(r) + Wrap32(r.length)) }

  /** The stepping loop of `pmm_init` leaves the region exactly when its address counter
      does not wrap past 2^32 before reaching the end. */
  predicate StepsEnd(r: Region) {
    RegionEnd(r) <= RegionBase(r) || RegionEnd(r) <= 0xFFFF_F000 + RegionBase(r) % PAGE_SIZE
  }

  function Steps(r: Region): nat {
    if RegionBase(r) < RegionEnd(r) then (RegionEnd(r) - RegionBase(r) + PAGE_SIZE - 1) / PAGE_SIZE else 0
  }

  function FirstFrame(r: Region): nat { RegionBase(r) / PAGE_SIZE }

  predicate Touches(r: Region, f: nat) {
    FirstFrame(r) <= f < FirstFrame(r) + Steps(r)
  }

  predicate Covered(regions: seq<Region>, f: nat) {
    exists i :: 0 <= i < |regions| && Touches(regions[i], f)
  }

  function Max(a: nat, b: nat): nat { if a < b then b else a }

  function Min(a: nat, b: nat): nat { if a < b then a else b }

  function MaxFrame(regions: seq<Region>, previous: uint32): (m: uint32)
    ensures previous <= 0xFFFFF ==> m <= 0xFFFFF
  {
    if regions == [] then previous
    else Max(MaxFrame(regions[..|regions| - 1], previous), RegionEnd(regions[|regions| - 1]) / PAGE_SIZE)
  }

  /** Frames of `r` that the loop counts: those below `maxIdx`. */
  function CountedEnd(r: Region, maxIdx: nat): nat {
    Max(FirstFrame(r), Min(FirstFrame(r) + Steps(r), maxIdx))
  }

  function TotalCounted(regions: seq<Region>, maxIdx: nat): nat {
    if regions == [] then 0
    else
      var r := regions[|regions| - 1];
      TotalCounted(regions[..|regions| - 1], maxIdx) + CountedEnd(r, maxIdx) - FirstFrame(r)
  }

  ghost function InitBits(regions: seq<Region>, maxIdx: nat): (bits: seq<bool>)
    ensures |bits| == 8 * (maxIdx / 8 + 1)
    ensures forall f :: 0 <= f < |bits| ==> (bits[f] <==> !(f < maxIdx && Covered(regions, f)))
  {
    seq(8 * (maxIdx / 8 + 1), (f: nat) => !(f < maxIdx && Covered(regions, f)))
  }

  ghost function InitFrames(regions: seq<Region>, previousMax: uint32): (p: Frames)
    ensures p.maxIdx == MaxFrame(regions, previousMax) && |p.bits| == 8 * (p.maxIdx / 8 + 1)
  {
    var m := MaxFrame(regions, previousMax);
    Frames(InitBits(regions, m), Wrap32(TotalCounted(regions, m)), 0, m)
  }

  // ----- reserving, allocating, freeing -----

  function SetRange(p: Frames, lo: nat, hi: nat): (q: Frames)
    requires hi <= |p.bits| || hi <= lo
    ensures q.total == p.total && q.maxIdx == p.maxIdx && |q.bits| == |p.bits|
    ensures forall f :: 0 <= f < |p.bits| ==> (q.bits[f] <==> p.bits[f] || lo <= f < hi)
  {
    if hi <= lo then p
    else
      p.(bits := seq(|p.bits|, f requires 0 <= f < |p.bits| => p.bits[f] || lo <= f < hi),
         used := Wrap32(p.used + CountClear(p.bits, lo, hi)))
  }

  lemma SetRangeStep(p: Frames, lo: nat, f: nat)
    requires lo <= f < |p.bits|
    ensures SetRange(SetRange(p, lo, f), f, f + 1) == SetRange(p, lo, f + 1)
  {
    var q := SetRange(p, lo, f);
    assert q.used == Wrap32(p.used + CountClear(p.bits, lo, f));
    assert SetRange(q, f, f + 1).bits == SetRange(p, lo, f + 1).bits;
    assert CountClear(q.bits, f, f + 1) == if p.bits[f] then 0 else 1;
    WrapAdd(p.used + CountClear(p.bits, lo, f), if p.bits[f] then 0 else 1);
  }

  /** First frame of a byte range, rounded down; end frame rounded up in 32-bit arithmetic. */
  function RangeLo(start: uint32): nat { start / PAGE_SIZE }

  function RangeHi(end: uint32): nat { Wrap32(end + PAGE_SIZE - 1) / PAGE_SIZE }

  function Reserve(p: Frames, start: uint32, end: uint32): (q: Frames)
    requires RangeHi(end) <= |p.bits|
    ensures q.total == p.total && q.maxIdx == p.maxIdx && |q.bits| == |p.bits|
  {
    SetRange(p, RangeLo(start), RangeHi(end))
  }

  function ReserveIf(p: Frames, asked: bool, start: uint32, end: uint32): (q: Frames)
    requires asked ==> RangeHi(end) <= |p.bits|
    ensures q.total == p.total && q.maxIdx == p.maxIdx && |q.bits| == |p.bits|
  {
    if asked then Reserve(p, start, end) else p
  }

  function BitmapEnd(maxIdx: nat): uint32
    requires maxIdx <= 0xFFFFF
  {
    BITMAP_ADDR + maxIdx / 8 + 1
  }

  /** The ranges asked for lie inside the initialised part of the bitmap. */
  predicate CanReserve(p: Frames, kind: uint32, kernelEnd: uint32) {
    && p.maxIdx <= 0xFFFFF
    && (kind % 8 != 0 ==> RangeHi(0x100000) <= |p.bits|)
    && (Bit(kind, 3) ==> RangeHi(kernelEnd) <= |p.bits|)
    && (Bit(kind, 4) ==> RangeHi(BitmapEnd(p.maxIdx)) <= |p.bits|)
    && (Bit(kind, 5) ==> RangeHi(PAGE_DIR_ADDR + 4096) <= |p.bits| && RangeHi(PAGE_TABLE_ADDR + 4096) <= |p.bits|)
  }

  function ReserveRegion(p: Frames, kind: uint32, kernelStart: uint32, kernelEnd: uint32): (q: Frames)
    requires CanReserve(p, kind, kernelEnd)
    ensures q.total == p.total && q.maxIdx == p.maxIdx && |q.bits| == |p.bits|
  {
    var p1 := ReserveIf(p, kind % 8 != 0, 0, 0x100000);
    var p2 := ReserveIf(p1, Bit(kind, 3), kernelStart, kernelEnd);
    var p3 := ReserveIf(p2, Bit(kind, 4), BITMAP_ADDR, BitmapEnd(p.maxIdx));
    var p4 := ReserveIf(p3, Bit(kind, 5), PAGE_DIR_ADDR, PAGE_DIR_ADDR + 4096);
    ReserveIf(p4, Bit(kind, 5), PAGE_TABLE_ADDR, PAGE_TABLE_ADDR + 4096)
  }

  function FirstClear(bits: seq<bool>, from: nat, to: nat): (f: nat)
    requires to <= |bits|
    ensures from <= to ==> from <= f <= to
    ensures f < to ==> from <= f && !bits[f]
    ensures f <= to
    ensures (forall i :: from <= i < f ==> bits[i])
    decreases if from < to then to - from else 0
  {
    if from >= to then to
    else if !bits[from] then from
    else FirstClear(bits, from + 1, to)
  }

  function Alloc(p: Frames): (r: (Option<nat>, Frames))
    requires p.total <= |p.bits|
    ensures r.0.Some? ==> 1 <= r.0.value < p.total && !p.bits[r.0.value]
    ensures r.1.total == p.total && r.1.maxIdx == p.maxIdx && |r.1.bits| == |p.bits|
  {
    var f := FirstClear(p.bits, 1, p.total);
    if f < p.total then (Some(f), p.(bits := p.bits[f := true], used := Wrap32(p.used + 1)))
    else (None, p)
  }

  function Free(p: Frames, addr: uint32): Frames
    requires p.total <= |p.bits|
  {
    var f := addr / PAGE_SIZE;
    if f < p.total then p.(bits := p.bits[f := false], used := Wrap32(p.used - 1)) else p
  }
}
