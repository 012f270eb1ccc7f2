/** What the allocator makes of a memory map: exactly when the frames it frees are the frames
    of usable memory, and exactly when it can hand all of them out. */
module UsableMemory {
  import opened Bits
  import opened FrameTable
  import opened FrameTheorems
  import opened FrameRuns

  // ----- the frames that pmm_init frees -----

  /** Every byte of frame `f` lies in the region, in 64-bit addresses. */
  predicate WhollyInside(r: Region, f: nat) {
    r.base <= f * PAGE_SIZE && (f + 1) * PAGE_SIZE <= r.base + r.length
  }

  predicate Usable(regions: seq<Region>, f: nat) {
    exists i :: 0 <= i < |regions| && WhollyInside(regions[i], f)
  }

  /** `pmm_init` marks frame `f` clear. */
  ghost predicate Freed(regions: seq<Region>, previous: uint32, f: nat) {
    f < |InitFrames(regions, previous).bits| && !InitFrames(regions, previous).bits[f]
  }

  /** Of the frames with 32-bit addresses, exactly the usable ones are freed. */
  ghost predicate FreesUsable(regions: seq<Region>, previous: uint32) {
    forall f: nat :: f < 0x10_0000 ==> (Freed(regions, previous, f) <==> Usable(regions, f))
  }

  /** Where truncation and rounding do no harm.  Below 4 GByte base and end are page aligned,
      or in the last frame, which is never freed; a region that crosses 4 GByte has no whole
      frame below it; a region beyond it is truncated to one that reaches no frame. */
  predicate Fits(r: Region, maxIdx: nat) {
    if r.base + r.length < TWO_32 then
      r.length == 0
      || ((r.base % PAGE_SIZE == 0 || r.base / PAGE_SIZE >= maxIdx)
          && ((r.base + r.length) % PAGE_SIZE == 0 || (r.base + r.length) / PAGE_SIZE >= maxIdx))
    else if r.base < TWO_32 then r.base > 0xFFFF_F000
    else RegionEnd(r) <= RegionBase(r) || FirstFrame(r) >= maxIdx
  }

  lemma Below4GByte(r: Region)
    requires r.base + r.length < TWO_32
    ensures RegionBase(r) == r.base && RegionEnd(r) == r.base + r.length
  {
  }

  lemma LowFits(r: Region, maxIdx: nat, f: nat)
    requires r.base + r.length < TWO_32 && RegionEnd(r) / PAGE_SIZE <= maxIdx
    ensures WhollyInside(r, f) ==> f < maxIdx && Touches(r, f)
    ensures Fits(r, maxIdx) && f < maxIdx && Touches(r, f) ==> WhollyInside(r, f)
  {
    Below4GByte(r);
  }

  lemma LowFitsNot(r: Region, maxIdx: nat) returns (f: nat)
    requires r.base + r.length < TWO_32 && RegionEnd(r) / PAGE_SIZE <= maxIdx && !Fits(r, maxIdx)
    ensures f < maxIdx && Touches(r, f) && !WhollyInside(r, f)
  {
    Below4GByte(r);
    var end := r.base + r.length;
    f := if r.base % PAGE_SIZE != 0 && r.base / PAGE_SIZE < maxIdx then r.base / PAGE_SIZE else end / PAGE_SIZE;
  }

  lemma HighFits(r: Region, maxIdx: nat, f: nat)
    requires r.base + r.length >= TWO_32 && RegionEnd(r) / PAGE_SIZE <= maxIdx <= 0xFFFFF && f < 0x10_0000
    ensures r.base >= TWO_32 ==> !WhollyInside(r, f)
    ensures Fits(r, maxIdx) ==> !(f < maxIdx && Touches(r, f)) && !WhollyInside(r, f)
    ensures r.base < TWO_32 && !Fits(r, maxIdx) ==> WhollyInside(r, 0xFFFFF)
    ensures r.base >= TWO_32 && !Fits(r, maxIdx) ==> FirstFrame(r) < maxIdx && Touches(r, FirstFrame(r))
  {
  }

  lemma FitsFrees(regions: seq<Region>, previous: uint32)
    requires previous <= 0xFFFFF
    requires forall i :: 0 <= i < |regions| ==> Fits(regions[i], MaxFrame(regions, previous))
    ensures FreesUsable(regions, previous)
  {
    var m := MaxFrame(regions, previous);
    forall f: nat, i: nat | f < 0x10_0000 && i < |regions|
      ensures f < m && Touches(regions[i], f) <==> WhollyInside(regions[i], f)
    {
      RegionEndBelowMax(regions, previous, i);
      if regions[i].base + regions[i].length < TWO_32 {
        LowFits(regions[i], m, f);
      } else {
        HighFits(regions[i], m, f);
      }
    }
    hide Touches, WhollyInside, Fits, MaxFrame;
    forall f: nat | f < 0x10_0000
      ensures Freed(regions, previous, f) <==> Usable(regions, f)
    {
    }
  }

  /** A frame below the index bound that two regions touch or contain is in two regions. */
  lemma NotFitsMisses(regions: seq<Region>, previous: uint32, i: nat)
    requires previous <= 0xFFFFF && DisjointBelow(regions, MaxFrame(regions, previous))
    requires i < |regions| && !Fits(regions[i], MaxFrame(regions, previous))
    ensures !FreesUsable(regions, previous)
  {
    var m, r := MaxFrame(regions, previous), regions[i];
    RegionEndBelowMax(regions, previous, i);
    if r.base < TWO_32 <= r.base + r.length {
      HighFits(r, m, 0xFFFFF);
      assert Usable(regions, 0xFFFFF) && !Freed(regions, previous, 0xFFFFF);
    } else {
      var f: nat;
      if r.base < TWO_32 {
        f := LowFitsNot(r, m);
      } else {
        f := FirstFrame(r);
        HighFits(r, m, f);
      }
      assert Freed(regions, previous, f);
      if FreesUsable(regions, previous) {
        var j :| 0 <= j < |regions| && WhollyInside(regions[j], f);
        OtherHolder(regions, previous, i, j, f);
      }
    }
  }

  lemma OtherHolder(regions: seq<Region>, previous: uint32, i: nat, j: nat, f: nat)
    requires previous <= 0xFFFFF && i < |regions| && j < |regions|
    requires var m := MaxFrame(regions, previous); DisjointBelow(regions, m) && f < m && Touches(regions[i], f)
    requires WhollyInside(regions[j], f) && !WhollyInside(regions[i], f)
    ensures !FreesUsable(regions, previous)
  {
    var m, r := MaxFrame(regions, previous), regions[j];
    RegionEndBelowMax(regions, previous, j);
    if r.base + r.length < TWO_32 {
      LowFits(r, m, f);
    } else {
      assert Usable(regions, 0xFFFFF) && !Freed(regions, previous, 0xFFFFF);
    }
  }

  /** `pmm_init` frees exactly the usable frames if every region fits; when no frame lies in
      two regions, only if every region fits. */
  lemma InitFreesUsableFrames(regions: seq<Region>, previous: uint32)
    requires previous <= 0xFFFFF
    ensures var fit := forall i :: 0 <= i < |regions| ==> Fits(regions[i], MaxFrame(regions, previous));
            && (fit ==> FreesUsable(regions, previous))
            && (DisjointBelow(regions, MaxFrame(regions, previous)) && FreesUsable(regions, previous) ==> fit)
  {
    hide Fits, MaxFrame, FreesUsable, DisjointBelow;
    if i :| 0 <= i < |regions| && !Fits(regions[i], MaxFrame(regions, previous)) {
      if DisjointBelow(regions, MaxFrame(regions, previous)) {
        NotFitsMisses(regions, previous, i);
      }
    } else {
      FitsFrees(regions, previous);
    }
  }

  lemma OneRegionMax(r: Region)
    ensures MaxFrame([r], 0) == RegionEnd(r) / PAGE_SIZE
    ensures DisjointBelow([r], MaxFrame([r], 0))
  {
    assert [r][..0] == [];
  }

  /** A single region frees exactly its whole frames: below 4 GByte, if and only if its base
      is aligned or it lies in one frame (its end is the index bound, so it may be misaligned). */
  lemma OneRegionFreesUsable(r: Region)
    ensures FreesUsable([r], 0) <==>
            if r.base + r.length < TWO_32 then
              r.length == 0 || r.base % PAGE_SIZE == 0 || r.base / PAGE_SIZE == (r.base + r.length) / PAGE_SIZE
            else if r.base < TWO_32 then r.base > 0xFFFF_F000
            else RegionEnd(r) <= RegionBase(r) || FirstFrame(r) == RegionEnd(r) / PAGE_SIZE
  {
    OneRegionMax(r);
    InitFreesUsableFrames([r], 0);
    var m := MaxFrame([r], 0);
    assert (forall i :: 0 <= i < |[r]| ==> Fits([r][i], m)) <==> Fits(r, m) by {
      assert [r][0] == r;
    }
    hide FreesUsable, DisjointBelow, MaxFrame;
    if r.base + r.length < TWO_32 {
      Below4GByte(r);
    }
  }

  predicate PageAligned(r: Region) {
    r.base % PAGE_SIZE == 0 && r.length % PAGE_SIZE == 0
  }

  lemma AlignedFits(r: Region, maxIdx: nat)
    requires PageAligned(r) && RegionEnd(r) / PAGE_SIZE <= maxIdx
    ensures Fits(r, maxIdx) <==> r.base + r.length < TWO_32 || (r.base >= TWO_32 && Steps(r) == 0)
  {
    var b, n := r.base / PAGE_SIZE, r.length / PAGE_SIZE;
    assert r.base == PAGE_SIZE * b && r.length == PAGE_SIZE * n && r.base + r.length == PAGE_SIZE * (b + n);
    if r.base >= TWO_32 && RegionBase(r) < RegionEnd(r) {
      WrapAligned(b);
      WrapAligned(n);
      WrapAligned(RegionBase(r) / PAGE_SIZE + Wrap32(r.length) / PAGE_SIZE);
      assert FirstFrame(r) < RegionEnd(r) / PAGE_SIZE;
    }
  }

  lemma WrapAligned(k: nat)
    ensures Wrap32(PAGE_SIZE * k) == PAGE_SIZE * (k % 0x10_0000)
  {
    var q, d := k / 0x10_0000, k % 0x10_0000;
    assert k == 0x10_0000 * q + d;
    assert PAGE_SIZE * k == q * TWO_32 + PAGE_SIZE * d;
    DivModUnique(PAGE_SIZE * k, TWO_32, q, PAGE_SIZE * d);
  }

  /** On a page-aligned map whose regions share no frame, the freed frames are exactly the
      usable ones if and only if every region ends below 4 GByte, or begins above it and
      its truncation is empty. */
  lemma AlignedMapFreesUsable(regions: seq<Region>, previous: uint32)
    requires previous <= 0xFFFFF && DisjointBelow(regions, MaxFrame(regions, previous))
    requires forall i :: 0 <= i < |regions| ==> PageAligned(regions[i])
    ensures FreesUsable(regions, previous) <==>
            forall i :: 0 <= i < |regions| ==>
              regions[i].base + regions[i].length < TWO_32 || (regions[i].base >= TWO_32 && Steps(regions[i]) == 0)
  {
    InitFreesUsableFrames(regions, previous);
    hide FreesUsable, DisjointBelow, Fits, Steps, MaxFrame;
    forall i | 0 <= i < |regions|
      ensures Fits(regions[i], MaxFrame(regions, previous)) <==>
              regions[i].base + regions[i].length < TWO_32 || (regions[i].base >= TWO_32 && Steps(regions[i]) == 0)
    {
      RegionEndBelowMax(regions, previous, i);
      AlignedFits(regions[i], MaxFrame(regions, previous));
    }
  }

  /** Memory above 4 GByte: two pages at 0x1C0000000 make frame 0xC0000 clear, although no
      byte of it is in the region. */
  lemma HighMemoryFreesLowFrame()
    ensures var regions := [Region(0x1_C000_0000, 0x2000, 1)];
            Freed(regions, 0, 0xC0000) && !Usable(regions, 0xC0000)
  {
    var r := Region(0x1_C000_0000, 0x2000, 1);
    OneRegionMax(r);
    assert RegionBase(r) == 0xC000_0000 && RegionEnd(r) == 0xC000_2000;
    assert Touches([r][0], 0xC0000);
  }

  /** Memory up to 4 GByte: the end wraps to zero, and nothing is freed. */
  lemma MemoryTo4GByteIsLost(f: nat)
    requires 256 <= f < 0x10_0000
    ensures var regions := [Region(0x10_0000, 0xFFF0_0000, 1)];
            Usable(regions, f) && !Freed(regions, 0, f)
  {
    var r := Region(0x10_0000, 0xFFF0_0000, 1);
    OneRegionMax(r);
    assert RegionEnd(r) == 0;
    assert WhollyInside([r][0], f);
  }

  /** On a map whose regions all fit, a covered frame below the index bound is usable. */
  lemma CoveredIsUsable(regions: seq<Region>, previous: uint32, f: nat)
    requires previous <= 0xFFFFF && f < MaxFrame(regions, previous)
    requires forall i :: 0 <= i < |regions| ==> Fits(regions[i], MaxFrame(regions, previous))
    ensures Covered(regions, f) <==> Usable(regions, f)
  {
    FitsFrees(regions, previous);
    hide Covered, Usable, Fits, MaxFrame;
    assert Freed(regions, previous, f) <==> Covered(regions, f);
  }

  // ----- the frames that can be handed out -----

  /** Below a covered frame from `lo` on every frame is covered.  Covered frames are those
      stepped over in 32-bit addresses: about usable memory, see `UsableHandedOutIff`. */
  ghost predicate NoHole(regions: seq<Region>, lo: nat, maxIdx: nat) {
    forall f: nat, g: nat :: f < g && lo <= g < maxIdx && Covered(regions, g) ==> Covered(regions, f)
  }

  lemma {:induction false} CountFull(bits: seq<bool>, lo: nat, hi: nat)
    requires lo <= hi <= |bits| && CountClear(bits, lo, hi) == hi - lo
    ensures forall f :: lo <= f < hi ==> !bits[f]
  {
    if lo < hi {
      CountFull(bits, lo, hi - 1);
    }
  }

  /** A table with `n` clear bits: no clear bit at or above both `lo` and `n`, if and only if
      below each clear bit from `lo` on everything is clear. */
  lemma PrefixByCount(bits: seq<bool>, lo: nat, n: nat, m: nat)
    requires n <= m <= |bits| && CountClear(bits, 0, m) == n
    ensures (forall f :: Max(lo, n) <= f < m ==> bits[f]) <==>
            (forall f, g :: 0 <= f < g && lo <= g < m && !bits[g] ==> !bits[f])
  {
    CountSplit(bits, 0, n, m);
    if f :| Max(lo, n) <= f < m && !bits[f] {
      if forall e :: 0 <= e < f ==> !bits[e] {
        CountAllClear(bits, 0, f + 1);
        CountSplit(bits, 0, f + 1, m);
      }
    } else if lo <= n {
      CountZero(bits, n, m);
      CountFull(bits, 0, n);
    }
  }

  /** From frame `lo` on, the clear frames stay below `total_frames` if and only if the
      covered frames have no hole; in all, as many are stranded as are used below it. */
  lemma StrandedIffHole(regions: seq<Region>, previous: uint32, lo: nat)
    requires previous <= 0xFFFFF && DisjointBelow(regions, MaxFrame(regions, previous))
    ensures var p := InitFrames(regions, previous);
            && p.total <= p.maxIdx
            && CountClear(p.bits, p.total, p.maxIdx) == p.total - CountClear(p.bits, 0, p.total)
            && (NoHole(regions, lo, p.maxIdx) <==> forall f :: Max(lo, p.total) <= f < p.maxIdx ==> p.bits[f])
  {
    var p := InitFrames(regions, previous);
    InitTotal(regions, previous);
    CountSplit(p.bits, 0, p.total, p.maxIdx);
    PrefixByCount(p.bits, lo, p.total, p.maxIdx);
    assert forall f: nat :: f < p.maxIdx ==> (Covered(regions, f) <==> !p.bits[f]);
    hide InitFrames, Covered, CountClear;
  }

  /** A run that ends when the next allocation fails. */
  ghost predicate Exhausts(c: Client, ops: seq<Op>, d: Client) {
    && c.p.total <= |c.p.bits| && LegalRun(c, ops) && Run(c, ops) == d
    && d.p.total <= |d.p.bits| && Alloc(d.p).0 == None
  }

  /** Allocating on until nothing is left never touches the frames from `total_frames` on. */
  lemma {:induction false} Drain(c: Client) returns (ops: seq<Op>, d: Client)
    requires c.p.total <= |c.p.bits|
    ensures Exhausts(c, ops, d) && |d.p.bits| == |c.p.bits|
    ensures forall f :: c.p.total <= f < |c.p.bits| ==> d.p.bits[f] == c.p.bits[f]
    decreases CountClear(c.p.bits, 1, c.p.total)
  {
    if Alloc(c.p).0 == None {
      ops, d := [], c;
    } else {
      var f := Alloc(c.p).0.value;
      CountUpdate(c.p.bits, f, true, 1, c.p.total);
      var c1 := Step(c, AllocOp);
      var rest;
      rest, d := Drain(c1);
      ops := [AllocOp] + rest;
      assert ops[0] == AllocOp && ops[1..] == rest;
    }
  }

  /** Whatever is reserved, allocated and freed, an exhausted allocator has no clear frame
      left but frame 0, if and only if at the start no frame from `total_frames` on is clear. */
  lemma NothingLeftIff(p: Frames)
    requires Conserved(p)
    ensures (forall f :: Max(1, p.total) <= f < p.maxIdx ==> p.bits[f]) <==>
            (forall ops, d :: Exhausts(Client(p, {}, {}), ops, d) ==>
               |d.p.bits| == |p.bits| && forall f :: 1 <= f < p.maxIdx ==> d.p.bits[f])
  {
    var c := Client(p, {}, {});
    if forall f :: Max(1, p.total) <= f < p.maxIdx ==> p.bits[f] {
      forall ops, d | Exhausts(c, ops, d)
        ensures |d.p.bits| == |p.bits| && forall f :: 1 <= f < p.maxIdx ==> d.p.bits[f]
      {
        RunFromStart(p, ops);
        FirstFit(d.p);
      }
    } else {
      var ops, d := Drain(c);
      assert Exhausts(c, ops, d);
    }
  }

  /** After `pmm_init`, every freed frame but frame 0 is handed out or reserved before
      allocation fails, in every run, if and only if the covered frames have no hole. */
  lemma FreedHandedOutIffNoHole(regions: seq<Region>, previous: uint32)
    requires previous <= 0xFFFFF && DisjointBelow(regions, MaxFrame(regions, previous))
    ensures var p := InitFrames(regions, previous);
            NoHole(regions, 1, p.maxIdx) <==>
            forall ops, d :: Exhausts(Client(p, {}, {}), ops, d) ==>
              |d.p.bits| == |p.bits| && forall f :: 1 <= f < p.maxIdx ==> d.p.bits[f]
  {
    StrandedIffHole(regions, previous, 1);
    InitConserves(regions, previous);
    hide InitFrames, NoHole, Exhausts, Conserved;
    NothingLeftIff(InitFrames(regions, previous));
  }

  function TwoBlocks(a: nat, b: nat, m: nat): seq<Region>
    requires a < b < m < 0x10_0000
  {
    [Region(0, a * PAGE_SIZE, 1), Region(b * PAGE_SIZE, (m - b) * PAGE_SIZE, 1)]
  }

  /** Two available blocks, of the frames below `a` and from `b` to `m`. */
  lemma TwoBlocksCover(a: nat, b: nat, m: nat)
    requires 0 < a < b < m < 0x10_0000
    ensures MaxFrame(TwoBlocks(a, b, m), 0) == m && DisjointBelow(TwoBlocks(a, b, m), m)
    ensures forall f: nat :: Covered(TwoBlocks(a, b, m), f) <==> f < a || b <= f < m
  {
    var r0, r1 := Region(0, a * PAGE_SIZE, 1), Region(b * PAGE_SIZE, (m - b) * PAGE_SIZE, 1);
    var regions := TwoBlocks(a, b, m);
    hide MaxFrame;
    MaxFrameIsMaximum(regions, 0);
    Below4GByte(r0);
    Below4GByte(r1);
    assert r1.base + r1.length == m * PAGE_SIZE;
    assert FirstFrame(r0) == 0 && Steps(r0) == a && FirstFrame(r1) == b && Steps(r1) == m - b;
    forall f: nat
      ensures Covered(regions, f) <==> f < a || b <= f < m
    {
      assert Touches(regions[0], f) <==> f < a;
      assert Touches(regions[1], f) <==> b <= f < m;
    }
    assert RegionEnd(regions[0]) / PAGE_SIZE == a && RegionEnd(regions[1]) / PAGE_SIZE == m;
    forall i, j, f: nat | 0 <= i < j < 2
      ensures !(Touches(regions[i], f) && Touches(regions[j], f))
    {
      assert regions[i] == r0 && regions[j] == r1;
    }
  }

  // ----- the usable frames that can be handed out -----

  /** Frame `f` is handed out or reserved by the end of every run from `p` that exhausts the
      allocator. */
  ghost predicate AlwaysTaken(p: Frames, f: nat) {
    forall ops, d :: Exhausts(Client(p, {}, {}), ops, d) ==> f in d.live + d.reserved
  }

  /** That is so exactly for the frames clear at the start and below `total_frames`. */
  lemma AlwaysTakenIff(p: Frames, f: nat)
    requires Conserved(p) && 1 <= f
    ensures AlwaysTaken(p, f) <==> f < p.total && !p.bits[f]
  {
    var c := Client(p, {}, {});
    if f < p.total && !p.bits[f] {
      forall ops, d | Exhausts(c, ops, d)
        ensures f in d.live + d.reserved
      {
        RunFromStart(p, ops);
        FirstFit(d.p);
      }
    } else {
      var ops, d := Drain(c);
      RunFromStart(p, ops);
      assert f !in d.live + d.reserved;
    }
  }

  /** Below the last frame of the 32-bit address space usable frames are freed, unless that
      frame is usable itself: then a region reaches 4 GByte and its end wraps. */
  lemma UsableIsFreed(regions: seq<Region>, previous: uint32, f: nat)
    requires previous <= 0xFFFFF && f < 0x10_0000
    requires Usable(regions, f) && !Usable(regions, 0xFFFFF)
    ensures f < MaxFrame(regions, previous) && Covered(regions, f)
  {
    var i :| 0 <= i < |regions| && WhollyInside(regions[i], f);
    RegionEndBelowMax(regions, previous, i);
    assert !WhollyInside(regions[i], 0xFFFFF);
    LowFits(regions[i], MaxFrame(regions, previous), f);
  }

  /** All usable memory but frame 0 is handed out or reserved in the end if and only if every
      usable frame is below `total_frames`. */
  lemma UsableHandedOutIff(regions: seq<Region>, previous: uint32)
    requires previous <= 0xFFFFF && DisjointBelow(regions, MaxFrame(regions, previous))
    ensures var p := InitFrames(regions, previous);
            (forall f: nat :: 1 <= f < 0x10_0000 && Usable(regions, f) ==> AlwaysTaken(p, f)) <==>
            (forall f: nat :: 1 <= f < 0x10_0000 && Usable(regions, f) ==> f < p.total)
  {
    var p := InitFrames(regions, previous);
    InitConserves(regions, previous);
    forall f: nat | 1 <= f < 0x10_0000 && Usable(regions, f)
      ensures AlwaysTaken(p, f) ==> f < p.total
      ensures f < p.total && !Usable(regions, 0xFFFFF) ==> AlwaysTaken(p, f)
    {
      AlwaysTakenIff(p, f);
      if !Usable(regions, 0xFFFFF) {
        UsableIsFreed(regions, previous, f);
      }
    }
    hide AlwaysTaken, Usable, InitFrames;
    assert p.total <= 0xFFFFF;
  }

  /** From `lo` on, no usable frame has a frame below it that is not usable. */
  ghost predicate UsableNoHole(regions: seq<Region>, lo: nat) {
    forall f: nat, g: nat :: f < g && lo <= g < 0x10_0000 && Usable(regions, g) ==> Usable(regions, f)
  }

  /** On a map whose regions all fit, the usable frames from `lo` on are below `total_frames`
      if and only if usable memory has no hole. */
  lemma FittingMapNoHole(regions: seq<Region>, previous: uint32, lo: nat)
    requires previous <= 0xFFFFF && DisjointBelow(regions, MaxFrame(regions, previous))
    requires forall i :: 0 <= i < |regions| ==> Fits(regions[i], MaxFrame(regions, previous))
    ensures UsableNoHole(regions, lo) <==>
            forall f: nat :: lo <= f < 0x10_0000 && Usable(regions, f) ==> f < InitFrames(regions, previous).total
  {
    var p := InitFrames(regions, previous);
    FitsFrees(regions, previous);
    StrandedIffHole(regions, previous, lo);
    hide Usable, Covered, Fits, MaxFrame, InitFrames, DisjointBelow;
    assert forall f: nat :: f < 0x10_0000 ==> (Usable(regions, f) <==> f < p.maxIdx && Covered(regions, f)) by {
      assert forall f: nat :: f < 0x10_0000 ==> (Freed(regions, previous, f) <==> f < p.maxIdx && Covered(regions, f));
    }
    assert forall f: nat :: f < p.maxIdx ==> (p.bits[f] <==> !Covered(regions, f));
    hide Freed, CountClear;
  }

  /** On such a map all usable memory but frame 0 is handed out or reserved in the end if and
      only if it has no hole. */
  lemma UsableHandedOutIffNoHole(regions: seq<Region>, previous: uint32)
    requires previous <= 0xFFFFF && DisjointBelow(regions, MaxFrame(regions, previous))
    requires forall i :: 0 <= i < |regions| ==> Fits(regions[i], MaxFrame(regions, previous))
    ensures var p := InitFrames(regions, previous);
            (forall f: nat :: 1 <= f < 0x10_0000 && Usable(regions, f) ==> AlwaysTaken(p, f)) <==>
            UsableNoHole(regions, 1)
  {
    UsableHandedOutIff(regions, previous);
    FittingMapNoHole(regions, previous, 1);
    hide AlwaysTaken, Usable, InitFrames, UsableNoHole;
  }

  /** Freed frames and usable frames differ: here nothing is freed, so nothing is stranded,
      and all usable memory above 1 MByte is lost. */
  lemma MemoryTo4GByteIsNeverTaken(f: nat)
    requires 256 <= f < 0x10_0000
    ensures var regions := [Region(0x10_0000, 0xFFF0_0000, 1)];
            && DisjointBelow(regions, MaxFrame(regions, 0)) && NoHole(regions, 1, MaxFrame(regions, 0))
            && Usable(regions, f) && !AlwaysTaken(InitFrames(regions, 0), f)
  {
    var regions := [Region(0x10_0000, 0xFFF0_0000, 1)];
    OneRegionMax(regions[0]);
    assert RegionEnd(regions[0]) == 0;
    MemoryTo4GByteIsLost(f);
    hide InitFrames, Usable, Covered, MaxFrame;
    InitConserves(regions, 0);
    AlwaysTakenIff(InitFrames(regions, 0), f);
  }

  /** `pmm_init` steps through both blocks to their ends, and both are page aligned. */
  lemma TwoBlocksStep(a: nat, b: nat, m: nat)
    requires 0 < a < b < m < 0x10_0000
    ensures forall i :: 0 <= i < 2 ==> StepsEnd(TwoBlocks(a, b, m)[i]) && PageAligned(TwoBlocks(a, b, m)[i])
  {
    Below4GByte(TwoBlocks(a, b, m)[0]);
    Below4GByte(TwoBlocks(a, b, m)[1]);
  }

  /** A map that covers the frames below `a` and from `b` to `m`: the hole strands as many
      frames as it has, at most the upper block. */
  lemma HoleStrands(regions: seq<Region>, a: nat, b: nat, m: nat)
    requires a < b < m && MaxFrame(regions, 0) == m && DisjointBelow(regions, m)
    requires forall f: nat :: Covered(regions, f) <==> f < a || b <= f < m
    ensures var p := InitFrames(regions, 0);
            && p.total == m - (b - a) && !NoHole(regions, b, m)
            && (forall f :: 0 <= f < |p.bits| ==> (!p.bits[f] <==> f < a || b <= f < m))
            && CountClear(p.bits, p.total, m) == Min(b - a, m - b)
  {
    hide Covered, MaxFrame;
    assert Covered(regions, b) && !Covered(regions, a);
    var p := InitFrames(regions, 0);
    InitTotal(regions, 0);
    hide InitFrames;
    BlocksCount(p.bits, a, b, m);
  }

  /** Seven pages are missing between the blocks, so 25 frames are counted and the last seven
      frames of the second region are clear and never handed out. */
  lemma SevenFramesStranded()
    ensures var regions := [Region(0, 0x9000, 1), Region(0x1_0000, 0x1_0000, 1)];
            && MaxFrame(regions, 0) == 32 && DisjointBelow(regions, 32) && !NoHole(regions, 16, 32)
            && InitFrames(regions, 0).total == 25
            && forall f :: 25 <= f < 32 ==> Freed(regions, 0, f)
  {
    var regions := [Region(0, 0x9000, 1), Region(0x1_0000, 0x1_0000, 1)];
    assert regions == TwoBlocks(9, 16, 32);
    TwoBlocksCover(9, 16, 32);
    hide TwoBlocks, MaxFrame, Covered, InitFrames, CountClear;
    HoleStrands(regions, 9, 16, 32);
  }

  lemma BlocksCount(bits: seq<bool>, a: nat, b: nat, m: nat)
    requires a < b < m <= |bits|
    requires forall f :: 0 <= f < m ==> (!bits[f] <==> f < a || b <= f)
    ensures CountClear(bits, 0, m) == m - (b - a)
    ensures CountClear(bits, m - (b - a), m) == Min(b - a, m - b)
  {
    CountSplit(bits, 0, a, m);
    CountSplit(bits, a, b, m);
    CountAllClear(bits, 0, a);
    CountZero(bits, a, b);
    CountAllClear(bits, b, m);
    var n := m - (b - a);
    if n < b {
      CountSplit(bits, a, n, b);
      CountZero(bits, n, b);
      CountSplit(bits, n, b, m);
    } else {
      CountAllClear(bits, n, m);
    }
  }
}
