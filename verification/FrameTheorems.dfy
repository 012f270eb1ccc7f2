/** Properties of the frame allocator: the loops of `pmm_init` in closed form, its counters,
    and their conservation by reserving, allocating and freeing. */
module FrameTheorems {
  import opened Bits
  import opened FrameTable

  // ----- pmm_init -----

  /** The stepping loop reaches frame `f` with its `k`-th address exactly when the closed
      form `Touches` says so. */
  lemma SteppedAddresses(r: Region, f: nat)
    ensures Touches(r, f) <==>
            exists k: nat :: RegionBase(r) + k * PAGE_SIZE < RegionEnd(r) && (RegionBase(r) + k * PAGE_SIZE) / PAGE_SIZE == f
  {
    var b, e := RegionBase(r), RegionEnd(r);
    if Touches(r, f) {
      var k := f - FirstFrame(r);
      assert b + k * PAGE_SIZE < e && (b + k * PAGE_SIZE) / PAGE_SIZE == f;
    }
    if k: nat :| b + k * PAGE_SIZE < e && (b + k * PAGE_SIZE) / PAGE_SIZE == f {
      assert k < Steps(r);
    }
  }

  /** The address after `n` rounds of the stepping loop, in 32-bit arithmetic. */
  function AddressAfter(r: Region, n: nat): uint32 {
    if n == 0 then RegionBase(r) else Wrap32(AddressAfter(r, n - 1) + PAGE_SIZE)
  }

  /** The loop over a region ends if and only if `StepsEnd`: otherwise every address it
      ever computes is still below the end. */
  lemma SteppingEnds(r: Region)
    ensures StepsEnd(r) <==> exists n: nat :: AddressAfter(r, n) >= RegionEnd(r)
  {
    if StepsEnd(r) {
      SteppingReachesEnd(r, Steps(r));
      assert AddressAfter(r, Steps(r)) >= RegionEnd(r);
    } else {
      forall n: nat
        ensures AddressAfter(r, n) < RegionEnd(r)
      {
        SteppingStaysBelow(r, n);
      }
    }
  }

  /** From 0 to 0xFFFFF800 the address counter wraps to 0 and the loop never ends. */
  lemma SteppingForever(n: nat)
    ensures var r := Region(0, 0xFFFF_F800, 1); AddressAfter(r, n) < RegionEnd(r)
  {
    var r := Region(0, 0xFFFF_F800, 1);
    assert RegionEnd(r) == 0xFFFF_F800 && !StepsEnd(r);
    SteppingStaysBelow(r, n);
  }

  lemma {:induction false} SteppingReachesEnd(r: Region, n: nat)
    requires StepsEnd(r) && n <= Steps(r)
    ensures AddressAfter(r, n) == RegionBase(r) + n * PAGE_SIZE
  {
    if n != 0 {
      SteppingReachesEnd(r, n - 1);
    }
  }

  lemma {:induction false} SteppingStaysBelow(r: Region, n: nat)
    requires !StepsEnd(r)
    ensures AddressAfter(r, n) % PAGE_SIZE == RegionBase(r) % PAGE_SIZE && AddressAfter(r, n) < RegionEnd(r)
  {
    if n != 0 {
      SteppingStaysBelow(r, n - 1);
      NextStaysBelow(AddressAfter(r, n - 1), RegionEnd(r), RegionBase(r) % PAGE_SIZE);
    }
  }

  lemma NextStaysBelow(addr: uint32, end: uint32, offset: nat)
    requires addr % PAGE_SIZE == offset && 0xFFFF_F000 + offset < end
    ensures Wrap32(addr + PAGE_SIZE) % PAGE_SIZE == offset && Wrap32(addr + PAGE_SIZE) < end
  {
    var q := addr / PAGE_SIZE;
    assert addr == PAGE_SIZE * q + offset && q <= 0xFFFFF;
    if q == 0xFFFFF {
      assert addr + PAGE_SIZE == TWO_32 + offset;
    } else {
      assert addr + PAGE_SIZE == PAGE_SIZE * (q + 1) + offset;
    }
  }

  /** No frame below `maxIdx` lies in two regions. */
  ghost predicate DisjointBelow(regions: seq<Region>, maxIdx: nat) {
    forall i, j, f: nat :: 0 <= i < j < |regions| && f < maxIdx ==> !(Touches(regions[i], f) && Touches(regions[j], f))
  }

  lemma {:induction false} RegionEndBelowMax(regions: seq<Region>, previous: uint32, i: nat)
    requires i < |regions|
    ensures RegionEnd(regions[i]) / PAGE_SIZE <= MaxFrame(regions, previous)
    decreases |regions|
  {
    var front := regions[..|regions| - 1];
    if i < |front| {
      RegionEndBelowMax(front, previous, i);
      assert front[i] == regions[i];
    }
  }

  /** `max_frame_idx` is the highest end of a region, or what it was before if that is higher. */
  lemma {:induction false} MaxFrameIsMaximum(regions: seq<Region>, previous: uint32)
    ensures var m := MaxFrame(regions, previous);
            && previous <= m
            && (forall i :: 0 <= i < |regions| ==> RegionEnd(regions[i]) / PAGE_SIZE <= m)
            && (m == previous || exists i :: 0 <= i < |regions| && RegionEnd(regions[i]) / PAGE_SIZE == m)
  {
    if regions != [] {
      var front := regions[..|regions| - 1];
      MaxFrameIsMaximum(front, previous);
      assert forall i :: 0 <= i < |front| ==> front[i] == regions[i];
      var m := MaxFrame(front, previous);
      if m != previous {
        var i :| 0 <= i < |front| && RegionEnd(front[i]) / PAGE_SIZE == m;
        assert RegionEnd(regions[i]) / PAGE_SIZE == m;
      }
      assert regions[|regions| - 1] == regions[|front|];
    }
  }

  /** Bits cleared for one more region. */
  lemma CountOneMore(regions: seq<Region>, maxIdx: nat)
    requires regions != []
    ensures var front, r := regions[..|regions| - 1], regions[|regions| - 1];
            var n := |InitBits(front, maxIdx)|;
            var lo, hi := FirstFrame(r), CountedEnd(r, maxIdx);
            hi <= n || hi == lo
    ensures var front, r := regions[..|regions| - 1], regions[|regions| - 1];
            var before, after := InitBits(front, maxIdx), InitBits(regions, maxIdx);
            var lo, hi := FirstFrame(r), CountedEnd(r, maxIdx);
            if hi == lo then before == after
            else CountClear(after, 0, maxIdx) == CountClear(before, 0, maxIdx) + (hi - lo) - CountClear(before, lo, hi)
  {
    var front, r := regions[..|regions| - 1], regions[|regions| - 1];
    var before, after := InitBits(front, maxIdx), InitBits(regions, maxIdx);
    var lo, hi := FirstFrame(r), CountedEnd(r, maxIdx);
    BitsOneMore(regions, maxIdx);
    if hi == lo {
      assert before == after;
    } else {
      hide InitBits, Covered;
      CountSplit(before, 0, lo, maxIdx);
      CountSplit(before, lo, hi, maxIdx);
      CountSplit(after, 0, lo, maxIdx);
      CountSplit(after, lo, hi, maxIdx);
      CountSame(before, after, 0, lo);
      CountSame(before, after, hi, maxIdx);
      CountAllClear(after, lo, hi);
    }
  }

  /** One more region clears its frames below `maxIdx`. */
  lemma BitsOneMore(regions: seq<Region>, maxIdx: nat)
    requires regions != []
    ensures var front, r := regions[..|regions| - 1], regions[|regions| - 1];
            var before, after := InitBits(front, maxIdx), InitBits(regions, maxIdx);
            forall f :: 0 <= f < |after| ==> (after[f] <==> before[f] && !(FirstFrame(r) <= f < CountedEnd(r, maxIdx)))
  {
    forall f: nat
      ensures Covered(regions, f) <==> Covered(regions[..|regions| - 1], f) || Touches(regions[|regions| - 1], f)
    {
      CoveredFront(regions, f);
    }
  }

  lemma CoveredFront(regions: seq<Region>, f: nat)
    requires regions != []
    ensures Covered(regions, f) <==> Covered(regions[..|regions| - 1], f) || Touches(regions[|regions| - 1], f)
  {
    var front := regions[..|regions| - 1];
    if i :| 0 <= i < |regions| && Touches(regions[i], f) {
      if i < |front| {
        assert Touches(front[i], f);
      }
    }
    if i :| 0 <= i < |front| && Touches(front[i], f) {
      assert Touches(regions[i], f);
    }
  }

  lemma {:induction false} CountAllClear(bits: seq<bool>, lo: nat, hi: nat)
    requires lo <= hi <= |bits|
    requires forall i :: lo <= i < hi ==> !bits[i]
    ensures CountClear(bits, lo, hi) == hi - lo
  {
    if lo < hi {
      CountAllClear(bits, lo, hi - 1);
    }
  }

  /** `total_frames` is never below the number of frames made free, and equals it if and
      only if no frame below `max_frame_idx` lies in two regions. */
  lemma {:induction false} TotalIsExactIffDisjoint(regions: seq<Region>, maxIdx: nat)
    ensures TotalCounted(regions, maxIdx) >= CountClear(InitBits(regions, maxIdx), 0, maxIdx)
    ensures TotalCounted(regions, maxIdx) == CountClear(InitBits(regions, maxIdx), 0, maxIdx) <==> DisjointBelow(regions, maxIdx)
  {
    var bits := InitBits(regions, maxIdx);
    if regions == [] {
      CountZero(bits, 0, maxIdx);
    } else {
      var front, r := regions[..|regions| - 1], regions[|regions| - 1];
      var before := InitBits(front, maxIdx);
      var lo, hi := FirstFrame(r), CountedEnd(r, maxIdx);
      TotalIsExactIffDisjoint(front, maxIdx);
      CountOneMore(regions, maxIdx);
      if lo < hi {
        CountZero(before, lo, hi);
        OverlapWithLast(regions, maxIdx);
      } else {
        assert forall f: nat :: f < maxIdx ==> !Touches(r, f);
      }
      DisjointSplit(regions, maxIdx);
    }
  }

  /** Two regions that meet inside frame 1: three frames are freed and four are counted. */
  lemma SharedFrameCountsTwice()
    ensures var regions := [Region(0, 0x1800, 1), Region(0x1800, 0x1800, 1)];
            && MaxFrame(regions, 0) == 3 && TotalCounted(regions, 3) == 4
            && CountClear(InitBits(regions, 3), 0, 3) == 3 && !DisjointBelow(regions, 3)
  {
    var r0, r1 := Region(0, 0x1800, 1), Region(0x1800, 0x1800, 1);
    var regions := [r0, r1];
    assert regions[..1] == [r0] && [r0][..0] == [];
    assert RegionEnd(r0) == 0x1800 && RegionEnd(r1) == 0x3000;
    assert Touches(regions[0], 0) && Touches(regions[0], 1) && Touches(regions[1], 1) && Touches(regions[1], 2);
    hide Touches, InitBits;
    assert Covered(regions, 0) && Covered(regions, 1) && Covered(regions, 2);
    CountAllClear(InitBits(regions, 3), 0, 3);
  }

  lemma DisjointSplit(regions: seq<Region>, maxIdx: nat)
    requires regions != []
    ensures var front, r := regions[..|regions| - 1], regions[|regions| - 1];
            DisjointBelow(regions, maxIdx) <==>
            DisjointBelow(front, maxIdx) && forall f: nat :: f < maxIdx && Touches(r, f) ==> !Covered(front, f)
  {
    var front, r := regions[..|regions| - 1], regions[|regions| - 1];
    assert forall i :: 0 <= i < |front| ==> front[i] == regions[i];
    if DisjointBelow(regions, maxIdx) {
      assert DisjointBelow(front, maxIdx);
      forall f: nat | f < maxIdx && Touches(r, f)
        ensures !Covered(front, f)
      {
        forall i | 0 <= i < |front|
          ensures !Touches(front[i], f)
        {
          assert front[i] == regions[i];
        }
      }
    }
    if DisjointBelow(front, maxIdx) && forall f: nat :: f < maxIdx && Touches(r, f) ==> !Covered(front, f) {
      forall i, j, f: nat | 0 <= i < j < |regions| && f < maxIdx
        ensures !(Touches(regions[i], f) && Touches(regions[j], f))
      {
        if j < |front| {
          assert front[i] == regions[i] && front[j] == regions[j];
        } else if Touches(front[i], f) {
          assert Covered(front, f);
        }
      }
    }
  }

  lemma OverlapWithLast(regions: seq<Region>, maxIdx: nat)
    requires regions != []
    requires FirstFrame(regions[|regions| - 1]) < CountedEnd(regions[|regions| - 1], maxIdx)
    ensures var front, r := regions[..|regions| - 1], regions[|regions| - 1];
            var before := InitBits(front, maxIdx);
            (forall f: nat :: f < maxIdx && Touches(r, f) ==> !Covered(front, f)) <==>
            (forall f :: FirstFrame(r) <= f < CountedEnd(r, maxIdx) ==> before[f])
  {
    var front, r := regions[..|regions| - 1], regions[|regions| - 1];
    var before := InitBits(front, maxIdx);
    if forall f: nat :: f < maxIdx && Touches(r, f) ==> !Covered(front, f) {
      forall f | FirstFrame(r) <= f < CountedEnd(r, maxIdx)
        ensures before[f]
      {
        assert Touches(r, f);
      }
    }
    if forall f :: FirstFrame(r) <= f < CountedEnd(r, maxIdx) ==> before[f] {
      forall f: nat | f < maxIdx && Touches(r, f)
        ensures !Covered(front, f)
      {
        assert before[f];
      }
    }
  }

  lemma InitTotal(regions: seq<Region>, previous: uint32)
    requires previous <= 0xFFFFF
    requires DisjointBelow(regions, MaxFrame(regions, previous))
    ensures var p := InitFrames(regions, previous);
            p.total == CountClear(p.bits, 0, p.maxIdx) <= p.maxIdx
  {
    var m := MaxFrame(regions, previous);
    TotalIsExactIffDisjoint(regions, m);
    assert TotalCounted(regions, m) <= m;
    assert InitFrames(regions, previous).total == TotalCounted(regions, m);
  }

  /** What `pmm_init` establishes for regions that share no frame. */
  lemma InitConserves(regions: seq<Region>, previous: uint32)
    requires previous <= 0xFFFFF
    requires DisjointBelow(regions, MaxFrame(regions, previous))
    ensures Conserved(InitFrames(regions, previous))
    ensures InitFrames(regions, previous).used == 0
  {
    InitTotal(regions, previous);
    var p := InitFrames(regions, previous);
    forall f | p.maxIdx <= f < |p.bits|
      ensures p.bits[f]
    {
    }
  }

  // ----- conservation -----

  /** Clear frames plus used frames make up `total_frames`, frames past the last region
      are marked used, and the index bound of the allocator is inside the bitmap. */
  ghost predicate Conserved(p: Frames) {
    && WellFormed(p) && p.total <= p.maxIdx
    && CountClear(p.bits, 0, p.maxIdx) + p.used == p.total
    && forall f :: p.maxIdx <= f < |p.bits| ==> p.bits[f]
  }

  /** The frames that have a byte in `[start, end)`. */
  predicate Meets(f: nat, start: uint32, end: uint32) {
    f * PAGE_SIZE < end && start < (f + 1) * PAGE_SIZE
  }

  /** Reserving a non-empty range marks exactly the frames it meets if and only if the range
      ends no later than 0xFFFFF000: rounding up a later end wraps to zero and marks nothing. */
  lemma ReserveMeetsIff(start: uint32, end: uint32)
    requires start < end
    ensures end <= 0xFFFF_F000 <==> forall f: nat :: RangeLo(start) <= f < RangeHi(end) <==> Meets(f, start, end)
  {
    if end <= 0xFFFF_F000 {
      forall f: nat
        ensures RangeLo(start) <= f < RangeHi(end) <==> Meets(f, start, end)
      {
      }
    } else {
      assert RangeHi(end) == 0;
      assert Meets(RangeLo(start), start, end);
    }
  }

  /** One byte past 0xFFFFF000 the end wraps, and the frames that the range meets stay clear. */
  lemma LateReservationIsLost(p: Frames, start: uint32)
    requires start < 0xFFFF_F001
    ensures RangeHi(0xFFFF_F001) == 0 && Reserve(p, start, 0xFFFF_F001) == p && Meets(RangeLo(start), start, 0xFFFF_F001)
  {
  }

  lemma ClearBelowMax(bits: seq<bool>, maxIdx: nat)
    requires maxIdx <= |bits|
    requires forall f :: maxIdx <= f < |bits| ==> bits[f]
    ensures CountClear(bits, 0, |bits|) == CountClear(bits, 0, maxIdx)
  {
    CountSplit(bits, 0, maxIdx, |bits|);
    CountZero(bits, maxIdx, |bits|);
  }

  lemma CountAfterSetRange(p: Frames, lo: nat, hi: nat)
    requires lo < hi <= |p.bits|
    ensures CountClear(SetRange(p, lo, hi).bits, 0, |p.bits|) == CountClear(p.bits, 0, |p.bits|) - CountClear(p.bits, lo, hi)
  {
    var n, b, c := |p.bits|, p.bits, SetRange(p, lo, hi).bits;
    CountSplit(b, 0, lo, n);
    CountSplit(b, lo, hi, n);
    CountSplit(c, 0, lo, n);
    CountSplit(c, lo, hi, n);
    CountSame(b, c, 0, lo);
    CountSame(b, c, hi, n);
    CountZero(c, lo, hi);
  }

  lemma ReserveConserves(p: Frames, lo: nat, hi: nat)
    requires Conserved(p) && (hi <= |p.bits| || hi <= lo)
    ensures Conserved(SetRange(p, lo, hi))
    ensures SetRange(p, lo, hi).used == p.used + if lo < hi then CountClear(p.bits, lo, hi) else 0
  {
    if lo < hi {
      var q := SetRange(p, lo, hi);
      CountAfterSetRange(p, lo, hi);
      ClearBelowMax(p.bits, p.maxIdx);
      ClearBelowMax(q.bits, p.maxIdx);
    }
  }

  lemma AllocConserves(p: Frames)
    requires Conserved(p)
    ensures Conserved(Alloc(p).1)
    ensures Alloc(p).1.used == p.used + if Alloc(p).0.Some? then 1 else 0
  {
    var f := FirstClear(p.bits, 1, p.total);
    if f < p.total {
      CountUpdate(p.bits, f, true, 0, p.maxIdx);
    }
  }

  /** Freeing conserves the counters if and only if the index is out of range (nothing
      happens), or the frame was marked used and something had been counted as used. */
  lemma FreeConservesIffUsed(p: Frames, addr: uint32)
    requires Conserved(p)
    ensures Conserved(Free(p, addr)) <==>
            addr / PAGE_SIZE >= p.total || (p.bits[addr / PAGE_SIZE] && p.used > 0)
  {
    var f := addr / PAGE_SIZE;
    if f < p.total {
      CountUpdate(p.bits, f, false, 0, p.maxIdx);
    }
  }
}
