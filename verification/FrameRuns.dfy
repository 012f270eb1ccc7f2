/** Runs of the frame allocator: first fit, alloc undone by free, and the
    accounting of arbitrary interleavings of reserve, alloc and free. */
module FrameRuns {
  import opened Bits
  import opened FrameTable
  import opened FrameTheorems

  /** First fit: the lowest clear index in `[1, total)`, and none exactly when there is none. */
  lemma FirstFit(p: Frames)
    requires p.total <= |p.bits|
    ensures Alloc(p).0 == None <==> forall f :: 1 <= f < p.total ==> p.bits[f]
    ensures forall f: nat :: Alloc(p).0 == Some(f) <==>
              1 <= f < p.total && !p.bits[f] && forall g :: 1 <= g < f ==> p.bits[g]
  {
    var r := FirstClear(p.bits, 1, p.total);
    forall f: nat | 1 <= f < p.total && !p.bits[f] && forall g :: 1 <= g < f ==> p.bits[g]
      ensures f == r
    {
    }
  }

  /** When allocation fails, the frames still clear are exactly frame 0, if it is, and those
      at or above `total_frames`: memory beyond the counting bound is never handed out. */
  lemma StrandedFrames(p: Frames)
    requires Conserved(p) && Alloc(p).0 == None && p.total > 0
    ensures forall f :: 0 <= f < p.maxIdx && !p.bits[f] ==> f == 0 || f >= p.total
    ensures CountClear(p.bits, 0, p.maxIdx) == CountClear(p.bits, 0, 1) + CountClear(p.bits, p.total, p.maxIdx)
    ensures CountClear(p.bits, 0, p.maxIdx) <= p.maxIdx - p.total + 1
  {
    FirstFit(p);
    CountSplit(p.bits, 0, 1, p.maxIdx);
    CountSplit(p.bits, 1, p.total, p.maxIdx);
    CountZero(p.bits, 1, p.total);
  }

  /** Freeing the frame just allocated restores every bit and counter. */
  lemma FreeUndoesAlloc(p: Frames)
    requires Conserved(p) && Alloc(p).0.Some?
    ensures var (f, q) := Alloc(p);
            f.value * PAGE_SIZE < TWO_32 && Free(q, f.value * PAGE_SIZE) == p
  {
    var (f, q) := Alloc(p);
    assert q.bits[f.value := false] == p.bits;
    CountUpdate(p.bits, f.value, true, 0, p.maxIdx);
  }

  /** Allocating after freeing frame `f` returns `f` exactly when everything below it is used. */
  lemma AllocAfterFree(p: Frames, addr: uint32)
    requires p.total <= |p.bits|
    requires PAGE_SIZE <= addr && addr / PAGE_SIZE < p.total
    ensures Alloc(Free(p, addr)).0 == Some(addr / PAGE_SIZE) <==>
            forall g :: 1 <= g < addr / PAGE_SIZE ==> p.bits[g]
  {
    var f, q := addr / PAGE_SIZE, Free(p, addr);
    assert q.bits == p.bits[f := false];
    assert forall g :: 1 <= g < f ==> q.bits[g] == p.bits[g];
    FirstFit(q);
  }

  /** `n` allocations in a row. */
  function AllocMany(p: Frames, n: nat): (r: (seq<nat>, Frames))
    requires WellFormed(p)
    ensures WellFormed(r.1)
  {
    if n == 0 then ([], p)
    else
      var (fs, q) := AllocMany(p, n - 1);
      var (f, q') := Alloc(q);
      if f.Some? then (fs + [f.value], q') else (fs, q')
  }

  /** Without frees, the frames handed out are strictly increasing (hence distinct), were
      clear before, and everything up to the last one is used afterwards. */
  lemma {:induction false} AllocManyIncreases(p: Frames, n: nat)
    requires WellFormed(p)
    ensures var (fs, q) := AllocMany(p, n);
            && (forall i, j :: 0 <= i < j < |fs| ==> fs[i] < fs[j])
            && (forall i :: 0 <= i < |fs| ==> 1 <= fs[i] < p.total && !p.bits[fs[i]])
            && q.total == p.total && |q.bits| == |p.bits|
            && (forall f :: 0 <= f < |p.bits| ==> (q.bits[f] <==> p.bits[f] || f in fs))
            && (fs != [] ==> forall g :: 1 <= g <= fs[|fs| - 1] ==> q.bits[g])
  {
    if n != 0 {
      AllocManyIncreases(p, n - 1);
    }
  }

  // ----- arbitrary interleavings -----

  datatype Op = ReserveOp(start: uint32, end: uint32) | AllocOp | FreeOp(frame: nat)

  /** The allocator together with who owns what: `live` frames were handed out and not yet
      freed, `reserved` frames were clear when a reservation took them. */
  datatype Client = Client(p: Frames, live: set<nat>, reserved: set<nat>)

  /** Reservations stay inside the bitmap and only live frames are freed. */
  predicate Legal(c: Client, op: Op) {
    match op
    case ReserveOp(_, end) => RangeHi(end) <= |c.p.bits|
    case AllocOp => true
    case FreeOp(f) => f in c.live && f * PAGE_SIZE < TWO_32
  }

  function ClearSet(bits: seq<bool>, lo: nat, hi: nat): set<nat>
    requires hi <= |bits|
  {
    set f | lo <= f < hi && !bits[f]
  }

  function Step(c: Client, op: Op): Client
    requires Legal(c, op) && c.p.total <= |c.p.bits|
  {
    match op
    case ReserveOp(start, end) =>
      Client(Reserve(c.p, start, end), c.live,
             c.reserved + ClearSet(c.p.bits, RangeLo(start), RangeHi(end)))
    case AllocOp =>
      var (f, q) := Alloc(c.p);
      Client(q, if f.Some? then c.live + {f.value} else c.live, c.reserved)
    case FreeOp(f) => Client(Free(c.p, f * PAGE_SIZE), c.live - {f}, c.reserved)
  }

  predicate LegalRun(c: Client, ops: seq<Op>)
    requires c.p.total <= |c.p.bits|
    decreases |ops|
  {
    ops == [] || (Legal(c, ops[0]) && Step(c, ops[0]).p.total <= |Step(c, ops[0]).p.bits|
                  && LegalRun(Step(c, ops[0]), ops[1..]))
  }

  function Run(c: Client, ops: seq<Op>): Client
    requires c.p.total <= |c.p.bits| && LegalRun(c, ops)
    decreases |ops|
  {
    if ops == [] then c else Run(Step(c, ops[0]), ops[1..])
  }

  /** Live and reserved frames are disjoint, were clear at the start, and together with the
      frames used at the start are exactly the frames marked used; the counter counts them. */
  ghost predicate Accounted(start: Frames, c: Client) {
    && Conserved(c.p) && c.p.total == start.total && |c.p.bits| == |start.bits|
    && c.live !! c.reserved
    && (forall f :: f in c.live ==> 1 <= f < start.total && !start.bits[f])
    && (forall f :: f in c.reserved ==> f < |start.bits| && !start.bits[f])
    && (forall f :: 0 <= f < |start.bits| ==> (c.p.bits[f] <==> start.bits[f] || f in c.live || f in c.reserved))
    && c.p.used == start.used + |c.live| + |c.reserved|
  }

  lemma {:induction false} CardinalityOfClear(bits: seq<bool>, lo: nat, hi: nat)
    requires hi <= |bits|
    ensures |ClearSet(bits, lo, hi)| == CountClear(bits, lo, hi)
  {
    if lo < hi {
      CardinalityOfClear(bits, lo, hi - 1);
      var t := ClearSet(bits, lo, hi - 1);
      assert ClearSet(bits, lo, hi) == if bits[hi - 1] then t else t + {hi - 1};
    } else {
      assert ClearSet(bits, lo, hi) == {};
    }
  }

  lemma ReserveAccounted(start: Frames, c: Client, a: uint32, b: uint32)
    requires Accounted(start, c) && Legal(c, ReserveOp(a, b))
    ensures Accounted(start, Step(c, ReserveOp(a, b)))
  {
    var lo, hi := RangeLo(a), RangeHi(b);
    ReserveConserves(c.p, lo, hi);
    CardinalityOfClear(c.p.bits, lo, hi);
    var taken := ClearSet(c.p.bits, lo, hi);
    assert taken !! c.reserved && taken !! c.live;
    assert |c.reserved + taken| == |c.reserved| + |taken|;
    var d := Step(c, ReserveOp(a, b));
    forall f | 0 <= f < |start.bits|
      ensures d.p.bits[f] <==> start.bits[f] || f in d.live || f in d.reserved
    {
      assert f in taken <==> lo <= f < hi && !c.p.bits[f];
    }
  }

  lemma AllocAccounted(start: Frames, c: Client)
    requires Accounted(start, c)
    ensures Accounted(start, Step(c, AllocOp))
  {
    AllocConserves(c.p);
  }

  lemma FreeAccounted(start: Frames, c: Client, f: nat)
    requires Accounted(start, c) && Legal(c, FreeOp(f))
    ensures Accounted(start, Step(c, FreeOp(f)))
  {
    assert c.live == (c.live - {f}) + {f};
    assert c.p.bits[f] && c.p.used > 0;
    FreeConservesIffUsed(c.p, f * PAGE_SIZE);
  }

  lemma StepAccounted(start: Frames, c: Client, op: Op)
    requires Accounted(start, c) && Legal(c, op)
    ensures Accounted(start, Step(c, op))
  {
    match op {
      case ReserveOp(a, b) => ReserveAccounted(start, c, a, b);
      case AllocOp => AllocAccounted(start, c);
      case FreeOp(f) => FreeAccounted(start, c, f);
    }
  }

  /** Every run of reservations, allocations and frees of live frames keeps the accounting,
      so live frames are distinct, never frame 0, never reserved, and the clear frames
      plus `used_frames` always make up `total_frames`. */
  lemma {:induction false} RunAccounted(start: Frames, c: Client, ops: seq<Op>)
    requires Accounted(start, c) && LegalRun(c, ops)
    ensures Accounted(start, Run(c, ops))
    decreases |ops|
  {
    if ops != [] {
      StepAccounted(start, c, ops[0]);
      RunAccounted(start, Step(c, ops[0]), ops[1..]);
    }
  }

  /** The start of a run: nothing handed out, nothing reserved. */
  lemma StartAccounted(p: Frames)
    requires Conserved(p)
    ensures Accounted(p, Client(p, {}, {}))
  {
  }

  /** From an allocator with nothing handed out, every run keeps the accounting. */
  lemma RunFromStart(p: Frames, ops: seq<Op>)
    requires Conserved(p) && LegalRun(Client(p, {}, {}), ops)
    ensures Accounted(p, Run(Client(p, {}, {}), ops))
  {
    StartAccounted(p);
    RunAccounted(p, Client(p, {}, {}), ops);
  }

  /** A frame handed out is not live and not reserved at that moment. */
  lemma AllocIsFresh(start: Frames, c: Client)
    requires Accounted(start, c) && Alloc(c.p).0.Some?
    ensures Alloc(c.p).0.value !in c.live + c.reserved && Alloc(c.p).0.value != 0
  {
  }
}
