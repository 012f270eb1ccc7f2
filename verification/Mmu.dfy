/** Physical memory behind the memory-management unit.  The translation cache may at any
    moment drop entries or fill any present translation. */
module MmuModel {
  import opened Bits
  import opened FrameTable
  import opened PageWalk
  import opened PageTheorems
  import opened KernelRuns

  class Mmu {
    const phys: array<uint32>
    var paging: bool
    var tlb: map<nat, Translation>

    ghost predicate Valid()
      reads this
    {
      phys.Length == WORDS
    }

    ghost function Mem(): Memory
      requires Valid()
      reads this, phys
    {
      phys[..]
    }

    constructor ()
      ensures Valid() && !paging && fresh(phys)
    {
      phys := new uint32[WORDS];
      paging, tlb := false, map[];
    }

    /** Entry `i` of the table in frame `f`, read by the page walker. */
    method ReadEntry(f: nat, i: nat) returns (x: uint32)
      requires Valid() && f < PAGES && i < ENTRIES
      ensures x == Entry(Mem(), f, i)
    {
      x := phys[f * ENTRIES + i];
    }

    method WriteEntry(f: nat, i: nat, x: uint32)
      requires Valid() && f < PAGES && i < ENTRIES
      modifies phys
      ensures Mem() == SetEntry(old(Mem()), f, i, x)
    {
      ghost var m := Mem();
      phys[f * ENTRIES + i] := x;
      assert Mem() == m[f * ENTRIES + i := x];
    }

    /** The hardware walk of page `p`. */
    method TableWalk(p: nat) returns (t: Translation)
      requires Valid() && p < PAGES
      ensures t == WalkPage(Mem(), p)
    {
      var d := ReadEntry(DIR_FRAME, p / ENTRIES);
      if !Present(d) {
        return NotPresent;
      }
      var e := ReadEntry(FrameOf(d), p % ENTRIES);
      if !Present(e) {
        return NotPresent;
      }
      return Mapped(FrameOf(e), Flags(e), Flags(d));
    }

    /** The processor evicts and fills translations as it pleases. */
    method Speculate()
      requires Valid()
      modifies this`tlb
      ensures forall p :: p in tlb ==>
                (p in old(tlb) && tlb[p] == old(tlb)[p]) ||
                (p < PAGES && tlb[p].Mapped? && tlb[p] == WalkPage(Mem(), p))
    {
      var kept: set<nat> := *;
      var walked: set<nat> := *;
      var m := phys[..];
      tlb := (map p: nat | p in tlb && p in kept :: tlb[p]) +
             (map p: nat | p in walked && p < PAGES && WalkPage(m, p).Mapped? :: WalkPage(m, p));
    }

    /** A store of one aligned word by the kernel; `ok` is false when it page-faults. */
    method StoreWord(a: uint32, x: uint32) returns (ok: bool)
      requires Valid() && a % 4 == 0
      requires paging ==> Coherent(tlb, Mem())
      modifies this`tlb, phys
      ensures Valid()
      ensures paging ==> Coherent(tlb, old(Mem()))
      ensures ok <==> !paging || Walk(old(Mem()), a).Mapped?
      ensures Mem() == if !paging then SetEntry(old(Mem()), PageOf(a), WordIndex(a), x)
                       else if ok then Store(old(Mem()), a, x)
                       else old(Mem())
    {
      if !paging {
        WriteEntry(a / PAGE_SIZE, a % PAGE_SIZE / 4, x);
        return true;
      }
      Speculate();
      var t;
      if PageOf(a) in tlb {
        t := tlb[PageOf(a)];
      } else {
        t := TableWalk(PageOf(a));
      }
      ok := t.Mapped?;
      if ok {
        WriteEntry(t.frame, a % PAGE_SIZE / 4, x);
      }
    }

    /** A load of one aligned word by the kernel, with paging on. */
    method LoadWord(a: uint32) returns (ok: bool, x: uint32)
      requires Valid() && paging && a % 4 == 0 && Coherent(tlb, Mem())
      modifies this`tlb
      ensures Coherent(tlb, Mem())
      ensures ok <==> Walk(Mem(), a).Mapped?
      ensures ok ==> x == Load(Mem(), a)
    {
      Speculate();
      var t;
      if PageOf(a) in tlb {
        t := tlb[PageOf(a)];
      } else {
        t := TableWalk(PageOf(a));
      }
      ok, x := t.Mapped?, 0;
      if ok {
        x := ReadEntry(t.frame, a % PAGE_SIZE / 4);
      }
    }

    /** `invlpg`: speculation may run up to the moment the entry is dropped. */
    method Invlpg(a: uint32)
      requires Valid()
      modifies this`tlb
      ensures forall p :: p in tlb ==>
                p != PageOf(a) &&
                ((p in old(tlb) && tlb[p] == old(tlb)[p]) ||
                 (p < PAGES && tlb[p].Mapped? && tlb[p] == WalkPage(Mem(), p)))
    {
      Speculate();
      tlb := tlb - {PageOf(a)};
    }

    /** `paging_init`: the directory, the identity table, and the switch to paging. */
    method PagingInit()
      requires Valid() && !paging
      modifies this, phys
      ensures Valid() && paging && Mem() == InitPaging(old(Mem()))
      ensures Coherent(tlb, Mem())
    {
      ghost var m := Mem();
      FillOneMore(m, DIR_FRAME, 0, _ => 2);
      for entry := 0 to ENTRIES
        invariant Valid() && !paging && Mem() == InitDirectory(m, entry)
      {
        FillOneMore(m, DIR_FRAME, entry, _ => 2);
        EntryAddress(DIR_FRAME, entry);
        var ok := StoreWord(PAGE_DIR_ADDR + 4 * entry, 2);
      }
      ghost var m1 := Mem();
      FillOneMore(m1, FIRST_TABLE_FRAME, 0, PageWalk.IdentityEntry);
      for entry := 0 to ENTRIES
        invariant Valid() && !paging && Mem() == InitTable(m1, entry)
      {
        FillOneMore(m1, FIRST_TABLE_FRAME, entry, PageWalk.IdentityEntry);
        EntryAddress(FIRST_TABLE_FRAME, entry);
        IdentityFlags(entry);
        var e: uint32 := Or(Or(Or(entry * PAGE_SIZE, PAGE_PRESENT), PAGE_WRITE), PAGE_USER);
        var ok := StoreWord(PAGE_TABLE_ADDR + 4 * entry, e);
      }
      EntryAddress(DIR_FRAME, 0);
      var ok := StoreWord(PAGE_DIR_ADDR, LinkEntry(PAGE_TABLE_ADDR));
      tlb := map[];
      paging := true;
    }

    lemma IdentityFlags(entry: nat)
      requires entry < ENTRIES
      ensures Or(Or(Or(entry * PAGE_SIZE, PAGE_PRESENT), PAGE_WRITE), PAGE_USER) == entry * PAGE_SIZE + 7
    {
      OrFlag(entry * PAGE_SIZE, 0, PAGE_PRESENT);
      OrFlag(entry * PAGE_SIZE, 1, PAGE_WRITE);
      OrFlag(entry * PAGE_SIZE, 3, PAGE_USER);
      SmallFlags();
    }
  }
}
