/** The BIOS memory map: filtering the E820 entries into the bounded table of usable
    regions (kernel/memory/memory_map.c). */
module MemoryMap {
  import opened Bits
  import opened FrameTable

  const E820_TYPE_AVAILABLE := 1

  datatype E820Entry = E820Entry(base: uint64, length: uint64, kind: uint32, reserved: uint32)

  function ToRegion(e: E820Entry): Region {
    Region(e.base, e.length, e.kind)
  }

  /** The Available entries, in the order in which the BIOS reports them. */
  function Available(entries: seq<E820Entry>): seq<Region> {
    if entries == [] then []
    else
      var last := entries[|entries| - 1];
      Available(entries[..|entries| - 1]) + if last.kind == E820_TYPE_AVAILABLE then [ToRegion(last)] else []
  }

  function FirstRegions(regions: seq<Region>): seq<Region> {
    if |regions| <= MAX_MEMORY_REGIONS then regions else regions[..MAX_MEMORY_REGIONS]
  }

  /** Positions of the Available entries. */
  function Positions(entries: seq<E820Entry>): seq<nat> {
    if entries == [] then []
    else
      var n := |entries| - 1;
      Positions(entries[..n]) + if entries[n].kind == E820_TYPE_AVAILABLE then [n] else []
  }

  lemma {:induction false} PositionsExact(entries: seq<E820Entry>)
    ensures forall i: nat :: i in Positions(entries) <==> i < |entries| && entries[i].kind == E820_TYPE_AVAILABLE
  {
    if entries != [] {
      var n := |entries| - 1;
      PositionsExact(entries[..n]);
      forall i: nat
        ensures i in Positions(entries) <==> i < |entries| && entries[i].kind == E820_TYPE_AVAILABLE
      {
        assert i < n ==> entries[..n][i] == entries[i];
        assert i in Positions(entries) <==> i in Positions(entries[..n]) || (i == n && entries[n].kind == E820_TYPE_AVAILABLE);
      }
    }
  }

  lemma {:induction false} RegionsAtPositions(entries: seq<E820Entry>)
    ensures var ps, rs := Positions(entries), Available(entries);
            && |rs| == |ps|
            && (forall k :: 0 <= k < |ps| ==> ps[k] < |entries| && rs[k] == ToRegion(entries[ps[k]]))
            && (forall j, k :: 0 <= j < k < |ps| ==> ps[j] < ps[k])
  {
    if entries != [] {
      var n := |entries| - 1;
      RegionsAtPositions(entries[..n]);
      var front := Positions(entries[..n]);
      assert forall k :: 0 <= k < |front| ==> entries[..n][front[k]] == entries[front[k]];
    }
  }

  /** `r` is the entry `e`, which is of type 1, field by field. */
  predicate Records(r: Region, e: E820Entry) {
    r.base == e.base && r.length == e.length && r.kind == 1 && e.kind == 1
  }

  /** `Available` keeps exactly the entries of type 1, each once, in order, with their base
      and their length. */
  lemma AvailableKeepsOrder(entries: seq<E820Entry>)
    ensures var ps, rs := Positions(entries), Available(entries);
            && |rs| == |ps|
            && (forall j, k :: 0 <= j < k < |ps| ==> ps[j] < ps[k])
            && (forall k :: 0 <= k < |ps| ==> ps[k] < |entries| && Records(rs[k], entries[ps[k]]))
            && (forall i: nat :: i in ps <==> i < |entries| && entries[i].kind == 1)
  {
    PositionsExact(entries);
    RegionsAtPositions(entries);
    hide Positions, Available;
    var ps := Positions(entries);
    assert forall k :: 0 <= k < |ps| ==> ps[k] in ps;
  }

  /** Cell `k` of the table is the `k`-th entry of type 1, and there are at most 32. */
  lemma FirstRegionsRecord(entries: seq<E820Entry>)
    ensures var ps, rs := Positions(entries), FirstRegions(Available(entries));
            && |rs| == (if |ps| <= 32 then |ps| else 32)
            && forall k :: 0 <= k < |rs| ==> ps[k] < |entries| && Records(rs[k], entries[ps[k]])
  {
    AvailableKeepsOrder(entries);
    hide Positions, Available;
  }

  class RegionTable {
    const table: array<Region>
    var count: uint16

    ghost predicate Valid()
      reads this
    {
      table.Length == MAX_MEMORY_REGIONS && count <= MAX_MEMORY_REGIONS
    }

    ghost function Regions(): seq<Region>
      requires Valid()
      reads this, table
    {
      table[..count]
    }

    constructor ()
      ensures Valid() && Regions() == [] && fresh(table)
    {
      table := new Region[MAX_MEMORY_REGIONS](_ => Region(0, 0, 0));
      count := 0;
    }

    /** `parse_and_print_e820_map`: appends the Available entries while there is room. */
    method Parse(entries: seq<E820Entry>)
      requires Valid() && |entries| < 0x1_0000
      modifies this, table
      ensures Valid() && Regions() == FirstRegions(old(Regions()) + Available(entries))
      ensures var ps := Positions(entries);
              old(count) == 0 ==>
                && count as int == (if |ps| <= 32 then |ps| else 32)
                && forall k :: 0 <= k < count ==> ps[k] < |entries| && Records(table[k], entries[ps[k]])
    {
      FirstRegionsRecord(entries);
      assert [] + Available(entries) == Available(entries);
      ghost var before := Regions();
      for i := 0 to |entries|
        invariant Valid() && Regions() == FirstRegions(before + Available(entries[..i]))
      {
        assert entries[..i + 1][..i] == entries[..i];
        ghost var grown := before + Available(entries[..i]);
        if entries[i].kind == E820_TYPE_AVAILABLE {
          assert before + Available(entries[..i + 1]) == grown + [ToRegion(entries[i])];
        } else {
          assert before + Available(entries[..i + 1]) == grown;
        }
        if entries[i].kind == E820_TYPE_AVAILABLE && count < MAX_MEMORY_REGIONS {
          table[count] := Region(entries[i].base, entries[i].length, entries[i].kind);
          count := count + 1;
        }
      }
      assert entries[..|entries|] == entries;
    }
  }
}
