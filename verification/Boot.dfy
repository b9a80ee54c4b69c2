/**
 What initialization establishes: the allocator's invariant, safe free pages, and frees that
 find their page again.
 */
module Boot {
  import opened Basics
  import opened PageMaps
  import opened Ownership
  import opened Protocol
  import opened BootMap

  lemma {:induction false} PlannedWellFormedIff(es: seq<Entry>, q: nat, z: nat, beyond: Byte, b: Zone)
    requires Roomy(es) && q < |es| && Planned(b, es[q], Offset(es, q), z, MetadataBytes(es), beyond)
    ensures b.WellFormed() <==> q + 1 < |es| || Offset(es, |es|) < MetadataBytes(es) || beyond != 1
  {
    RecordsFit(es, q);
  }

  /** Initialization establishes the allocator's invariant exactly when the byte after the last map
      stops a run: it was cleared (the maps leave some reserved byte unused) or happens not to be 1. */
  lemma {:induction false} BootWellFormedIff(es: seq<Entry>, z: nat, beyond: Byte)
    requires Roomy(es)
    ensures WellFormed(BootZones(es, z, MetadataBytes(es), beyond))
      <==> es == [] || Offset(es, |es|) < MetadataBytes(es) || beyond != 1
  {
    var zs := BootZones(es, z, MetadataBytes(es), beyond);
    forall q | 0 <= q < |es|
      ensures zs[q].WellFormed() <==> q + 1 < |es| || Offset(es, |es|) < MetadataBytes(es) || beyond != 1
    {
      PlannedWellFormedIff(es, q, z, beyond, zs[q]);
    }
    if es != [] && Offset(es, |es|) >= MetadataBytes(es) && beyond == 1 {
      assert !zs[|es| - 1].WellFormed();
    }
  }

  /** A page inside one entry is outside every other. */
  lemma Elsewhere(es: seq<Entry>, x: nat, y: nat, page: nat)
    requires SortedDisjoint(es) && x < |es| && y < |es| && x != y
    requires es[x].address <= page && page + 0x1000 <= es[x].End()
    ensures page + 0x1000 <= es[y].address || es[y].End() <= page
  {
    if y < x {
      assert es[y].End() <= es[x].address;
    } else {
      assert es[x].End() <= es[y].address;
    }
  }

  lemma MarkedIsAbove(b: Zone, e: Entry, at: nat, z: nat, need: nat, beyond: Byte, j: nat)
    requires Planned(b, e, at, z, need, beyond) && j < b.pageCount && b.bytes[j] == 1
    ensures e.kind == Usable
    ensures e.address <= e.address + j * 0x1000 && e.address + j * 0x1000 + 0x1000 <= e.End()
    ensures z + at + need <= e.address + j * 0x1000
  {
    assert b.bytes[j] == Mark(e, j, z + at, need);
  }

  /** A page marked free lies wholly in a usable entry and above the whole metadata area. */
  lemma FreeIsAboveMetadata(es: seq<Entry>, z: nat, need: nat, beyond: Byte, p: Place)
    requires IsFree(BootZones(es, z, need, beyond), p)
    ensures p.zone < |es| && es[p.zone].kind == Usable
    ensures var page := AddressOf(BootZones(es, z, need, beyond), p);
      es[p.zone].address <= page && page + 0x1000 <= es[p.zone].End() && z + need <= page
  {
    var zs := BootZones(es, z, need, beyond);
    MarkedIsAbove(zs[p.zone], es[p.zone], Offset(es, p.zone), z, need, beyond, p.index);
  }

  /** After initialization every page marked free lies wholly in one usable entry and in no other
      entry, above the whole metadata area and above the kernel's last page. */
  lemma FreePagesAreSafe(es: seq<Entry>, kernelEnd: nat, beyond: Byte, z: nat, p: Place)
    requires SortedDisjoint(es) && z == MetadataAddress(es, kernelEnd) && z != 0
    requires IsFree(BootZones(es, z, MetadataBytes(es), beyond), p)
    ensures p.zone < |es| && es[p.zone].kind == Usable
    ensures var page := AddressOf(BootZones(es, z, MetadataBytes(es), beyond), p);
      && es[p.zone].address <= page && page + 0x1000 <= es[p.zone].End()
      && (forall y | 0 <= y < |es| && y != p.zone :: page + 0x1000 <= es[y].address || es[y].End() <= page)
      && z + MetadataBytes(es) <= page && page / 0x1000 > kernelEnd / 0x1000 && page != NULL
  {
    FreeIsAboveMetadata(es, z, MetadataBytes(es), beyond, p);
    MetadataAboveKernel(es, kernelEnd);
    var page := AddressOf(BootZones(es, z, MetadataBytes(es), beyond), p);
    forall y | 0 <= y < |es| && y != p.zone
      ensures page + 0x1000 <= es[y].address || es[y].End() <= page
    {
      Elsewhere(es, p.zone, y, page);
    }
  }

  lemma BootAddressable(es: seq<Entry>, z: nat, need: nat, beyond: Byte)
    requires InRange(es)
    ensures Addressable(BootZones(es, z, need, beyond))
    ensures UsableBytes(BootZones(es, z, need, beyond))
  {
    var zs := BootZones(es, z, need, beyond);
    forall q | 0 <= q < |zs|
      ensures zs[q].base + zs[q].length < TWO_64 && zs[q].pageCount * 0x1000 <= zs[q].length
    {
      assert es[q].End() + 0x1000 < TWO_64 && Planned(zs[q], es[q], Offset(es, q), z, need, beyond);
    }
  }

  /** Only usable zones have a 1 in their map. */
  predicate UsableBytes(zs: seq<Zone>) {
    forall q, j | 0 <= q < |zs| && 0 <= j < zs[q].pageCount && j < |zs[q].bytes| && zs[q].bytes[j] == 1 ::
      zs[q].kind == Usable
  }

  /** A page is free after boot exactly when its entry is usable and it lies above the entry's record by the
      reserved bytes. */
  lemma {:induction false} BootFreeIff(es: seq<Entry>, z: nat, need: nat, beyond: Byte, zs: seq<Zone>, p: Place)
    requires zs == BootZones(es, z, need, beyond)
    ensures IsFree(zs, p) <==>
      && p.zone < |es| && es[p.zone].kind == Usable && p.index < PagesOf(es[p.zone].length)
      && es[p.zone].address + p.index * 0x1000 >= z + Offset(es, p.zone) + need
  {
    if p.zone < |es| {
      assert Planned(zs[p.zone], es[p.zone], Offset(es, p.zone), z, need, beyond);
      if p.index < PagesOf(es[p.zone].length) {
        assert zs[p.zone].bytes[p.index] == Mark(es[p.zone], p.index, z + Offset(es, p.zone), need);
      }
    }
  }

  /** Index of the first page of the entry at or above the address. */
  function FirstPageFrom(e: Entry, least: nat): (j: nat)
    ensures forall k: nat :: e.address + k * 0x1000 >= least <==> k >= j
  {
    if e.address >= least then 0 else (least - e.address + 0xFFF) / 0x1000
  }

  /** An entry with a free page is aligned, and every earlier entry ends below its first free page. */
  predicate Serviceable(es: seq<Entry>, z: nat, need: nat, i: nat)
    requires i < |es|
  {
    var e, j := es[i], FirstPageFrom(es[i], z + Offset(es, i) + need);
    e.kind == Usable && j < PagesOf(e.length) ==>
      e.address % 0x1000 == 0 && forall h | 0 <= h < i :: es[h].End() < e.address + j * 0x1000
  }

  predicate AllServiceable(es: seq<Entry>, z: nat, need: nat) {
    forall i | 0 <= i < |es| :: Serviceable(es, z, need, i)
  }

  /** On a sorted map earlier entries end below every page of a later one, except that they may touch its first. */
  lemma SortedEndsBelow(es: seq<Entry>, i: nat, j: nat)
    requires SortedDisjoint(es) && i < |es|
    ensures (forall h | 0 <= h < i :: es[h].End() < es[i].address + j * 0x1000)
      <==> j > 0 || forall h | 0 <= h < i :: es[h].End() != es[i].address
  {
    assert forall h | 0 <= h < i :: es[h].End() <= es[i].address;
  }

  /** A page of an entry is separated exactly when the entry is aligned and earlier entries end below the page. */
  lemma {:induction false} BootSeparatedIff(es: seq<Entry>, z: nat, need: nat, beyond: Byte, zs: seq<Zone>, p: Place)
    requires zs == BootZones(es, z, need, beyond) && p.zone < |es|
    ensures Separated(zs, p) <==>
      && es[p.zone].address % 0x1000 == 0
      && forall h | 0 <= h < p.zone :: es[h].End() < es[p.zone].address + p.index * 0x1000
  {
    assert Planned(zs[p.zone], es[p.zone], Offset(es, p.zone), z, need, beyond);
    forall h | 0 <= h < p.zone ensures zs[h].base + zs[h].length == es[h].End() {
      assert Planned(zs[h], es[h], Offset(es, h), z, need, beyond);
    }
  }

  /** A page can be given back exactly when its entry is aligned and every earlier entry ends below the page; on
      a sorted map, exactly when its entry is aligned and it is not the first page of an entry that touches an
      earlier one. */
  lemma {:induction false} BootRoutingExact(es: seq<Entry>, z: nat, need: nat, beyond: Byte, zs: seq<Zone>, p: Place)
    requires InRange(es) && zs == BootZones(es, z, need, beyond) && InMap(zs, p)
    ensures Resolve(zs, AddressOf(zs, p)) == Some(p) <==>
      && es[p.zone].address % 0x1000 == 0
      && forall h | 0 <= h < p.zone :: es[h].End() < es[p.zone].address + p.index * 0x1000
    ensures SortedDisjoint(es) ==>
      (Resolve(zs, AddressOf(zs, p)) == Some(p) <==>
        && es[p.zone].address % 0x1000 == 0
        && (p.index > 0 || forall h | 0 <= h < p.zone :: es[h].End() != es[p.zone].address))
  {
    BootAddressable(es, z, need, beyond);
    ResolveExact(zs, p);
    BootSeparatedIff(es, z, need, beyond, zs, p);
    if SortedDisjoint(es) { SortedEndsBelow(es, p.zone, p.index); }
  }

  /** Every free page of zone i is separated. */
  ghost predicate FreeSeparated(zs: seq<Zone>, i: nat)
    requires i < |zs|
  {
    forall j: nat | IsFree(zs, Place(i, j)) :: Separated(zs, Place(i, j))
  }

  lemma {:induction false} AllFreeSeparatedIff(zs: seq<Zone>)
    ensures (forall p | IsFree(zs, p) :: Separated(zs, p)) <==> forall i | 0 <= i < |zs| :: FreeSeparated(zs, i)
  {
    if forall i | 0 <= i < |zs| :: FreeSeparated(zs, i) {
      forall p | IsFree(zs, p) ensures Separated(zs, p) {
        assert FreeSeparated(zs, p.zone) && p == Place(p.zone, p.index);
      }
    }
  }

  lemma {:induction false} ServiceableIff(es: seq<Entry>, z: nat, need: nat, beyond: Byte, zs: seq<Zone>, i: nat)
    requires zs == BootZones(es, z, need, beyond) && i < |es|
    ensures Serviceable(es, z, need, i) <==> FreeSeparated(zs, i)
  {
    var e, first := es[i], FirstPageFrom(es[i], z + Offset(es, i) + need);
    forall j: nat
      ensures IsFree(zs, Place(i, j)) <==> e.kind == Usable && first <= j < PagesOf(e.length)
      ensures Separated(zs, Place(i, j)) <==>
        e.address % 0x1000 == 0 && forall h | 0 <= h < i :: es[h].End() < e.address + j * 0x1000
    {
      BootFreeIff(es, z, need, beyond, zs, Place(i, j));
      BootSeparatedIff(es, z, need, beyond, zs, Place(i, j));
    }
    if FreeSeparated(zs, i) && e.kind == Usable && first < PagesOf(e.length) {
      assert IsFree(zs, Place(i, first));
    }
  }

  lemma {:induction false} AllServiceableIff(es: seq<Entry>, z: nat, need: nat, beyond: Byte, zs: seq<Zone>)
    requires zs == BootZones(es, z, need, beyond)
    ensures AllServiceable(es, z, need) <==> forall p | IsFree(zs, p) :: Separated(zs, p)
  {
    AllFreeSeparatedIff(zs);
    forall i | 0 <= i < |es| ensures Serviceable(es, z, need, i) <==> FreeSeparated(zs, i) {
      ServiceableIff(es, z, need, beyond, zs, i);
    }
  }

  /** From boot to allocator: on every map whose records fit, sorted or not, the zones are ready for every
      sequential trace and every interleaving exactly when a byte behind the last map stops a run and every
      entry is serviceable. */
  lemma {:induction false} BootIsReady(es: seq<Entry>, z: nat, beyond: Byte, zs: seq<Zone>)
    requires InRange(es) && Roomy(es) && zs == BootZones(es, z, MetadataBytes(es), beyond)
    ensures Bootable(zs) <==>
      && (es == [] || Offset(es, |es|) < MetadataBytes(es) || beyond != 1)
      && AllServiceable(es, z, MetadataBytes(es))
    ensures Bootable(zs) ==> UsableOnly(zs)
  {
    var need := MetadataBytes(es);
    BootWellFormedIff(es, z, beyond);
    BootAddressable(es, z, need, beyond);
    AllServiceableIff(es, z, need, beyond, zs);
    if WellFormed(zs) { OnesAreUsable(zs); }
  }

  /** On a sorted map, usable entries that are aligned and touch no earlier entry are serviceable wherever the
      metadata goes. */
  lemma {:induction false} CleanIsServiceable(es: seq<Entry>, z: nat, need: nat)
    requires SortedDisjoint(es) && forall i | 0 <= i < |es| && es[i].kind == Usable ::
      es[i].address % 0x1000 == 0 && forall h | 0 <= h < i :: es[h].End() != es[i].address
    ensures AllServiceable(es, z, need)
  {
    forall i | 0 <= i < |es| ensures Serviceable(es, z, need, i) {
      SortedEndsBelow(es, i, FirstPageFrom(es[i], z + Offset(es, i) + need));
    }
  }

  lemma {:induction false} OnesAreUsable(zs: seq<Zone>)
    requires WellFormed(zs) && UsableBytes(zs)
    ensures UsableOnly(zs)
  {
    forall q, j | 0 <= q < |zs| && 0 <= j < |zs[q].bytes| && zs[q].bytes[j] == 1 ensures j < zs[q].pageCount {
      assert zs[q].WellFormed();
    }
  }

  /** The byte behind the last map lies in a page that can be handed out exactly when the maps fill the reserved
      bytes and the address behind them is a page marked free. */
  lemma {:induction false} LastStopByteExposedIff(es: seq<Entry>, z: nat, beyond: Byte, zs: seq<Zone>)
    requires Roomy(es) && zs == BootZones(es, z, MetadataBytes(es), beyond)
    ensures (exists p | IsFree(zs, p) :: AddressOf(zs, p) <= z + Offset(es, |es|) < AddressOf(zs, p) + 0x1000) <==>
      && Offset(es, |es|) == MetadataBytes(es)
      && exists p | IsFree(zs, p) :: AddressOf(zs, p) == z + MetadataBytes(es)
  {
    RecordsFitIff(es);
    forall p | IsFree(zs, p) ensures z + MetadataBytes(es) <= AddressOf(zs, p) {
      FreeIsAboveMetadata(es, z, MetadataBytes(es), beyond, p);
    }
  }

  /** Whatever the interleaving, every page handed out is a whole page of one usable entry, above the metadata
      and the kernel. */
  lemma {:induction false} EveryResultIsSafe(es: seq<Entry>, kernelEnd: nat, beyond: Byte, z: nat, boot: seq<Zone>,
                                             threads: nat, run: seq<Step>, t: nat, p: Place)
    requires InRange(es) && SortedDisjoint(es) && z == MetadataAddress(es, kernelEnd) && z != 0
    requires boot == BootZones(es, z, MetadataBytes(es), beyond) && Bootable(boot)
    requires Legal(Start(boot, threads), run) && t < |Exec(Start(boot, threads), run).threads|
    requires p in Granted(Exec(Start(boot, threads), run).threads[t])
    ensures p.zone < |es| && es[p.zone].kind == Usable
    ensures var page := AddressOf(boot, p);
      && es[p.zone].address <= page && page + 0x1000 <= es[p.zone].End()
      && (forall y | 0 <= y < |es| && y != p.zone :: page + 0x1000 <= es[y].address || es[y].End() <= page)
      && z + MetadataBytes(es) <= page && page / 0x1000 > kernelEnd / 0x1000 && page != NULL
  {
    SortedIsRoomy(es);
    BootIsReady(es, z, beyond, boot);
    StartInv(boot, threads);
    RunKeepsInv(boot, Start(boot, threads), run);
    GrantedWasFree(boot, Exec(Start(boot, threads), run), t, p);
    FreePagesAreSafe(es, kernelEnd, beyond, z, p);
  }

  // ---------------------------------------------------------------- machines

  /** An ordinary machine: memory below 640 KB, two reserved areas, and memory from 1 MB on that touches the
      second of them.  Its zones are ready, because the touching page is below the metadata. */
  lemma {:induction false} OrdinaryMachine()
    ensures var es := [Entry(0, 0x9_FC00, Usable), Entry(0x9_FC00, 0x400, Reserved),
                       Entry(0xF_0000, 0x1_0000, Reserved), Entry(0x10_0000, 0x7EE_0000, Usable)];
      var zs := BootZones(es, 0x18_1000, MetadataBytes(es), 1);
      && InRange(es) && SortedDisjoint(es) && es[3].address == es[2].End()
      && MetadataBytes(es) == 0x80A0 && MetadataAddress(es, 0x18_0000) == 0x18_1000
      && Bootable(zs) && UsableOnly(zs) && !IsFree(zs, Place(3, 0x89)) && IsFree(zs, Place(3, 0x8A))
  {
    var es := [Entry(0, 0x9_FC00, Usable), Entry(0x9_FC00, 0x400, Reserved),
               Entry(0xF_0000, 0x1_0000, Reserved), Entry(0x10_0000, 0x7EE_0000, Usable)];
    assert Offset(es, 1) == 48 + 0x9F && Offset(es, 2) == 96 + 0x9F;
    assert Offset(es, 3) == 144 + 0xAF && Offset(es, 4) == 192 + 0x7F8F;
    assert MetadataBytes(es) == 0x80A0 && KernelLast(0x18_0000) == 0x18_0FFF;
    assert Placement(es, 3, 0x18_0FFF, 0x80A0, 0) == Placement(es, 4, 0x18_0FFF, 0x80A0, 0x18_1000) == 0x18_1000;
    assert Placement(es, 1, 0x18_0FFF, 0x80A0, 0) == Placement(es, 2, 0x18_0FFF, 0x80A0, 0);
    var zs := BootZones(es, 0x18_1000, 0x80A0, 1);
    assert AllServiceable(es, 0x18_1000, 0x80A0);
    BootIsReady(es, 0x18_1000, 1, zs);
    BootFreeIff(es, 0x18_1000, 0x80A0, 1, zs, Place(3, 0x89));
    BootFreeIff(es, 0x18_1000, 0x80A0, 1, zs, Place(3, 0x8A));
  }

  /** Two usable entries that touch above the kernel: the first page of the second is free after boot, and once
      taken it cannot be given back.  The free marks the byte behind the first zone's map instead and raises
      the first zone's counter, so the first zone is no longer well formed. */
  lemma {:induction false} TouchingEntriesMisroute()
    ensures var es := [Entry(0x10_0000, 0x2000, Usable), Entry(0x10_2000, 0x4000, Usable)];
      var zs, p := BootZones(es, MetadataAddress(es, 0x8_0000), MetadataBytes(es), 0), Place(1, 0);
      && InRange(es) && SortedDisjoint(es) && WellFormed(zs) && IsFree(zs, p) && AddressOf(zs, p) == 0x10_2000
      && Resolve(Claim(zs, p, 1), 0x10_2000) == Some(Place(0, 2)) && FreeInBounds(Claim(zs, p, 1), 0x10_2000, 1)
      && FreePages(Claim(zs, p, 1), 0x10_2000, 1)[1].bytes[0] == 0
      && !FreePages(Claim(zs, p, 1), 0x10_2000, 1)[0].WellFormed()
  {
    var es := [Entry(0x10_0000, 0x2000, Usable), Entry(0x10_2000, 0x4000, Usable)];
    assert Offset(es, 0) == 0 && Offset(es, 1) == 50 && Offset(es, 2) == 102 && MetadataBytes(es) == 0x166;
    assert KernelLast(0x8_0000) == 0x8_0FFF && MetadataAddress(es, 0x8_0000) == 0x10_0000;
    var zs, p := BootZones(es, 0x10_0000, 0x166, 0), Place(1, 0);
    assert Planned(zs[0], es[0], 0, 0x10_0000, 0x166, 0) && Planned(zs[1], es[1], 50, 0x10_0000, 0x166, 0);
    BootFreeIff(es, 0x10_0000, 0x166, 0, zs, p);
    assert WellFormed(zs) by {
      SortedIsRoomy(es);
      BootWellFormedIff(es, 0x10_0000, 0);
    }
    assert FindZone(Claim(zs, p, 1), 0, 0x10_2000) == Some(0);
    assert Resolve(Claim(zs, p, 1), 0x10_2000) == Some(Place(0, 2));
    assert !FreePages(Claim(zs, p, 1), 0x10_2000, 1)[0].HasStopByte();
  }

  // ---------------------------------------------------------------- totals

  predicate SameLengths(zs: seq<Zone>, es: seq<Entry>) {
    |zs| == |es| && forall q {:trigger zs[q]} | 0 <= q < |es| :: zs[q].length == es[q].length
  }

  lemma {:induction false} TotalIsSum(es: seq<Entry>, zs: seq<Zone>, m: nat)
    requires SameLengths(zs, es) && m <= |es|
    ensures TotalLength(zs, m) == SumOfLengths(es, m)
  {
    if m > 0 { TotalIsSum(es, zs, m - 1); }
  }

  lemma {:induction false} BootLengths(es: seq<Entry>, z: nat, need: nat, beyond: Byte)
    ensures SameLengths(BootZones(es, z, need, beyond), es)
  {
  }

  lemma {:induction false} TotalIff(es: seq<Entry>, zs: seq<Zone>)
    requires SortedDisjoint(es) && es != [] && SameLengths(zs, es)
    ensures TotalLength(zs, |zs|) <= TotalBytes(es)
    ensures TotalLength(zs, |zs|) == TotalBytes(es) <==> NoHoles(es, |es|)
  {
    TotalIsSum(es, zs, |es|);
    TotalIsBootTotalIff(es, |es|);
  }

  /** XEOS_Mem_GetTotalBytes after initialization is at most the boot total, with equality exactly when
      the map starts at 0 and has no holes. */
  lemma {:induction false} TotalAfterBootIff(es: seq<Entry>, z: nat, need: nat, beyond: Byte, zs: seq<Zone>)
    requires SortedDisjoint(es) && es != [] && zs == BootZones(es, z, need, beyond)
    ensures TotalLength(zs, |zs|) <= TotalBytes(es)
    ensures TotalLength(zs, |zs|) == TotalBytes(es) <==> NoHoles(es, |es|)
  {
    BootLengths(es, z, need, beyond);
    TotalIff(es, zs);
  }
}
