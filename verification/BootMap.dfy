/**
 XEOS_Mem_Initialize on values: where the zone metadata goes, how the records are laid out,
 and which pages are marked free.
 */
module BootMap {
  import opened Basics
  import opened PageMaps

  /** Size of the fixed part of a zone record on x86_64; the page map follows it. */
  const HEADER_SIZE: nat := 48

  /** Metadata must start and end below this address. */
  const MAPPED_LIMIT: nat := 0x3_0000_0000

  /** An entry of the boot memory map. */
  datatype Entry = Entry(address: nat, length: nat, kind: ZoneType) {
    function End(): nat { address + length }
  }

  /** Entries and their rounded starts stay inside the 64-bit address space. */
  predicate InRange(es: seq<Entry>) {
    forall i | 0 <= i < |es| :: es[i].End() + 0x1000 < TWO_64
  }

  predicate SortedDisjoint(es: seq<Entry>) {
    forall i, j | 0 <= i < j < |es| :: es[i].End() <= es[j].address
  }

  /** XEOS_Info_MemoryGetTotalBytes: the end of the last entry. */
  function TotalBytes(es: seq<Entry>): nat {
    if es == [] then 0 else es[|es| - 1].End()
  }

  /** The bytes reserved for all zone records and maps. */
  function MetadataBytes(es: seq<Entry>): nat {
    |es| * HEADER_SIZE + TotalBytes(es) / 0x1000
  }

  /** The last byte of the kernel's last page. */
  function KernelLast(kernelEnd: nat): (last: nat)
    ensures last / 0x1000 == kernelEnd / 0x1000 && last % 0x1000 == 0xFFF
  {
    kernelEnd - kernelEnd % 0x1000 + 0x1000 - 1
  }

  /** Pages of a region; a region of a single page (or less) gets none. */
  function PagesOf(length: nat): nat {
    if length > 0x1000 then length / 0x1000 else 0
  }

  /** Every region gets the pages its length holds, except a region of exactly one page. */
  lemma PagesOfIff(length: nat)
    ensures PagesOf(length) == length / 0x1000 <==> length != 0x1000
  {
  }

  // ---------------------------------------------------------------- placement

  /** The least multiple of the page size that is not below the address. */
  function RoundUp(a: nat): (r: nat)
    ensures r % 0x1000 == 0 && a <= r < a + 0x1000
  {
    if a % 0x1000 != 0 then a - a % 0x1000 + 0x1000 else a
  }

  /** Entries the search looks at: usable and long enough. */
  predicate Considered(e: Entry, need: nat) {
    e.kind == Usable && e.length >= need
  }

  predicate PastLimit(e: Entry, need: nat) {
    RoundUp(e.address) >= MAPPED_LIMIT || RoundUp(e.address) + need >= MAPPED_LIMIT
  }

  /** Room for the metadata right after the kernel, inside the entry. */
  predicate RoomAfterKernel(e: Entry, last: nat, need: nat) {
    e.End() - 1 > last && e.End() - 1 - last >= need
  }

  /** The placement search from entry i on; `found` is the address chosen so far (0 for none). */
  function Placement(es: seq<Entry>, i: nat, last: nat, need: nat, found: nat): nat
    requires i <= |es|
    decreases |es| - i
  {
    if i == |es| then found
    else if !Considered(es[i], need) then Placement(es, i + 1, last, need, found)
    else if PastLimit(es[i], need) then found
    else if RoundUp(es[i].address) > last then RoundUp(es[i].address)
    else if RoomAfterKernel(es[i], last, need) then Placement(es, i + 1, last, need, last + 1)
    else Placement(es, i + 1, last, need, found)
  }

  /** The search loop. */
  method FindRoom(es: seq<Entry>, last: nat, need: nat) returns (zonesAddress: nat)
    ensures zonesAddress == Placement(es, 0, last, need, 0)
  {
    zonesAddress := 0;
    var i := 0;
    while i < |es|
      invariant 0 <= i <= |es|
      invariant Placement(es, 0, last, need, 0) == Placement(es, i, last, need, zonesAddress)
    {
      var memoryStart, memoryLength := es[i].address, es[i].length;
      var memoryEnd := memoryStart + memoryLength - 1;
      if es[i].kind == Usable {
        if memoryStart % 0x1000 != 0 {
          memoryStart := memoryStart - memoryStart % 0x1000 + 0x1000;
        }
        if memoryLength >= need {
          if memoryStart >= MAPPED_LIMIT || memoryStart + need >= MAPPED_LIMIT { break; }
          if memoryStart > last {
            zonesAddress := memoryStart;
            break;
          }
          if memoryEnd > last && memoryEnd - last >= need {
            zonesAddress := last + 1;
          }
        }
      }
      i := i + 1;
    }
  }

  /** The metadata range [z, z + need) lies in the entry. */
  predicate Contains(e: Entry, z: nat, need: nat) {
    e.kind == Usable && e.address <= z && z + need <= e.End()
  }

  /** The search stops at this entry, whatever was found before. */
  predicate Stops(e: Entry, last: nat, need: nat) {
    Considered(e, need) && (PastLimit(e, need) || RoundUp(e.address) > last)
  }

  /** The first entry, from entry i on, at which the search stops. */
  function FirstStop(es: seq<Entry>, i: nat, last: nat, need: nat): (r: Option<nat>)
    requires i <= |es|
    ensures r.Some? ==> i <= r.value < |es| && Stops(es[r.value], last, need)
    ensures forall h | i <= h < (if r.Some? then r.value else |es|) :: !Stops(es[h], last, need)
    decreases |es| - i
  {
    if i == |es| then None else if Stops(es[i], last, need) then Some(i) else FirstStop(es, i + 1, last, need)
  }

  /** The entry at which the search stops because it lies above the kernel and below the limit. */
  function StopAbove(es: seq<Entry>, i: nat, last: nat, need: nat): (r: Option<nat>)
    requires i <= |es|
    ensures r.Some? ==> r.value < |es| && Considered(es[r.value], need) && RoundUp(es[r.value].address) > last
  {
    var stop := FirstStop(es, i, last, need);
    if stop.Some? && PastLimit(es[stop.value], need) then None else stop
  }

  /** Before the search stops, some entry has room right after the kernel. */
  predicate RoomBeforeStop(es: seq<Entry>, i: nat, last: nat, need: nat)
    requires i <= |es|
  {
    var stop := FirstStop(es, i, last, need);
    exists h | i <= h < (if stop.Some? then stop.value else |es|) ::
      Considered(es[h], need) && RoomAfterKernel(es[h], last, need)
  }

  /** Skipping an entry at which the search does not stop. */
  lemma {:induction false} StopsLater(es: seq<Entry>, i: nat, last: nat, need: nat)
    requires i < |es| && !Stops(es[i], last, need)
    ensures StopAbove(es, i, last, need) == StopAbove(es, i + 1, last, need)
    ensures RoomBeforeStop(es, i, last, need) <==>
      (Considered(es[i], need) && RoomAfterKernel(es[i], last, need)) || RoomBeforeStop(es, i + 1, last, need)
  {
  }

  /** The answer of the search: the rounded start of the entry it stops at, if that lies above the kernel and
      below the limit; else the byte after the kernel, if an entry before the stop has room there; else what
      was found before. */
  lemma {:induction false} PlacementIs(es: seq<Entry>, i: nat, last: nat, need: nat, found: nat)
    requires i <= |es|
    ensures Placement(es, i, last, need, found) ==
      match StopAbove(es, i, last, need)
      case Some(k) => RoundUp(es[k].address)
      case None => if RoomBeforeStop(es, i, last, need) then last + 1 else found
    decreases |es| - i
  {
    if i < |es| {
      if Stops(es[i], last, need) {
        assert FirstStop(es, i, last, need) == Some(i);
      } else {
        StopsLater(es, i, last, need);
        var room := Considered(es[i], need) && RoomAfterKernel(es[i], last, need);
        PlacementIs(es, i + 1, last, need, if room then last + 1 else found);
      }
    }
  }

  /** Where initialization puts the metadata; 0 when there is no room. */
  function MetadataAddress(es: seq<Entry>, kernelEnd: nat): nat {
    Placement(es, 0, KernelLast(kernelEnd), MetadataBytes(es), 0)
  }

  /** Rounding the entry's start up leaves the bytes needed in the entry. */
  predicate RoundsInside(e: Entry, need: nat) {
    RoundUp(e.address) - e.address <= e.length - need
  }

  /** The metadata starts on a page of its own, after the page in which the kernel ends. */
  lemma {:induction false} MetadataAboveKernel(es: seq<Entry>, kernelEnd: nat)
    requires MetadataAddress(es, kernelEnd) != 0
    ensures MetadataAddress(es, kernelEnd) % 0x1000 == 0
    ensures MetadataAddress(es, kernelEnd) / 0x1000 > kernelEnd / 0x1000
  {
    var last := KernelLast(kernelEnd);
    PlacementIs(es, 0, last, MetadataBytes(es), 0);
    PageAfter(last, kernelEnd, MetadataAddress(es, kernelEnd));
  }

  /** An address above the last byte of a page is in a later page. */
  lemma PageAfter(last: nat, kernelEnd: nat, address: nat)
    requires last / 0x1000 == kernelEnd / 0x1000 && last % 0x1000 == 0xFFF && address > last
    ensures address / 0x1000 > kernelEnd / 0x1000
    ensures address == last + 1 ==> address % 0x1000 == 0
  {
  }

  /** An entry that starts at or below the kernel's last byte has room after it exactly when it holds the bytes
      needed from the next byte on. */
  lemma RoomAfterKernelIff(e: Entry, last: nat, need: nat)
    requires need > 0 && e.kind == Usable && e.address <= last + 1
    ensures RoomAfterKernel(e, last, need) <==> Contains(e, last + 1, need)
  {
  }

  /** A usable, aligned entry above the kernel that is long enough is taken exactly when the metadata ends below
      12 GiB. */
  lemma {:induction false} MappedLimit(a: nat, length: nat, last: nat, need: nat)
    requires a % 0x1000 == 0 && a > last && length >= need
    ensures Placement([Entry(a, length, Usable)], 0, last, need, 0) == if a + need < 0x3_0000_0000 then a else 0
  {
    var es := [Entry(a, length, Usable)];
    assert RoundUp(a) == a && Considered(es[0], need);
  }

  /** Whatever the order of matches, the metadata goes above the kernel.  If the search stops at an entry above
      the kernel, the metadata lies in that entry exactly when rounding its start up does not eat the slack;
      otherwise it lies in an entry that has room after the kernel. */
  lemma {:induction false} PlacementSound(es: seq<Entry>, last: nat, need: nat)
    requires need > 0 && Placement(es, 0, last, need, 0) != 0
    ensures var z, stop := Placement(es, 0, last, need, 0), StopAbove(es, 0, last, need);
      && z > last
      && (stop.Some? ==> (Contains(es[stop.value], z, need) <==> RoundsInside(es[stop.value], need)))
      && (stop.None? ==> exists h | 0 <= h < |es| :: Contains(es[h], z, need))
  {
    PlacementIs(es, 0, last, need, 0);
    if StopAbove(es, 0, last, need).None? {
      var stop := FirstStop(es, 0, last, need);
      var h :| 0 <= h < (if stop.Some? then stop.value else |es|)
        && Considered(es[h], need) && RoomAfterKernel(es[h], last, need);
      assert !Stops(es[h], last, need);
      assert Contains(es[h], last + 1, need);
    }
  }

  /** The metadata lies in some usable entry exactly when the search does not stop at an entry above the kernel,
      or that entry's rounded start leaves room in it or in another entry. */
  lemma {:induction false} MetadataHeldIff(es: seq<Entry>, last: nat, need: nat)
    requires need > 0 && Placement(es, 0, last, need, 0) != 0
    ensures (exists m | 0 <= m < |es| :: Contains(es[m], Placement(es, 0, last, need, 0), need)) <==>
      match StopAbove(es, 0, last, need)
      case None => true
      case Some(k) =>
        || RoundsInside(es[k], need)
        || exists m | 0 <= m < |es| && m != k :: Contains(es[m], RoundUp(es[k].address), need)
  {
    PlacementIs(es, 0, last, need, 0);
    PlacementSound(es, last, need);
    var stop := StopAbove(es, 0, last, need);
    if stop.Some? && RoundsInside(es[stop.value], need) {
      assert Contains(es[stop.value], RoundUp(es[stop.value].address), need);
    }
  }

  /** With page-aligned entries the metadata always fits. */
  lemma {:induction false} AlignedPlacementFits(es: seq<Entry>, last: nat, need: nat)
    requires need > 0 && Placement(es, 0, last, need, 0) != 0
    requires forall i | 0 <= i < |es| && es[i].kind == Usable :: es[i].address % 0x1000 == 0
    ensures exists k :: 0 <= k < |es| && Contains(es[k], Placement(es, 0, last, need, 0), need)
  {
    MetadataHeldIff(es, last, need);
  }

  /** An unaligned entry that is just long enough for the bytes this very map needs: the metadata runs past
      its end, and lies in no entry. */
  lemma UnalignedPlacementOverruns()
    ensures var es := [Entry(0x10_0800, 0x1000, Usable), Entry(0xF9_0000, 0x1_0000, Reserved)];
      && InRange(es) && SortedDisjoint(es) && MetadataBytes(es) == 0x1000
      && MetadataAddress(es, 0x8_0000) == 0x10_1000
      && forall k | 0 <= k < |es| :: !Contains(es[k], 0x10_1000, 0x1000)
  {
    var es := [Entry(0x10_0800, 0x1000, Usable), Entry(0xF9_0000, 0x1_0000, Reserved)];
    assert KernelLast(0x8_0000) == 0x8_0FFF && RoundUp(0x10_0800) == 0x10_1000;
    assert Considered(es[0], 0x1000) && !PastLimit(es[0], 0x1000);
  }

  /** The entry offers room. */
  predicate Offers(e: Entry, last: nat, need: nat) {
    Considered(e, need) && !PastLimit(e, need)
    && (RoundUp(e.address) > last || RoomAfterKernel(e, last, need))
  }

  /** The search reaches entry k from entry i. */
  predicate Reached(es: seq<Entry>, i: nat, k: nat, last: nat, need: nat) {
    forall h | i <= h < k && h < |es| :: !Stops(es[h], last, need)
  }

  /** The search fails exactly when no entry it reaches offers room. */
  lemma {:induction false} PlacementFailsIff(es: seq<Entry>, i: nat, last: nat, need: nat, found: nat)
    requires i <= |es|
    ensures Placement(es, i, last, need, found) == 0 <==>
      found == 0 && forall k | i <= k < |es| && Reached(es, i, k, last, need) :: !Offers(es[k], last, need)
    decreases |es| - i
  {
    if i < |es| {
      assert Reached(es, i, i, last, need);
      forall k | i < k < |es|
        ensures Reached(es, i, k, last, need) <==> !Stops(es[i], last, need) && Reached(es, i + 1, k, last, need)
      {
      }
      PlacementFailsIff(es, i + 1, last, need, found);
      PlacementFailsIff(es, i + 1, last, need, last + 1);
    }
  }

  // ---------------------------------------------------------------- layout

  /** Offset of the m-th record in the metadata area. */
  function Offset(es: seq<Entry>, m: nat): nat
    requires m <= |es|
  {
    if m == 0 then 0 else Offset(es, m - 1) + HEADER_SIZE + PagesOf(es[m - 1].length)
  }

  lemma {:induction false} OffsetsAscend(es: seq<Entry>, i: nat, j: nat)
    requires i < j <= |es|
    ensures Offset(es, i) + HEADER_SIZE + PagesOf(es[i].length) <= Offset(es, j)
  {
    if i + 1 < j { OffsetsAscend(es, i, j - 1); }
  }

  /** On a sorted, disjoint map the first m records take at most one byte per page below the m-th end. */
  lemma {:induction false} OffsetBound(es: seq<Entry>, m: nat)
    requires SortedDisjoint(es) && 0 < m <= |es|
    ensures Offset(es, m) <= m * HEADER_SIZE + es[m - 1].End() / 0x1000
  {
    if m > 1 {
      OffsetBound(es, m - 1);
      assert es[m - 2].End() <= es[m - 1].address;
    }
  }

  /** Pages of the first m entries. */
  function TotalPages(es: seq<Entry>, m: nat): nat
    requires m <= |es|
  {
    if m == 0 then 0 else TotalPages(es, m - 1) + PagesOf(es[m - 1].length)
  }

  /** The map announces no more pages than the end of its last entry makes room for. */
  predicate Roomy(es: seq<Entry>) {
    TotalPages(es, |es|) <= TotalBytes(es) / 0x1000
  }

  lemma {:induction false} OffsetIsSum(es: seq<Entry>, m: nat)
    requires m <= |es|
    ensures Offset(es, m) == m * HEADER_SIZE + TotalPages(es, m)
  {
    if m > 0 { OffsetIsSum(es, m - 1); }
  }

  /** The records stay inside the reserved bytes exactly when the map is roomy, sorted or not. */
  lemma {:induction false} RecordsFitIff(es: seq<Entry>)
    ensures Offset(es, |es|) <= MetadataBytes(es) <==> Roomy(es)
  {
    OffsetIsSum(es, |es|);
  }

  /** Every sorted, disjoint map is roomy. */
  lemma {:induction false} SortedIsRoomy(es: seq<Entry>)
    requires SortedDisjoint(es)
    ensures Roomy(es)
  {
    if es != [] {
      OffsetBound(es, |es|);
      OffsetIsSum(es, |es|);
    }
  }

  /** The records follow each other without overlap and never pass the reserved bytes, and only the last one
      can end at the last of them. */
  lemma {:induction false} RecordsFit(es: seq<Entry>, q: nat)
    requires Roomy(es) && q < |es|
    ensures Offset(es, q) + HEADER_SIZE + PagesOf(es[q].length) == Offset(es, q + 1) <= Offset(es, |es|)
    ensures Offset(es, |es|) <= MetadataBytes(es)
    ensures q + 1 < |es| ==> Offset(es, q + 1) < MetadataBytes(es)
  {
    RecordsFitIff(es);
    if q + 1 < |es| { OffsetsAscend(es, q + 1, |es|); }
  }

  /** Unsorted maps can go either way: the total is taken from the last entry only. */
  lemma UnsortedMaps()
    ensures !Roomy([Entry(0x10_0000, 0x10_0000, Usable), Entry(0, 0x2000, Usable)])
    ensures var es := [Entry(0x20_0000, 0x10_0000, Usable), Entry(0x10_0000, 0x10_0000, Usable)];
      !SortedDisjoint(es) && Roomy(es)
  {
    var low := [Entry(0x10_0000, 0x10_0000, Usable), Entry(0, 0x2000, Usable)];
    assert TotalPages(low, 1) == 0x100 && TotalPages(low, 2) == 0x102;
    var high := [Entry(0x20_0000, 0x10_0000, Usable), Entry(0x10_0000, 0x10_0000, Usable)];
    assert high[0].End() > high[1].address;
    assert TotalPages(high, 1) == 0x100 && TotalPages(high, 2) == 0x200;
  }

  // ---------------------------------------------------------------- zones

  /** The byte initialization leaves for page j of an entry whose record is at address `record`. */
  function Mark(e: Entry, j: nat, record: nat, need: nat): Byte {
    if e.kind == Usable && e.address + j * 0x1000 >= record + need then 1 else 0
  }

  /** The zone initialization builds for an entry whose record is `at` bytes into the metadata at z.
      The byte after its map is cleared if it is still inside the `need` reserved bytes; otherwise it
      is the byte that follows them. */
  predicate Planned(b: Zone, e: Entry, at: nat, z: nat, need: nat, beyond: Byte) {
    && b.kind == e.kind && b.base == e.address && b.length == e.length && b.pageCount == PagesOf(e.length)
    && |b.bytes| == b.pageCount + 1 && b.freePageCount == Ones(b.bytes, b.pageCount)
    && (forall j | 0 <= j < b.pageCount :: b.bytes[j] == Mark(e, j, z + at, need))
    && b.bytes[b.pageCount] == if at + HEADER_SIZE + b.pageCount < need then 0 else beyond
  }

  function BootZone(es: seq<Entry>, q: nat, z: nat, need: nat, beyond: Byte): (b: Zone)
    requires q < |es|
    ensures Planned(b, es[q], Offset(es, q), z, need, beyond)
  {
    var e, at, pc := es[q], Offset(es, q), PagesOf(es[q].length);
    var stop := if at + HEADER_SIZE + pc < need then 0 else beyond;
    var bytes := seq(pc, j requires j >= 0 => Mark(e, j, z + at, need)) + [stop];
    Zone(e.kind, e.address, e.length, pc, Ones(bytes, pc), bytes)
  }

  /** All zones: metadata at address z, `need` bytes reserved, then the byte `beyond`. */
  function BootZones(es: seq<Entry>, z: nat, need: nat, beyond: Byte): (zs: seq<Zone>)
    ensures |zs| == |es|
    ensures forall q {:trigger zs[q]} | 0 <= q < |es| :: Planned(zs[q], es[q], Offset(es, q), z, need, beyond)
  {
    seq(|es|, q requires 0 <= q < |es| => BootZone(es, q, z, need, beyond))
  }

  /** From record i on, at offset `at`, each zone is planned where the one before it ends, and fits. */
  predicate PlannedFrom(es: seq<Entry>, zs: seq<Zone>, i: nat, at: nat, z: nat, need: nat, beyond: Byte)
    requires |zs| == |es|
    decreases |es| - i
  {
    i >= |es| || (Planned(zs[i], es[i], at, z, need, beyond)
                  && at + HEADER_SIZE + zs[i].pageCount <= need
                  && PlannedFrom(es, zs, i + 1, at + HEADER_SIZE + zs[i].pageCount, z, need, beyond))
  }

  lemma {:induction false} PlannedStep(es: seq<Entry>, zs: seq<Zone>, i: nat, z: nat, need: nat, beyond: Byte)
    requires i < |es| == |zs| && Planned(zs[i], es[i], Offset(es, i), z, need, beyond)
    requires Offset(es, i + 1) <= need && PlannedFrom(es, zs, i + 1, Offset(es, i + 1), z, need, beyond)
    ensures PlannedFrom(es, zs, i, Offset(es, i), z, need, beyond)
  {
    assert Offset(es, i) + HEADER_SIZE + zs[i].pageCount == Offset(es, i + 1);
  }

  lemma {:induction false} PlannedFromOffset(es: seq<Entry>, zs: seq<Zone>, i: nat, z: nat, need: nat, beyond: Byte)
    requires Roomy(es) && i <= |es| == |zs| && need == MetadataBytes(es)
    requires forall q {:trigger zs[q]} | 0 <= q < |es| :: Planned(zs[q], es[q], Offset(es, q), z, need, beyond)
    ensures PlannedFrom(es, zs, i, Offset(es, i), z, need, beyond)
    decreases |es| - i
  {
    if i < |es| {
      RecordsFit(es, i);
      PlannedFromOffset(es, zs, i + 1, z, need, beyond);
      PlannedStep(es, zs, i, z, need, beyond);
    }
  }

  lemma {:induction false} BootZonesPlanned(es: seq<Entry>, z: nat, need: nat, beyond: Byte)
    requires Roomy(es) && need == MetadataBytes(es)
    ensures PlannedFrom(es, BootZones(es, z, need, beyond), 0, 0, z, need, beyond)
  {
    PlannedFromOffset(es, BootZones(es, z, need, beyond), 0, z, need, beyond);
  }

  // ---------------------------------------------------------------- totals

  function SumOfLengths(es: seq<Entry>, m: nat): nat
    requires m <= |es|
  {
    if m == 0 then 0 else SumOfLengths(es, m - 1) + es[m - 1].length
  }

  /** Where entry i would start in a map without holes. */
  function EndBefore(es: seq<Entry>, i: nat): nat
    requires i <= |es|
  {
    if i == 0 then 0 else es[i - 1].End()
  }

  /** The first m entries start at 0 and each continues the one before. */
  predicate NoHoles(es: seq<Entry>, m: nat)
    requires m <= |es|
  {
    forall i {:trigger EndBefore(es, i)} | 0 <= i < m :: es[i].address == EndBefore(es, i)
  }

  /** The zones' total is at most the boot total, and equal exactly when the map has no holes. */
  lemma {:induction false} TotalIsBootTotalIff(es: seq<Entry>, m: nat)
    requires SortedDisjoint(es) && 0 < m <= |es|
    ensures SumOfLengths(es, m) <= es[m - 1].End()
    ensures SumOfLengths(es, m) == es[m - 1].End() <==> NoHoles(es, m)
  {
    assert NoHoles(es, m) ==> es[m - 1].address == EndBefore(es, m - 1);
    if m > 1 {
      TotalIsBootTotalIff(es, m - 1);
      assert es[m - 2].End() <= es[m - 1].address;
    }
  }
}
