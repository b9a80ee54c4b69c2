/**
 The allocator as the kernel runs it: a linked list of zone records whose page maps lie in
 one metadata area, each map right after the fixed part of its record.
 */
module PhysicalMemory {
  import opened Basics
  import opened PageMaps
  import opened BootMap

  /** struct __XEOS_Mem_Zone.  `at` is the record's offset in the metadata area. */
  class ZoneRecord {
    const kind: ZoneType
    const base: nat
    const length: nat
    const pageCount: nat
    const at: nat
    var next: ZoneRecord?
    var freePageCount: int

    constructor (kind: ZoneType, base: nat, length: nat, pageCount: nat, at: nat)
      ensures this.kind == kind && this.base == base && this.length == length
      ensures this.pageCount == pageCount && this.at == at
      ensures next == null && freePageCount == 0
    {
      this.kind, this.base, this.length, this.pageCount, this.at := kind, base, length, pageCount, at;
      next, freePageCount := null, 0;
    }

    /** Offset of the page map in the metadata area. */
    function Pages(): nat { at + HEADER_SIZE }
  }

  class Memory {
    var zones: ZoneRecord?
    var zoneCount: nat
    var area: array<Byte>
    ghost var list: seq<ZoneRecord>   // the records in list order
    ghost var view: seq<Zone>         // the same, as values

    /** The z-th record of the list, or NULL past its end. */
    ghost function At(z: nat): ZoneRecord?
      reads this`list
    {
      if z < |list| then list[z] else null
    }

    /** The list is linked and its records do not overlap in the metadata area. */
    ghost predicate Linked()
      reads `zones, `zoneCount, `area, `list, list`next
    {
      && zoneCount == |list| && zones == At(0)
      && (forall z {:trigger list[z].next} | 0 <= z < |list| :: list[z].next == At(z + 1))
      && (forall z | 0 <= z < |list| :: list[z].Pages() + list[z].pageCount < area.Length)
      && (forall y, z | 0 <= y < z < |list| :: list[y].Pages() + list[y].pageCount <= list[z].at)
    }

    /** The record and its map, with the byte after the map, is the given value. */
    ghost predicate Shows(r: ZoneRecord, z: Zone)
      reads `area, area, r`freePageCount
    {
      && z.kind == r.kind && z.base == r.base && z.length == r.length
      && z.pageCount == r.pageCount && z.freePageCount == r.freePageCount
      && |z.bytes| == r.pageCount + 1 && r.Pages() + r.pageCount < area.Length
      && forall k | 0 <= k <= r.pageCount :: z.bytes[k] == area[r.Pages() + k]
    }

    ghost predicate Valid()
      reads this, area, list
    {
      Linked() && |view| == |list| && forall z | 0 <= z < |list| :: Shows(list[z], view[z])
    }

    constructor ()
      ensures Valid() && view == [] && fresh(area)
    {
      zones, zoneCount, list, view := null, 0, [], [];
      area := new Byte[0];
    }

    /** The page loop of XEOS_Mem_Initialize: mark the pages of a usable entry above the metadata, as
        seen from the address of the record. */
    method MarkUsable(zone: ZoneRecord, e: Entry, record: nat, need: nat, ghost bytes: seq<Byte>)
      requires zone.Pages() + zone.pageCount < area.Length && zone.freePageCount == 0
      requires forall k | zone.Pages() <= k < zone.Pages() + zone.pageCount :: area[k] == 0
      requires |bytes| >= zone.pageCount && forall j | 0 <= j < zone.pageCount :: bytes[j] == Mark(e, j, record, need)
      modifies area, zone`freePageCount
      ensures zone.freePageCount == Ones(bytes, zone.pageCount)
      ensures Copied(area, zone.Pages(), bytes, zone.pageCount)
    {
      var p, pageAddress, j := zone.Pages(), e.address, 0;
      while j < zone.pageCount
        invariant 0 <= j <= zone.pageCount && pageAddress == e.address + j * 0x1000
        invariant zone.freePageCount == Ones(bytes, j)
        invariant Copied(area, p, bytes, j)
      {
        if e.kind == Usable && pageAddress >= record + need {
          area[p + j] := 1;
          zone.freePageCount := zone.freePageCount + 1;
        }
        pageAddress := pageAddress + 0x1000;
        j := j + 1;
      }
    }

    /** The record whose link changes when another one is appended. */
    static function Last(previous: ZoneRecord?): set<ZoneRecord> {
      if previous == null then {} else {previous}
    }

    /** Hang a new record for the entry at the end of the list. */
    method Append(e: Entry, at: nat, previous: ZoneRecord?) returns (zone: ZoneRecord)
      requires Linked() && at + HEADER_SIZE + PagesOf(e.length) < area.Length
      requires forall y | 0 <= y < |list| :: list[y].Pages() + list[y].pageCount <= at
      requires previous == if list == [] then null else list[|list| - 1]
      modifies `zones, `zoneCount, `list, Last(previous)`next
      ensures Linked() && list == old(list) + [zone] && fresh(zone)
      ensures zone.kind == e.kind && zone.base == e.address && zone.length == e.length
      ensures zone.pageCount == PagesOf(e.length) && zone.at == at && zone.freePageCount == 0
    {
      zone := new ZoneRecord(e.kind, e.address, e.length, PagesOf(e.length), at);
      zoneCount := zoneCount + 1;
      if previous != null { previous.next := zone; } else { zones := zone; }
      list := list + [zone];
    }

    /** Records l show the zones v, and end where the record starts or before. */
    ghost predicate ShownBelow(l: seq<ZoneRecord>, v: seq<Zone>, zone: ZoneRecord)
      reads `area, area, l`freePageCount
    {
      |v| == |l| && forall y | 0 <= y < |l| ::
        l[y] != zone && Shows(l[y], v[y]) && l[y].Pages() + l[y].pageCount <= zone.at
    }

    /** Append, and what the records before the new one still show. */
    method AppendBelow(e: Entry, at: nat, previous: ZoneRecord?) returns (zone: ZoneRecord)
      requires Valid() && at + HEADER_SIZE + PagesOf(e.length) < area.Length
      requires forall y | 0 <= y < |list| :: list[y].Pages() + list[y].pageCount <= at
      requires previous == if list == [] then null else list[|list| - 1]
      modifies `zones, `zoneCount, `list, Last(previous)`next
      ensures Linked() && list == old(list) + [zone] && fresh(zone)
      ensures ShownBelow(old(list), view, zone)
      ensures zone.kind == e.kind && zone.base == e.address && zone.length == e.length
      ensures zone.pageCount == PagesOf(e.length) && zone.at == at && zone.freePageCount == 0
    {
      zone := Append(e, at, previous);
    }

    /** Record an appended zone in the view. */
    ghost method RefreshAppended(l: seq<ZoneRecord>, v: seq<Zone>, zone: ZoneRecord, b: Zone)
      requires Linked() && list == l + [zone] && Shows(zone, b) && ShownBelow(l, v, zone)
      modifies `view
      ensures Valid() && view == v + [b] && list == l + [zone]
    {
      view := v + [b];
    }

    /** Mark the pages of a new record.  Records that end before it still show their zones. */
    method MarkZone(zone: ZoneRecord, e: Entry, z: nat, need: nat, ghost beyond: Byte, ghost b: Zone,
                    ghost l: seq<ZoneRecord>, ghost v: seq<Zone>)
      requires Planned(b, e, zone.at, z, need, beyond) && zone.Pages() + b.pageCount < area.Length
      requires zone.kind == e.kind && zone.base == e.address && zone.length == e.length
      requires zone.pageCount == b.pageCount && zone.freePageCount == 0
      requires b.bytes[b.pageCount] == area[zone.Pages() + b.pageCount]
      requires forall k | zone.Pages() <= k < zone.Pages() + zone.pageCount :: area[k] == 0
      requires ShownBelow(l, v, zone)
      modifies area, zone`freePageCount
      ensures Copied(area, zone.Pages(), b.bytes, b.pageCount)
      ensures Shows(zone, b)
      ensures ShownBelow(l, v, zone)
    {
      MarkUsable(zone, e, z + zone.at, need, b.bytes);
      forall y | 0 <= y < |l| ensures Shows(l[y], v[y]) {
        assert old(Shows(l[y], v[y]));
      }
    }

    /** Hang a new record for the entry at the end of the list, mark its pages, and record it in the view. */
    method PlaceZone(e: Entry, at: nat, z: nat, need: nat, ghost beyond: Byte, previous: ZoneRecord?, ghost b: Zone)
        returns (zone: ZoneRecord)
      requires Valid() && Planned(b, e, at, z, need, beyond) && at + HEADER_SIZE + b.pageCount <= need
      requires area.Length == need + 1 && area[need] == beyond && forall k | at <= k < need :: area[k] == 0
      requires forall y | 0 <= y < |list| :: list[y].Pages() + list[y].pageCount <= at
      requires previous == if list == [] then null else list[|list| - 1]
      modifies `zones, `zoneCount, `list, `view, area, Last(previous)`next
      ensures Valid()
      ensures list == old(list) + [zone] && fresh(zone)
      ensures view == old(view) + [b]
      ensures zone.at == at && zone.pageCount == b.pageCount
      ensures Copied(area, at + HEADER_SIZE, b.bytes, b.pageCount)
    {
      ghost var l, v := list, view;
      zone := AppendBelow(e, at, previous);
      MarkZone(zone, e, z, need, beyond, b, l, v);
      RefreshAppended(l, v, zone, b);
    }

    /** The first m of the planned zones have been built below offset `at`, and the rest of the reserved
        bytes is clear. */
    ghost predicate Built(m: nat, at: nat, need: nat, beyond: Byte, zs: seq<Zone>)
      reads `area, `list, `view, area
    {
      && |list| == m <= |zs| && view == zs[..m] && area.Length == need + 1 && area[need] == beyond
      && (forall y | 0 <= y < m :: list[y].Pages() + list[y].pageCount <= at)
      && (forall k | at <= k < need :: area[k] == 0)
    }

    lemma BuiltNext(l: seq<ZoneRecord>, zone: ZoneRecord, at: nat, need: nat, beyond: Byte, zs: seq<Zone>)
      requires |l| < |zs| && list == l + [zone] && view == zs[..|l|] + [zs[|l|]] && zone.at == at
      requires area.Length == need + 1 && area[need] == beyond
      requires forall y | 0 <= y < |l| :: l[y].Pages() + l[y].pageCount <= at
      requires forall k | at + HEADER_SIZE + zone.pageCount <= k < need :: area[k] == 0
      ensures Built(|l| + 1, at + HEADER_SIZE + zone.pageCount, need, beyond, zs)
    {
      assert zs[..|l| + 1] == zs[..|l|] + [zs[|l|]];
    }

    /** The body of the region loop of XEOS_Mem_Initialize. */
    method AddZone(es: seq<Entry>, i: nat, at: nat, z: nat, need: nat, ghost beyond: Byte, previous: ZoneRecord?,
                   ghost zs: seq<Zone>, ghost made: set<ZoneRecord>)
        returns (zone: ZoneRecord, next: nat)
      requires Valid() && i < |es| == |zs| && Built(i, at, need, beyond, zs)
      requires PlannedFrom(es, zs, i, at, z, need, beyond)
      requires previous == if i == 0 then null else list[i - 1]
      requires forall y | 0 <= y < |list| :: list[y] in made
      modifies `zones, `zoneCount, `list, `view, area, made`next
      ensures Valid()
      ensures Built(i + 1, next, need, beyond, zs)
      ensures PlannedFrom(es, zs, i + 1, next, z, need, beyond)
      ensures list == old(list) + [zone] && fresh(zone)
    {
      ghost var l := list;
      zone := PlaceZone(es[i], at, z, need, beyond, previous, zs[i]);
      BuiltNext(l, zone, at, need, beyond, zs);
      next := at + HEADER_SIZE + zone.pageCount;
    }

    /** The region loop of XEOS_Mem_Initialize, in a cleared metadata area. */
    method BuildZones(es: seq<Entry>, z: nat, need: nat, ghost beyond: Byte, ghost zs: seq<Zone>)
      requires Valid() && |zs| == |es| && PlannedFrom(es, zs, 0, 0, z, need, beyond) && Built(0, 0, need, beyond, zs)
      modifies `zones, `zoneCount, `list, `view, area
      ensures Valid()
      ensures forall y | 0 <= y < |list| :: fresh(list[y])
      ensures view == zs
    {
      ghost var made: set<ZoneRecord> := {};
      var previous: ZoneRecord? := null;
      var at: nat := 0;
      for i := 0 to |es|
        invariant Valid()
        invariant Built(i, at, need, beyond, zs)
        invariant PlannedFrom(es, zs, i, at, z, need, beyond)
        invariant fresh(made) && forall y | 0 <= y < |list| :: list[y] in made
        invariant previous == if i == 0 then null else list[i - 1]
      {
        previous, at := AddZone(es, i, at, z, need, beyond, previous, zs, made);
        made := made + {previous};
      }
      assert zs[..|es|] == zs;
    }

    /** Start with an empty list and a cleared metadata area. */
    method Clear(need: nat, beyond: Byte, ghost zs: seq<Zone>)
      modifies this
      ensures Valid() && fresh(area) && list == [] && Built(0, 0, need, beyond, zs)
    {
      area := new Byte[need + 1](k => if k == need then beyond else 0);
      zones, zoneCount, list, view := null, 0, [], [];
    }

    /** The second half of XEOS_Mem_Initialize: clear the reserved bytes and build the zones there. */
    method BuildAt(es: seq<Entry>, z: nat, need: nat, beyond: Byte)
      requires Roomy(es) && need == MetadataBytes(es)
      modifies this
      ensures Valid()
      ensures fresh(area) && forall y | 0 <= y < |list| :: fresh(list[y])
      ensures view == BootZones(es, z, need, beyond)
    {
      Clear(need, beyond, BootZones(es, z, need, beyond));
      BootZonesPlanned(es, z, need, beyond);
      BuildZones(es, z, need, beyond, BootZones(es, z, need, beyond));
    }

    /** XEOS_Mem_Initialize.  `beyond` is the byte that follows the reserved range in memory. */
    method Initialize(es: seq<Entry>, kernelEnd: nat, beyond: Byte)
      requires InRange(es) && Roomy(es)
      modifies this
      ensures MetadataAddress(es, kernelEnd) == 0 ==> unchanged(this)
      ensures MetadataAddress(es, kernelEnd) != 0 ==>
        && Valid() && fresh(area) && (forall y | 0 <= y < |list| :: fresh(list[y]))
        && view == BootZones(es, MetadataAddress(es, kernelEnd), MetadataBytes(es), beyond)
    {
      var need := MetadataBytes(es);
      var zonesAddress := FindRoom(es, KernelLast(kernelEnd), need);
      if zonesAddress > 0 { BuildAt(es, zonesAddress, need, beyond); }
    }

    /** XEOS_Mem_GetZoneAtIndex: the record at that position of the list, or NULL. */
    method GetZoneAtIndex(index: nat) returns (zone: ZoneRecord?)
      requires Linked()
      ensures zone == At(index)
    {
      if index >= zoneCount { return null; }
      zone := zones;
      var i := index;
      while zone != null
        invariant 0 <= i <= index && zone == At(index - i)
        decreases i
      {
        if i == 0 { break; }
        i := i - 1;
        zone := zone.next;
      }
    }

    /** XEOS_Mem_GetTotalBytes: the sum of the lengths of the zones. */
    method GetTotalBytes() returns (bytes: nat)
      requires Valid()
      ensures bytes == TotalLength(view, |view|)
    {
      bytes := 0;
      var zone := GetZoneAtIndex(0);
      ghost var z := 0;
      while zone != null
        invariant 0 <= z <= |list| && zone == At(z)
        invariant bytes == TotalLength(view, z)
        decreases |list| - z
      {
        assert Shows(list[z], view[z]);
        bytes := bytes + zone.length;
        zone := zone.next;
        z := z + 1;
      }
    }

    /** Store 1 to n map bytes from offset p on, counting each: the roll-back loop of
        XEOS_Mem_AllocPages and the loop of XEOS_Mem_FreePages. */
    method MarkFree(zone: ZoneRecord, p: nat, n: nat)
      requires p + n <= area.Length
      modifies area, zone`freePageCount
      ensures FilledFrom(area, p, n, 1)
      ensures zone.freePageCount == old(zone.freePageCount) + n
    {
      for k := 0 to n
        invariant FilledFrom(area, p, k, 1)
        invariant zone.freePageCount == old(zone.freePageCount) + k
      {
        area[p + k] := 1;
        zone.freePageCount := zone.freePageCount + 1;
      }
    }

    /** Compare-and-swap up to n map bytes from offset p on from 1 to 0, counting each, until one fails.
        Some byte at or after p is not 1. */
    method SwapRun(zone: ZoneRecord, p: nat, n: nat, ghost stop: nat) returns (j: nat)
      requires p <= stop < area.Length && area[stop] != 1
      modifies area, zone`freePageCount
      ensures j <= n && p + j <= stop && (j < n ==> old(area[p + j]) != 1)
      ensures forall k | p <= k < p + j :: old(area[k]) == 1
      ensures FilledFrom(area, p, j, 0)
      ensures zone.freePageCount == old(zone.freePageCount) - j
    {
      j := 0;
      while j < n
        invariant 0 <= j <= n && p + j <= stop
        invariant forall k | p <= k < p + j :: old(area[k]) == 1
        invariant FilledFrom(area, p, j, 0)
        invariant zone.freePageCount == old(zone.freePageCount) - j
      {
        if area[p + j] != 1 { break; }
        area[p + j] := 0;
        zone.freePageCount := zone.freePageCount - 1;
        j := j + 1;
      }
    }

    /** Setting n bytes of zone z's map, and moving its counter by d, shows in that zone only. */
    twostate lemma ShowsFilled(new z: nat, new i: nat, new n: nat, new v: Byte, new d: int, new y: nat)
      requires old(Linked()) && list == old(list) && area == old(area)
      requires z < |list| && y < |list| && i + n <= list[z].pageCount + 1
      requires |view| == |list| && view == old(view) && old(y < |view| && Shows(list[y], view[y]))
      requires FilledFrom(area, list[z].Pages() + i, n, v)
      requires list[y].freePageCount == old(list[y].freePageCount) + if y == z then d else 0
      ensures y != z ==> Shows(list[y], view[y])
      ensures y == z ==>
        Shows(list[y], view[y].(freePageCount := view[y].freePageCount + d, bytes := Fill(view[y].bytes, i, n, v)))
    {
      var p := list[z].Pages() + i;
      if y < z {
        assert list[y].Pages() + list[y].pageCount <= list[z].at;
      } else if y > z {
        assert list[z].Pages() + list[z].pageCount <= list[y].at;
      }
    }

    /** Taking no page changes nothing. */
    static lemma ClaimNothing(v: seq<Zone>, z: nat, i: nat)
      requires z < |v| && i <= |v[z].bytes|
      ensures v[z := Changed(v[z], i, 0, 0, 0)] == v
    {
      assert Fill(v[z].bytes, i, 0, 0) == v[z].bytes;
    }

    /** After such a change every record shows its zone, with zone z replaced. */
    twostate lemma AllShowFilled(new z: nat, new i: nat, new n: nat, new v: Byte, new d: int)
      requires old(Valid()) && list == old(list) && area == old(area) && view == old(view)
      requires z < |list| && i + n <= list[z].pageCount + 1
      requires FilledFrom(area, list[z].Pages() + i, n, v)
      requires forall y | 0 <= y < |list| ::
        list[y].freePageCount == old(list[y].freePageCount) + if y == z then d else 0
      ensures i + n <= |view[z].bytes|
      ensures var w := view[z := Changed(view[z], i, n, v, d)];
        forall y | 0 <= y < |list| :: Shows(list[y], w[y])
    {
      assert old(Shows(list[z], view[z]));
      forall y | 0 <= y < |list| ensures Shows(list[y], view[z := Changed(view[z], i, n, v, d)][y]) {
        assert old(Shows(list[y], view[y]));
        ShowsFilled(z, i, n, v, d, y);
      }
    }

    /** The inner loop of XEOS_Mem_AllocPages on the metadata area: take n bytes from offset p on, or
        give back those already taken. */
    method TakeRun(zone: ZoneRecord, p: nat, n: nat, ghost stop: nat) returns (hasPages: bool)
      requires p <= stop < area.Length && area[stop] != 1
      modifies area, zone`freePageCount
      ensures hasPages == old(OnesAt(area, p, n))
      ensures hasPages ==> p + n <= stop
      ensures FilledFrom(area, p, if hasPages then n else 0, 0)
      ensures zone.freePageCount == old(zone.freePageCount) - if hasPages then n else 0
    {
      var j := SwapRun(zone, p, n, stop);
      hasPages := 0 < j == n;
      if !hasPages {
        assert j < n ==> old(area[p + j]) != 1;
        MarkFree(zone, p, j);
      }
    }

    lemma RunShows(r: ZoneRecord, z: Zone, i: nat, n: nat)
      requires Shows(r, z) && z.HasStopByte() && i < z.pageCount
      ensures area[r.Pages() + r.pageCount] != 1
      ensures OnesAt(area, r.Pages() + i, n) <==> RunAt(z.bytes, i, n)
    {
      var p := r.Pages();
      if OnesAt(area, p + i, n) {
        assert area[p + r.pageCount] != 1;
        forall k | i <= k < i + n ensures z.bytes[k] == 1 { assert area[p + k] == 1; }
      }
      if RunAt(z.bytes, i, n) {
        forall k | p + i <= k < p + i + n ensures area[k] == 1 { assert z.bytes[k - p] == 1; }
      }
    }

    /** Record a change of the metadata area in the view. */
    ghost method Refresh(w: seq<Zone>)
      requires Linked() && |w| == |list| && forall y | 0 <= y < |list| :: Shows(list[y], w[y])
      modifies `view
      ensures Valid() && view == w
    {
      view := w;
    }

    /** TakeRun, and what it shows in the zones. */
    method TakeRunInZone(ghost z: nat, zone: ZoneRecord, i: nat, n: nat) returns (hasPages: bool)
      requires Valid() && z < |list| && zone == list[z] && i <= zone.pageCount
      requires area[zone.Pages() + zone.pageCount] != 1
      modifies area, zone`freePageCount, `view
      ensures Valid()
      ensures hasPages == old(OnesAt(area, zone.Pages() + i, n))
      ensures hasPages ==> i + n <= |old(view)[z].bytes| && view == Claim(old(view), Place(z, i), n)
      ensures !hasPages ==> view == old(view)
    {
      hasPages := TakeRun(zone, zone.Pages() + i, n, zone.Pages() + zone.pageCount);
      ghost var m: nat := if hasPages then n else 0;
      AllShowFilled(z, i, m, 0, 0 - m);
      if m == 0 { ClaimNothing(view, z, i); }
      Refresh(view[z := Changed(view[z], i, m, 0, 0 - m)]);
    }

    /** The inner loop of XEOS_Mem_AllocPages on the zones. */
    method ClaimRun(ghost z: nat, zone: ZoneRecord, i: nat, n: nat) returns (hasPages: bool)
      requires Valid() && z < |list| && zone == list[z] && view[z].HasStopByte() && i < zone.pageCount
      modifies area, zone`freePageCount, `view
      ensures Valid()
      ensures hasPages == RunAt(old(view)[z].bytes, i, n)
      ensures view == if hasPages then Claim(old(view), Place(z, i), n) else old(view)
    {
      RunShows(zone, view[z], i, n);
      hasPages := TakeRunInZone(z, zone, i, n);
    }

    /** The page loop of XEOS_Mem_AllocPages over one zone. */
    method ClaimInZone(ghost z: nat, zone: ZoneRecord, n: nat) returns (index: Option<nat>)
      requires Valid() && z < |list| && zone == list[z] && view[z].HasStopByte()
      modifies area, zone`freePageCount, `view
      ensures Valid()
      ensures index == FitInZone(old(view)[z], 0, n)
      ensures view == if index.Some? then Claim(old(view), Place(z, index.value), n) else old(view)
    {
      var i := 0;
      while i < zone.pageCount
        invariant 0 <= i <= zone.pageCount
        invariant Valid() && view == old(view)
        invariant FitInZone(view[z], 0, n) == FitInZone(view[z], i, n)
      {
        assert Shows(zone, view[z]);
        assert view[z].bytes[i] == area[zone.Pages() + i];
        if area[zone.Pages() + i] == 1 {
          var hasPages := ClaimRun(z, zone, i, n);
          if hasPages { return Some(i); }
        }
        assert !RunAt(view[z].bytes, i, n);
        i := i + 1;
      }
      return None;
    }

    /** The body of the zone loop of XEOS_Mem_AllocPages, when no earlier zone has a fit. */
    method AllocInZone(ghost z: nat, zone: ZoneRecord, n: nat) returns (found: bool, address: nat)
      requires Valid() && z < |list| && zone == list[z] && view[z].HasStopByte()
      requires FirstFit(view, 0, n) == FirstFit(view, z, n)
      modifies area, zone`freePageCount, `view
      ensures Valid()
      ensures found ==> Outcome(view, address) == PageMaps.AllocPages(old(view), n)
      ensures !found ==> view == old(view) && FirstFit(view, 0, n) == FirstFit(view, z + 1, n)
    {
      assert Shows(zone, view[z]);
      if zone.kind != Usable { return false, NULL; }
      if zone.freePageCount == 0 { return false, NULL; }
      var index := ClaimInZone(z, zone, n);
      if index.None? { return false, NULL; }
      var i := index.value;
      Claimed(old(view), n, Place(z, i));
      return true, zone.base + i * 0x1000;
    }

    /** XEOS_Mem_AllocPages. */
    method AllocPages(n: nat) returns (address: nat)
      requires Valid() && Stopped(view)
      modifies area, list`freePageCount, `view
      ensures Valid()
      ensures Outcome(view, address) == PageMaps.AllocPages(old(view), n)
    {
      var zone := GetZoneAtIndex(0);
      ghost var z := 0;
      while zone != null
        invariant 0 <= z <= |list| && zone == At(z)
        invariant Valid() && view == old(view)
        invariant FirstFit(view, 0, n) == FirstFit(view, z, n)
        decreases |list| - z
      {
        var found;
        found, address := AllocInZone(z, zone, n);
        if found { return; }
        zone := zone.next;
        z := z + 1;
      }
      address := NULL;
    }

    /** The swap and the decrement of XEOS_Mem_AllocPage on the zones, for a page that is free. */
    method TakePage(ghost z: nat, zone: ZoneRecord, i: nat)
      requires Valid() && z < |list| && zone == list[z] && i < zone.pageCount
      modifies area, zone`freePageCount, `view
      ensures Valid()
      ensures view == Claim(old(view), Place(z, i), 1)
    {
      assert Shows(zone, view[z]);
      area[zone.Pages() + i] := 0;
      zone.freePageCount := zone.freePageCount - 1;
      AllShowFilled(z, i, 1, 0, 0 - 1);
      Refresh(Claim(view, Place(z, i), 1));
    }

    /** The page loop of XEOS_Mem_AllocPage over one zone. */
    method ClaimPageInZone(ghost z: nat, zone: ZoneRecord) returns (index: Option<nat>)
      requires Valid() && z < |list| && zone == list[z]
      modifies area, zone`freePageCount, `view
      ensures Valid()
      ensures index == FitInZone(old(view)[z], 0, 1)
      ensures view == if index.Some? then Claim(old(view), Place(z, index.value), 1) else old(view)
    {
      var i := 0;
      while i < zone.pageCount
        invariant 0 <= i <= zone.pageCount
        invariant Valid() && view == old(view)
        invariant FitInZone(view[z], 0, 1) == FitInZone(view[z], i, 1)
      {
        assert Shows(zone, view[z]);
        assert view[z].bytes[i] == area[zone.Pages() + i];
        if area[zone.Pages() + i] == 1 {
          assert RunAt(view[z].bytes, i, 1);
          TakePage(z, zone, i);
          return Some(i);
        }
        assert !RunAt(view[z].bytes, i, 1);
        i := i + 1;
      }
      return None;
    }

    /** The body of the zone loop of XEOS_Mem_AllocPage, when no earlier zone has a free page. */
    method AllocPageInZone(ghost z: nat, zone: ZoneRecord) returns (found: bool, address: nat)
      requires Valid() && z < |list| && zone == list[z]
      requires FirstFree(view, 0, 0) == FirstFree(view, z, 0)
      modifies area, zone`freePageCount, `view
      ensures Valid()
      ensures found ==> Outcome(view, address) == PageMaps.AllocPage(old(view))
      ensures !found ==> view == old(view) && FirstFree(view, 0, 0) == FirstFree(view, z + 1, 0)
    {
      assert Shows(zone, view[z]);
      if zone.kind != Usable { return false, NULL; }
      if zone.freePageCount == 0 { return false, NULL; }
      FirstFreeInZone(view, z, 0);
      var index := ClaimPageInZone(z, zone);
      if index.None? { return false, NULL; }
      var i := index.value;
      return true, zone.base + i * 0x1000;
    }

    /** XEOS_Mem_AllocPage. */
    method AllocPage() returns (address: nat)
      requires Valid()
      modifies area, list`freePageCount, `view
      ensures Valid()
      ensures Outcome(view, address) == PageMaps.AllocPage(old(view))
    {
      var zone := GetZoneAtIndex(0);
      ghost var z := 0;
      while zone != null
        invariant 0 <= z <= |list| && zone == At(z)
        invariant Valid() && view == old(view)
        invariant FirstFree(view, 0, 0) == FirstFree(view, z, 0)
        decreases |list| - z
      {
        var found;
        found, address := AllocPageInZone(z, zone);
        if found { return; }
        zone := zone.next;
        z := z + 1;
      }
      address := NULL;
    }

    /** The zone walk of XEOS_Mem_FreePage and XEOS_Mem_FreePages. */
    method FindZone(page: nat) returns (zone: ZoneRecord?, ghost z: nat)
      requires Valid()
      ensures zone == At(z) && z <= |list|
      ensures PageMaps.FindZone(view, 0, page) == if zone == null then None else Some(z)
    {
      zone := GetZoneAtIndex(0);
      z := 0;
      while zone != null
        invariant 0 <= z <= |list| && zone == At(z)
        invariant PageMaps.FindZone(view, 0, page) == PageMaps.FindZone(view, z, page)
        decreases |list| - z
      {
        assert Shows(zone, view[z]);
        if page <= Add64(zone.base, zone.length) { break; }
        zone := zone.next;
        z := z + 1;
      }
    }

    /** The store loop of XEOS_Mem_FreePages on the zones. */
    method ReleaseRun(ghost z: nat, zone: ZoneRecord, i: nat, n: nat)
      requires Valid() && z < |list| && zone == list[z] && i + n <= |view[z].bytes|
      modifies area, zone`freePageCount, `view
      ensures Valid()
      ensures view == Release(old(view), Place(z, i), n)
    {
      assert Shows(zone, view[z]);
      MarkFree(zone, zone.Pages() + i, n);
      AllShowFilled(z, i, n, 1, n);
      Refresh(view[z := Changed(view[z], i, n, 1, n)]);
    }

    /** XEOS_Mem_FreePages.  The stores must stay in the zone's map and the byte after it. */
    method FreePages(page: nat, n: nat)
      requires Valid() && FreeInBounds(view, page, n)
      modifies area, list`freePageCount, `view
      ensures Valid()
      ensures view == PageMaps.FreePages(old(view), page, n)
    {
      if page % 0x1000 != 0 { return; }
      var zone, z := FindZone(page);
      if zone == null { return; }
      assert zone.base == view[z].base by { assert Shows(zone, view[z]); }
      var pageIndex := Sub64(page, zone.base) / 0x1000;
      ReleaseRun(z, zone, pageIndex, n);
    }

    /** The store and the increment of XEOS_Mem_FreePage on the zones. */
    method ReleasePage(ghost z: nat, zone: ZoneRecord, i: nat)
      requires Valid() && z < |list| && zone == list[z] && i < |view[z].bytes|
      modifies area, zone`freePageCount, `view
      ensures Valid()
      ensures view == Release(old(view), Place(z, i), 1)
    {
      assert Shows(zone, view[z]);
      area[zone.Pages() + i] := 1;
      zone.freePageCount := zone.freePageCount + 1;
      AllShowFilled(z, i, 1, 1, 1);
      Refresh(view[z := Changed(view[z], i, 1, 1, 1)]);
    }

    /** XEOS_Mem_FreePage.  The store must stay in the zone's map and the byte after it. */
    method FreePage(page: nat)
      requires Valid() && FreeInBounds(view, page, 1)
      modifies area, list`freePageCount, `view
      ensures Valid()
      ensures view == PageMaps.FreePages(old(view), page, 1)
    {
      if page % 0x1000 != 0 { return; }
      var zone, z := FindZone(page);
      if zone == null { return; }
      assert zone.base == view[z].base by { assert Shows(zone, view[z]); }
      var pageIndex := Sub64(page, zone.base) / 0x1000;
      ReleasePage(z, zone, pageIndex);
    }
  }

  /** n bytes of the area from p on were replaced by the first n of b, and nothing else changed. */
  twostate predicate Copied(a: array<Byte>, new p: nat, new b: seq<Byte>, new n: nat)
    reads a
  {
    && n <= |b| && p + n <= a.Length
    && (forall k | 0 <= k < n :: a[p + k] == b[k])
    && (forall k | 0 <= k < a.Length && !(p <= k < p + n) :: a[k] == old(a[k]))
  }

  /** n bytes of the area from p on were set to v, and nothing else changed. */
  twostate predicate FilledFrom(a: array<Byte>, new p: nat, new n: nat, new v: Byte)
    reads a
  {
    forall k | 0 <= k < a.Length :: a[k] == if p <= k < p + n then v else old(a[k])
  }

  /** The area holds n (at least one) 1 bytes from p on. */
  ghost predicate OnesAt(a: array<Byte>, p: nat, n: nat)
    reads a
  {
    0 < n && p + n <= a.Length && forall k | p <= k < p + n :: a[k] == 1
  }

  /** The outcome of claiming the first fit. */
  lemma {:induction false} Claimed(v: seq<Zone>, n: nat, p: Place)
    requires FirstFit(v, 0, n) == Some(p)
    ensures Outcome(Claim(v, p, n), v[p.zone].base + p.index * 0x1000) == PageMaps.AllocPages(v, n)
  {
  }
}
