/**
 The allocator's zones as values: a zone is its boot-time description, its cached
 free-page counter and its byte-per-page map (1 = free), followed by the one byte that
 comes after the map in memory.  Everything the allocator promises is stated over
 sequences of such zones; the class in PhysicalMemory is proved against these functions.
 */
module PageMaps {
  import opened Basics

  const TWO_64: nat := 0x1_0000_0000_0000_0000
  const NULL: nat := 0

  datatype ZoneType = Unknown | Usable | Reserved | AcpiReclaimable | AcpiNvs | Bad

  /** A page named by its zone's position in the list and its index in the zone's map. */
  datatype Place = Place(zone: nat, index: nat)

  datatype Zone = Zone(kind: ZoneType, base: nat, length: nat, pageCount: nat,
                       freePageCount: int, bytes: seq<Byte>)
  {
    /** The byte after the map stops a run of compare-and-swaps that leaves the map. */
    predicate HasStopByte() {
      |bytes| == pageCount + 1 && bytes[pageCount] != 1
    }

    /** The cached counter agrees with the map. */
    predicate WellFormed() {
      HasStopByte() && freePageCount == Ones(bytes, pageCount)
    }

    /** Same zone up to the contents of the map and the counter. */
    predicate SameShape(other: Zone) {
      kind == other.kind && base == other.base && length == other.length
      && pageCount == other.pageCount && |bytes| == |other.bytes|
    }
  }

  predicate WellFormed(zs: seq<Zone>) {
    forall z | 0 <= z < |zs| :: zs[z].WellFormed()
  }

  /** Every map is followed by a byte that stops a run. */
  predicate Stopped(zs: seq<Zone>) {
    forall z | 0 <= z < |zs| :: zs[z].HasStopByte()
  }

  /** The place is a page of some map (and not the byte after it). */
  predicate InMap(zs: seq<Zone>, p: Place) {
    p.zone < |zs| && p.index < zs[p.zone].pageCount < |zs[p.zone].bytes|
  }

  /** The page is one the allocator may hand out: marked 1, in a usable zone. */
  predicate IsFree(zs: seq<Zone>, p: Place) {
    InMap(zs, p) && zs[p.zone].kind == Usable && zs[p.zone].bytes[p.index] == 1
  }

  function AddressOf(zs: seq<Zone>, p: Place): nat
    requires p.zone < |zs|
  {
    zs[p.zone].base + p.index * 0x1000
  }

  // ---------------------------------------------------------------- counting and filling

  /** Number of 1 bytes among the first m. */
  function Ones(s: seq<Byte>, m: nat): nat
    requires m <= |s|
  {
    if m == 0 then 0 else Ones(s, m - 1) + (if s[m - 1] == 1 then 1 else 0)
  }

  function Bit(b: bool): int { if b then 1 else 0 }

  lemma {:induction false} OnesUpdate(s: seq<Byte>, m: nat, k: nat, v: Byte)
    requires m <= |s| && k < |s|
    ensures Ones(s[k := v], m) == Ones(s, m) + (if k < m then Bit(v == 1) - Bit(s[k] == 1) else 0)
  {
    if m > 0 { OnesUpdate(s, m - 1, k, v); }
  }

  lemma {:induction false} OnesPositive(s: seq<Byte>, m: nat)
    requires m <= |s|
    ensures Ones(s, m) == 0 <==> forall k | 0 <= k < m :: s[k] != 1
  {
    if m > 0 { OnesPositive(s, m - 1); }
  }

  /** The sequence with n positions from i set to v. */
  function Fill(s: seq<Byte>, i: nat, n: nat, v: Byte): (r: seq<Byte>)
    requires i + n <= |s|
    ensures |r| == |s|
    ensures forall k | 0 <= k < |s| :: r[k] == if i <= k < i + n then v else s[k]
  {
    s[..i] + seq(n, _ => v) + s[i + n..]
  }

  lemma {:induction false} OnesFill(s: seq<Byte>, m: nat, i: nat, n: nat, old1: bool, v: Byte)
    requires i + n <= m <= |s|
    requires forall k | i <= k < i + n :: (s[k] == 1) == old1
    ensures Ones(Fill(s, i, n, v), m) == Ones(s, m) + n * (Bit(v == 1) - Bit(old1))
  {
    if n == 0 {
      assert Fill(s, i, n, v) == s;
    } else {
      OnesFill(s, m, i, n - 1, old1, v);
      var t := Fill(s, i, n - 1, v);
      assert Fill(s, i, n, v) == t[i + n - 1 := v];
      OnesUpdate(t, m, i + n - 1, v);
    }
  }

  /** Sum of the lengths of the first m zones. */
  function TotalLength(zs: seq<Zone>, m: nat): nat
    requires m <= |zs|
  {
    if m == 0 then 0 else TotalLength(zs, m - 1) + zs[m - 1].length
  }

  // ---------------------------------------------------------------- first fit

  /** n (at least one) consecutive 1 bytes from i on, as the inner loop of AllocPages finds them. */
  predicate RunAt(s: seq<Byte>, i: nat, n: nat) {
    0 < n && i + n <= |s| && forall k | i <= k < i + n :: s[k] == 1
  }

  /** A run that starts inside a map with a stop byte ends inside it. */
  lemma RunStaysInMap(z: Zone, i: nat, n: nat)
    requires z.HasStopByte() && i < z.pageCount && RunAt(z.bytes, i, n)
    ensures i + n <= z.pageCount
  {
    assert z.bytes[z.pageCount] != 1;
  }

  /** Without a stop byte a run can leave the map exactly when the last page is free and the byte after it is 1. */
  lemma RunLeavesMapIff(s: seq<Byte>, pageCount: nat)
    requires 0 < pageCount < |s|
    ensures (exists i: nat, n: nat :: i < pageCount < i + n && RunAt(s, i, n))
            <==> s[pageCount - 1] == 1 && s[pageCount] == 1
  {
    forall i: nat, n: nat | i < pageCount < i + n && RunAt(s, i, n)
      ensures s[pageCount - 1] == 1 && s[pageCount] == 1
    {
    }
    if s[pageCount - 1] == 1 && s[pageCount] == 1 {
      assert RunAt(s, pageCount - 1, 2);
    }
  }

  /** Least start, from i on, of a run of n free pages in the zone. */
  function FitInZone(z: Zone, i: nat, n: nat): (r: Option<nat>)
    requires i <= z.pageCount
    ensures r.Some? ==> i <= r.value < z.pageCount && RunAt(z.bytes, r.value, n)
    ensures forall h | i <= h < (if r.Some? then r.value else z.pageCount) :: !RunAt(z.bytes, h, n)
    decreases z.pageCount - i
  {
    if i == z.pageCount then None
    else if RunAt(z.bytes, i, n) then Some(i)
    else FitInZone(z, i + 1, n)
  }

  /** Skipping a zone whose counter is 0 loses no run, because the counter agrees with the map. */
  lemma {:induction false} NoFitWhenCountIsZero(z: Zone, n: nat)
    requires z.WellFormed() && z.freePageCount == 0
    ensures FitInZone(z, 0, n).None?
  {
    OnesPositive(z.bytes, z.pageCount);
    forall h | 0 <= h < z.pageCount ensures !RunAt(z.bytes, h, n) {
      assert z.bytes[h] != 1;
    }
  }

  /** A run of n free pages that AllocPages may return. */
  predicate Fits(zs: seq<Zone>, p: Place, n: nat) {
    p.zone < |zs| && zs[p.zone].kind == Usable && p.index < zs[p.zone].pageCount
    && RunAt(zs[p.zone].bytes, p.index, n)
  }

  predicate Before(p: Place, q: Place) {
    p.zone < q.zone || (p.zone == q.zone && p.index < q.index)
  }

  /** Zones AllocPages looks into: usable, and with a counter other than 0. */
  predicate Searched(z: Zone) { z.kind == Usable && z.freePageCount != 0 }

  /** Least (zone, index), from zone z on, with n consecutive free pages in a zone that is searched. */
  function FirstFit(zs: seq<Zone>, z: nat, n: nat): (r: Option<Place>)
    requires z <= |zs|
    ensures r.Some? ==> Fits(zs, r.value, n) && z <= r.value.zone
    decreases |zs| - z
  {
    if z == |zs| then None
    else if Searched(zs[z]) && FitInZone(zs[z], 0, n).Some? then
      Some(Place(z, FitInZone(zs[z], 0, n).value))
    else FirstFit(zs, z + 1, n)
  }

  /** Nothing before the first fit fits, and nothing at all fits when there is none: skipping a zone whose
      counter is 0 loses no run. */
  lemma {:induction false} NothingFitsBefore(zs: seq<Zone>, z: nat, n: nat, q: Place)
    requires WellFormed(zs) && z <= |zs| && z <= q.zone && Fits(zs, q, n)
    ensures var r := FirstFit(zs, z, n); r.Some? && !Before(q, r.value)
    decreases |zs| - z
  {
    assert zs[z].WellFormed();
    if zs[z].freePageCount == 0 { NoFitWhenCountIsZero(zs[z], n); }
    if !(Searched(zs[z]) && FitInZone(zs[z], 0, n).Some?) { NothingFitsBefore(zs, z + 1, n, q); }
  }

  /** First fit is the only place with its defining property. */
  lemma {:induction false} FirstFitIsLeast(zs: seq<Zone>, n: nat, p: Place)
    requires WellFormed(zs) && Fits(zs, p, n)
    requires forall q: Place :: Fits(zs, q, n) ==> !Before(q, p)
    ensures FirstFit(zs, 0, n) == Some(p)
  {
    NothingFitsBefore(zs, 0, n, p);
  }

  /** Least place marked free, from zone z and index i on, as AllocPage scans for it. */
  function FirstFree(zs: seq<Zone>, z: nat, i: nat): (r: Option<Place>)
    requires z <= |zs|
    ensures r.Some? ==> Fits(zs, r.value, 1)
    decreases |zs| - z, if z < |zs| then zs[z].pageCount - i else 0
  {
    if z == |zs| then None
    else if !Searched(zs[z]) || i >= zs[z].pageCount then FirstFree(zs, z + 1, 0)
    else if i < |zs[z].bytes| && zs[z].bytes[i] == 1 then Some(Place(z, i))
    else FirstFree(zs, z, i + 1)
  }

  /** AllocPage's scan of one zone finds the least free page of it. */
  lemma {:induction false} FirstFreeInZone(zs: seq<Zone>, z: nat, i: nat)
    requires z < |zs| && Searched(zs[z]) && i <= zs[z].pageCount
    ensures FirstFree(zs, z, i)
      == match FitInZone(zs[z], i, 1) case None => FirstFree(zs, z + 1, 0) case Some(k) => Some(Place(z, k))
    decreases zs[z].pageCount - i
  {
    if i < zs[z].pageCount {
      FirstFreeInZone(zs, z, i + 1);
    }
  }

  /** The least free page is the first fit for one page. */
  lemma {:induction false} FirstFreeIsFirstFit(zs: seq<Zone>, z: nat)
    requires z <= |zs|
    ensures FirstFree(zs, z, 0) == FirstFit(zs, z, 1)
    decreases |zs| - z
  {
    if z < |zs| {
      FirstFreeIsFirstFit(zs, z + 1);
      if Searched(zs[z]) { FirstFreeInZone(zs, z, 0); }
    }
  }

  // ---------------------------------------------------------------- claiming and releasing

  /** The zone with n bytes of its map set to v and its counter moved by d. */
  function Changed(z: Zone, i: nat, n: nat, v: Byte, d: int): Zone
    requires i + n <= |z.bytes|
  {
    z.(freePageCount := z.freePageCount + d, bytes := Fill(z.bytes, i, n, v))
  }

  /** The zones with n pages from p taken. */
  function Claim(zs: seq<Zone>, p: Place, n: nat): seq<Zone>
    requires p.zone < |zs| && p.index + n <= |zs[p.zone].bytes|
  {
    zs[p.zone := Changed(zs[p.zone], p.index, n, 0, 0 - n)]
  }

  /** The zones with n pages from p given back. */
  function Release(zs: seq<Zone>, p: Place, n: nat): seq<Zone>
    requires p.zone < |zs| && p.index + n <= |zs[p.zone].bytes|
  {
    zs[p.zone := Changed(zs[p.zone], p.index, n, 1, n)]
  }

  datatype Outcome = Outcome(zones: seq<Zone>, address: nat)

  /** XEOS_Mem_AllocPages: claim the first fit, or leave everything alone and return NULL. */
  function AllocPages(zs: seq<Zone>, n: nat): Outcome {
    match FirstFit(zs, 0, n)
    case None => Outcome(zs, NULL)
    case Some(p) => Outcome(Claim(zs, p, n), AddressOf(zs, p))
  }

  /** XEOS_Mem_AllocPage. */
  function AllocPage(zs: seq<Zone>): Outcome {
    match FirstFree(zs, 0, 0)
    case None => Outcome(zs, NULL)
    case Some(p) => Outcome(Claim(zs, p, 1), AddressOf(zs, p))
  }

  /** Sums and differences of 64-bit words wrap around. */
  function Add64(a: nat, b: nat): (r: nat)
    ensures a < TWO_64 && b < TWO_64 ==> r == if a + b < TWO_64 then a + b else a + b - TWO_64
  {
    (a + b) % TWO_64
  }

  function Sub64(a: nat, b: nat): (r: nat)
    ensures a < TWO_64 && b < TWO_64 ==> r == if b <= a then a - b else a - b + TWO_64
  {
    (a - b) % TWO_64
  }

  /** First zone, from z on, that the test `page > base + length` does not skip. */
  function FindZone(zs: seq<Zone>, z: nat, page: nat): (r: Option<nat>)
    requires z <= |zs|
    ensures r.Some? ==> z <= r.value < |zs| && page <= Add64(zs[r.value].base, zs[r.value].length)
    ensures forall h | z <= h < (if r.Some? then r.value else |zs|) :: page > Add64(zs[h].base, zs[h].length)
    decreases |zs| - z
  {
    if z == |zs| then None
    else if page > Add64(zs[z].base, zs[z].length) then FindZone(zs, z + 1, page)
    else Some(z)
  }

  /** The map byte a free of `page` writes to: 64-bit unsigned arithmetic, so an address below
      the base of the zone found gives a huge index. */
  function Resolve(zs: seq<Zone>, page: nat): Option<Place> {
    if page % 0x1000 != 0 then None
    else
      match FindZone(zs, 0, page)
      case None => None
      case Some(z) => Some(Place(z, Sub64(page, zs[z].base) / 0x1000))
  }

  /** The stores of a free of n pages hit the zone's map or the byte after it. */
  predicate FreeInBounds(zs: seq<Zone>, page: nat, n: nat) {
    var r := Resolve(zs, page);
    r.Some? ==> r.value.index + n <= |zs[r.value.zone].bytes|
  }

  /** XEOS_Mem_FreePages (and, with n == 1, XEOS_Mem_FreePage). */
  function FreePages(zs: seq<Zone>, page: nat, n: nat): seq<Zone>
    requires FreeInBounds(zs, page, n)
  {
    match Resolve(zs, page)
    case None => zs
    case Some(p) => Release(zs, p, n)
  }
}
