/**
 Sequential behaviour of the allocator over whole traces.  The concrete zones are a
 function of the boot zones and the set of pages currently owned by callers, and every
 call refines an abstract allocator that only knows that set.
 */
module Ownership {
  import opened Basics
  import opened PageMaps

  // ---------------------------------------------------------------- routing a free

  /** Zones lie in the 64-bit address space and their pages lie inside them. */
  predicate Addressable(zs: seq<Zone>) {
    forall z | 0 <= z < |zs| ::
      zs[z].base + zs[z].length < TWO_64 && zs[z].pageCount * 0x1000 <= zs[z].length
  }

  /** The zone is page aligned and every earlier zone ends strictly below the page. */
  predicate Separated(zs: seq<Zone>, p: Place)
    requires p.zone < |zs|
  {
    zs[p.zone].base % 0x1000 == 0
    && forall h | 0 <= h < p.zone :: zs[h].base + zs[h].length < AddressOf(zs, p)
  }

  /** A free finds the byte its page was allocated from exactly when the page is separated. */
  lemma ResolveExact(zs: seq<Zone>, p: Place)
    requires Addressable(zs) && InMap(zs, p)
    ensures Resolve(zs, AddressOf(zs, p)) == Some(p) <==> Separated(zs, p)
  {
    var page, z := AddressOf(zs, p), zs[p.zone];
    assert page <= z.base + z.length < TWO_64;
    assert forall h | 0 <= h < |zs| :: Add64(zs[h].base, zs[h].length) == zs[h].base + zs[h].length;
    assert page % 0x1000 == z.base % 0x1000;
    assert Sub64(page, z.base) / 0x1000 == p.index;
    if Separated(zs, p) {
      assert FindZone(zs, 0, page) == Some(p.zone);
    }
  }

  /** A free of an unaligned address, or of one above the end of every zone, changes nothing; any other store goes
      to the first zone whose end is not below the page, at the page's distance from its base, wrapped around
      64 bits if the page is below it. */
  lemma {:induction false} FreeGoesTo(zs: seq<Zone>, page: nat, n: nat)
    requires page < TWO_64
    ensures page % 0x1000 != 0 || (forall z | 0 <= z < |zs| :: page > Add64(zs[z].base, zs[z].length)) ==>
      FreeInBounds(zs, page, n) && FreePages(zs, page, n) == zs
    ensures forall z | 0 <= z < |zs| && page % 0x1000 == 0 && zs[z].base < TWO_64
        && page <= Add64(zs[z].base, zs[z].length)
        && (forall h | 0 <= h < z :: page > Add64(zs[h].base, zs[h].length)) ::
      Resolve(zs, page) ==
        Some(Place(z, (if page >= zs[z].base then page - zs[z].base else page + TWO_64 - zs[z].base) / 0x1000))
  {
  }

  /** A free of a separated page is a release of the run it starts. */
  lemma RoutedFree(zs: seq<Zone>, p: Place, n: nat)
    requires Addressable(zs) && InMap(zs, p) && Separated(zs, p)
    requires p.index + n <= |zs[p.zone].bytes|
    ensures FreeInBounds(zs, AddressOf(zs, p), n)
    ensures FreePages(zs, AddressOf(zs, p), n) == Release(zs, p, n)
  {
    ResolveExact(zs, p);
  }

  predicate SameShape(zs: seq<Zone>, zs': seq<Zone>) {
    |zs| == |zs'| && forall z | 0 <= z < |zs| :: zs[z].SameShape(zs'[z])
  }

  /** Routing depends on the fixed part of the zones only. */
  lemma RoutingIsStatic(zs: seq<Zone>, zs': seq<Zone>, p: Place)
    requires SameShape(zs, zs') && p.zone < |zs|
    ensures AddressOf(zs', p) == AddressOf(zs, p)
    ensures Addressable(zs) ==> Addressable(zs')
    ensures Separated(zs, p) <==> Separated(zs', p)
    ensures InMap(zs, p) <==> InMap(zs', p)
  {
    assert forall z | 0 <= z < |zs| :: zs[z].SameShape(zs'[z]);
  }

  /** Non-empty zones are aligned and start strictly above the end of every earlier zone. */
  predicate Ascending(zs: seq<Zone>) {
    forall z | 0 <= z < |zs| && zs[z].pageCount > 0 ::
      zs[z].base % 0x1000 == 0
      && forall h | 0 <= h < z :: zs[h].base + zs[h].length < zs[z].base
  }

  /** Frees of all pages are routed correctly exactly when the zones ascend with gaps. */
  lemma AllRoutedIffAscending(zs: seq<Zone>)
    requires Addressable(zs) && forall z | 0 <= z < |zs| :: zs[z].HasStopByte()
    ensures (forall p | InMap(zs, p) :: Resolve(zs, AddressOf(zs, p)) == Some(p)) <==> Ascending(zs)
  {
    forall p | InMap(zs, p)
      ensures Resolve(zs, AddressOf(zs, p)) == Some(p) <==> Separated(zs, p)
    {
      ResolveExact(zs, p);
    }
    forall z | 0 <= z < |zs| && zs[z].pageCount > 0
      ensures InMap(zs, Place(z, 0)) && AddressOf(zs, Place(z, 0)) == zs[z].base
    {
    }
  }

  // ---------------------------------------------------------------- single calls

  /** The pages of a run. */
  function Run(p: Place, n: nat): set<Place> {
    set k | p.index <= k < p.index + n :: Place(p.zone, k)
  }

  lemma ClaimIsWellFormed(zs: seq<Zone>, p: Place, n: nat)
    requires WellFormed(zs) && Fits(zs, p, n)
    ensures p.index + n <= zs[p.zone].pageCount && WellFormed(Claim(zs, p, n))
  {
    RunStaysInMap(zs[p.zone], p.index, n);
    OnesFill(zs[p.zone].bytes, zs[p.zone].pageCount, p.index, n, true, 0);
  }

  /** AllocPages keeps the invariant; it claims exactly the first fit. */
  lemma {:induction false} AllocPagesCorrect(zs: seq<Zone>, n: nat)
    requires WellFormed(zs)
    ensures WellFormed(AllocPages(zs, n).zones)
    ensures forall q: Place | InMap(zs, q) ::
      var r := FirstFit(zs, 0, n);
      AllocPages(zs, n).zones[q.zone].bytes[q.index]
      == if r.Some? && q in Run(r.value, n) then 0 else zs[q.zone].bytes[q.index]
  {
    var r := FirstFit(zs, 0, n);
    if r.Some? { ClaimIsWellFormed(zs, r.value, n); }
  }

  /** NULL comes back exactly when no usable zone has n consecutive free pages, and then nothing changed. */
  lemma NullIffNoRun(zs: seq<Zone>, n: nat)
    requires WellFormed(zs)
    requires forall p | IsFree(zs, p) :: AddressOf(zs, p) != NULL
    ensures AllocPages(zs, n).address == NULL <==> !exists p: Place :: Fits(zs, p, n)
    ensures AllocPages(zs, n).address == NULL ==> AllocPages(zs, n).zones == zs
  {
    var r := FirstFit(zs, 0, n);
    if r.Some? {
      assert Fits(zs, r.value, n);
      assert IsFree(zs, r.value);
    }
    forall p: Place | Fits(zs, p, n) ensures r.Some? { NothingFitsBefore(zs, 0, n, p); }
  }

  /** AllocPages(1) and AllocPage agree in result and effect. */
  lemma AllocOneIsAllocPage(zs: seq<Zone>)
    ensures AllocPages(zs, 1) == AllocPage(zs)
  {
    FirstFreeIsFirstFit(zs, 0);
  }

  lemma ClaimThenRelease(zs: seq<Zone>, p: Place, n: nat)
    requires Fits(zs, p, n)
    ensures Release(Claim(zs, p, n), p, n) == zs
  {
    assert Fill(Fill(zs[p.zone].bytes, p.index, n, 0), p.index, n, 1) == zs[p.zone].bytes;
  }

  lemma ClaimThenFree(zs: seq<Zone>, p: Place, n: nat)
    requires WellFormed(zs) && Addressable(zs) && Fits(zs, p, n) && Separated(zs, p)
    ensures FreeInBounds(Claim(zs, p, n), AddressOf(zs, p), n)
    ensures FreePages(Claim(zs, p, n), AddressOf(zs, p), n) == zs
  {
    var zs' := Claim(zs, p, n);
    assert zs[p.zone].WellFormed();
    RoutingIsStatic(zs, zs', p);
    RoutedFree(zs', p, n);
    ClaimThenRelease(zs, p, n);
  }

  /** Allocating and freeing the result restores every map and counter. */
  lemma {:induction false} AllocThenFree(zs: seq<Zone>, n: nat)
    requires WellFormed(zs) && Addressable(zs)
    requires FirstFit(zs, 0, n).Some? && Separated(zs, FirstFit(zs, 0, n).value)
    ensures var o := AllocPages(zs, n);
      FreeInBounds(o.zones, o.address, n) && FreePages(o.zones, o.address, n) == zs
  {
    ClaimThenFree(zs, FirstFit(zs, 0, n).value, n);
  }

  /** Freeing a claimed run stays in bounds and restores the zones exactly when the run is separated. */
  lemma {:induction false} FreeRestoresIff(zs: seq<Zone>, p: Place, n: nat)
    requires WellFormed(zs) && Addressable(zs) && Fits(zs, p, n)
    ensures (FreeInBounds(Claim(zs, p, n), AddressOf(zs, p), n)
             && FreePages(Claim(zs, p, n), AddressOf(zs, p), n) == zs)
            <==> Separated(zs, p)
  {
    if Separated(zs, p) {
      ClaimThenFree(zs, p, n);
    } else {
      var claimed := Claim(zs, p, n);
      assert zs[p.zone].WellFormed();
      RoutingIsStatic(zs, claimed, p);
      ResolveExact(claimed, p);
      SameZoneSamePlace(claimed, p);
      assert claimed[p.zone].bytes[p.index] == 0 && zs[p.zone].bytes[p.index] == 1;
    }
  }

  /** A free that finds the page's zone finds its byte. */
  lemma SameZoneSamePlace(zs: seq<Zone>, p: Place)
    requires Addressable(zs) && InMap(zs, p)
    ensures Resolve(zs, AddressOf(zs, p)).Some? && Resolve(zs, AddressOf(zs, p)).value.zone == p.zone ==>
      Resolve(zs, AddressOf(zs, p)) == Some(p)
  {
    var page, z := AddressOf(zs, p), zs[p.zone];
    assert page <= z.base + z.length < TWO_64;
    assert Sub64(page, z.base) == p.index * 0x1000;
  }

  /** The 4 KB ranges of two pages do not meet. */
  predicate Apart(zs: seq<Zone>, p: Place, q: Place)
    requires p.zone < |zs| && q.zone < |zs|
  {
    AddressOf(zs, p) + 0x1000 <= AddressOf(zs, q) || AddressOf(zs, q) + 0x1000 <= AddressOf(zs, p)
  }

  /** Different free pages are different memory. */
  lemma {:induction false} FreePagesApart(zs: seq<Zone>, p: Place, q: Place)
    requires Bootable(zs) && IsFree(zs, p) && IsFree(zs, q) && p != q
    ensures Apart(zs, p, q)
  {
    if p.zone < q.zone {
      assert Separated(zs, q) && AddressOf(zs, p) + 0x1000 <= zs[p.zone].base + zs[p.zone].length;
    } else if q.zone < p.zone {
      assert Separated(zs, p) && AddressOf(zs, q) + 0x1000 <= zs[q.zone].base + zs[q.zone].length;
    }
  }

  /** One call of FreePage (an out-of-bounds store is left out). */
  function FreePage(zs: seq<Zone>, page: nat): seq<Zone> {
    if FreeInBounds(zs, page, 1) then FreePages(zs, page, 1) else zs
  }

  /** n calls of FreePage on successive pages. */
  function FreeEach(zs: seq<Zone>, page: nat, n: nat): seq<Zone> {
    if n == 0 then zs else FreePage(FreeEach(zs, page, n - 1), page + (n - 1) * 0x1000)
  }

  lemma ReleaseNext(zs: seq<Zone>, p: Place, n: nat)
    requires p.zone < |zs| && p.index + n < |zs[p.zone].bytes|
    ensures Release(Release(zs, p, n), Place(p.zone, p.index + n), 1) == Release(zs, p, n + 1)
  {
    var s := zs[p.zone].bytes;
    assert Fill(Fill(s, p.index, n, 1), p.index + n, 1, 1) == Fill(s, p.index, n + 1, 1);
  }

  lemma FreeNext(zs: seq<Zone>, p: Place, n: nat)
    requires Addressable(zs) && InMap(zs, p) && p.index + n < zs[p.zone].pageCount && Separated(zs, p)
    ensures FreePage(Release(zs, p, n), AddressOf(zs, p) + n * 0x1000) == Release(zs, p, n + 1)
  {
    var rest, q := Release(zs, p, n), Place(p.zone, p.index + n);
    assert AddressOf(zs, q) == AddressOf(zs, p) + n * 0x1000;
    assert Separated(zs, q);
    RoutingIsStatic(zs, rest, q);
    RoutedFree(rest, q, 1);
    ReleaseNext(zs, p, n);
  }

  lemma ReleaseNothing(zs: seq<Zone>, p: Place)
    requires p.zone < |zs| && p.index <= |zs[p.zone].bytes|
    ensures Release(zs, p, 0) == zs
  {
    assert Fill(zs[p.zone].bytes, p.index, 0, 1) == zs[p.zone].bytes;
  }

  lemma {:induction false} FreeOneMore(zs: seq<Zone>, p: Place, n: nat)
    requires Addressable(zs) && InMap(zs, p) && p.index + n < zs[p.zone].pageCount && Separated(zs, p)
    requires FreeEach(zs, AddressOf(zs, p), n) == Release(zs, p, n)
    ensures FreeEach(zs, AddressOf(zs, p), n + 1) == Release(zs, p, n + 1)
  {
    FreeNext(zs, p, n);
  }

  lemma {:induction false} FreeEachIsRelease(zs: seq<Zone>, p: Place, n: nat)
    requires Addressable(zs) && InMap(zs, p) && p.index + n <= zs[p.zone].pageCount && Separated(zs, p)
    ensures FreeEach(zs, AddressOf(zs, p), n) == Release(zs, p, n)
  {
    if n == 0 {
      ReleaseNothing(zs, p);
    } else {
      var m := n - 1;
      FreeEachIsRelease(zs, p, m);
      FreeOneMore(zs, p, m);
    }
  }

  /** FreePages on a run has the effect of FreePage on each of its pages in turn. */
  lemma {:induction false} FreePagesIsFreeEach(zs: seq<Zone>, p: Place, n: nat)
    requires Addressable(zs) && InMap(zs, p) && p.index + n <= zs[p.zone].pageCount && Separated(zs, p)
    ensures FreeInBounds(zs, AddressOf(zs, p), n)
    ensures FreePages(zs, AddressOf(zs, p), n) == FreeEach(zs, AddressOf(zs, p), n)
  {
    RoutedFree(zs, p, n);
    FreeEachIsRelease(zs, p, n);
  }

  // ---------------------------------------------------------------- traces

  /** What the maps must look like when callers own the given pages. */
  function Concrete(boot: seq<Zone>, owned: set<Place>): seq<Zone>
    requires WellFormed(boot)
  {
    seq(|boot|, z requires 0 <= z < |boot| => Marked(boot[z], z, owned))
  }

  function Marked(b: Zone, z: nat, owned: set<Place>): Zone
    requires b.HasStopByte()
  {
    var bytes := seq(|b.bytes|, k requires 0 <= k < |b.bytes| => if Place(z, k) in owned then 0 else b.bytes[k]);
    b.(bytes := bytes, freePageCount := Ones(bytes, b.pageCount))
  }

  /** Boot zones on which the allocator can be used: every free page can be given back. */
  ghost predicate Bootable(boot: seq<Zone>) {
    WellFormed(boot) && Addressable(boot) && forall p | IsFree(boot, p) :: Separated(boot, p)
  }

  predicate OwnedAreBootFree(boot: seq<Zone>, owned: set<Place>) {
    forall p | p in owned :: IsFree(boot, p)
  }

  /** A run of n pages nobody owns: the abstract allocator's view of what may be handed out. */
  predicate Available(boot: seq<Zone>, owned: set<Place>, p: Place, n: nat) {
    0 < n && forall q | q in Run(p, n) :: IsFree(boot, q) && q !in owned
  }

  lemma AvailableIsFits(boot: seq<Zone>, owned: set<Place>, p: Place, n: nat)
    requires WellFormed(boot) && OwnedAreBootFree(boot, owned)
    ensures Available(boot, owned, p, n) <==> Fits(Concrete(boot, owned), p, n)
  {
    var zs := Concrete(boot, owned);
    if Available(boot, owned, p, n) {
      assert p in Run(p, n);
      assert Place(p.zone, p.index + n - 1) in Run(p, n);
      forall k | p.index <= k < p.index + n ensures zs[p.zone].bytes[k] == 1 {
        assert Place(p.zone, k) in Run(p, n);
      }
    }
    if Fits(zs, p, n) {
      assert zs[p.zone].HasStopByte() by { assert Place(p.zone, boot[p.zone].pageCount) !in owned; }
      RunStaysInMap(zs[p.zone], p.index, n);
      forall q | q in Run(p, n) ensures IsFree(boot, q) && q !in owned {
        assert zs[p.zone].bytes[q.index] == 1;
      }
    }
  }

  /** A client call: AllocPage, AllocPages(n), or FreePages of n pages that start at a place. */
  datatype Op = TakeOne | Take(n: nat) | Give(p: Place, n: nat)

  /** The concrete zones together with the pages callers own. */
  datatype Client = Client(zones: seq<Zone>, owned: set<Place>)

  /** Callers give back only pages they own. */
  predicate Allowed(c: Client, op: Op) {
    op.Give? ==> 0 < op.n && Run(op.p, op.n) <= c.owned
  }

  function Perform(c: Client, op: Op): Client {
    match op
    case TakeOne =>
      Client(AllocPage(c.zones).zones,
             match FirstFree(c.zones, 0, 0) case None => c.owned case Some(p) => c.owned + Run(p, 1))
    case Take(n) =>
      Client(AllocPages(c.zones, n).zones,
             match FirstFit(c.zones, 0, n) case None => c.owned case Some(p) => c.owned + Run(p, n))
    case Give(p, n) =>
      if p.zone < |c.zones| && FreeInBounds(c.zones, AddressOf(c.zones, p), n) then
        Client(FreePages(c.zones, AddressOf(c.zones, p), n), c.owned - Run(p, n))
      else c
  }

  /** The abstract allocator: take the least available run, or nothing when there is none; give back. */
  ghost predicate AbstractStep(boot: seq<Zone>, owned: set<Place>, op: Op, after: set<Place>) {
    if op.Give? then after == owned - Run(op.p, op.n)
    else
      var n := if op.TakeOne? then 1 else op.n;
      || (after == owned && forall q: Place :: !Available(boot, owned, q, n))
      || exists p: Place ::
           && Available(boot, owned, p, n) && after == owned + Run(p, n) && Run(p, n) !! owned
           && forall q: Place :: Available(boot, owned, q, n) ==> !Before(q, p)
  }

  /** Simulation relation. */
  predicate Simulates(boot: seq<Zone>, c: Client) {
    WellFormed(boot) && OwnedAreBootFree(boot, c.owned) && c.zones == Concrete(boot, c.owned)
  }

  lemma ConcreteWellFormed(boot: seq<Zone>, owned: set<Place>)
    requires Bootable(boot) && OwnedAreBootFree(boot, owned)
    ensures WellFormed(Concrete(boot, owned)) && Addressable(Concrete(boot, owned))
  {
    var zs := Concrete(boot, owned);
    forall z | 0 <= z < |zs| ensures zs[z].WellFormed() {
      assert Place(z, boot[z].pageCount) !in owned;
    }
  }

  lemma TakeRefines(boot: seq<Zone>, c: Client, n: nat)
    requires Bootable(boot) && Simulates(boot, c)
    ensures Simulates(boot, Perform(c, Take(n)))
    ensures AbstractStep(boot, c.owned, Take(n), Perform(c, Take(n)).owned)
  {
    forall q: Place ensures Available(boot, c.owned, q, n) <==> Fits(c.zones, q, n) {
      AvailableIsFits(boot, c.owned, q, n);
    }
    ConcreteWellFormed(boot, c.owned);
    var r := FirstFit(c.zones, 0, n);
    forall q: Place | Fits(c.zones, q, n) ensures r.Some? && !Before(q, r.value) {
      NothingFitsBefore(c.zones, 0, n, q);
    }
    if r.Some? {
      var p := r.value;
      assert Available(boot, c.owned, p, n);
      ClaimIsConcrete(boot, c.owned, p, n);
      assert Run(p, n) !! c.owned;
    }
  }

  lemma ClaimIsConcrete(boot: seq<Zone>, owned: set<Place>, p: Place, n: nat)
    requires Bootable(boot) && OwnedAreBootFree(boot, owned) && Fits(Concrete(boot, owned), p, n)
    ensures p.index + n <= |Concrete(boot, owned)[p.zone].bytes|
    ensures Claim(Concrete(boot, owned), p, n) == Concrete(boot, owned + Run(p, n))
    ensures OwnedAreBootFree(boot, owned + Run(p, n))
  {
    ConcreteWellFormed(boot, owned);
    AvailableIsFits(boot, owned, p, n);
    ClaimIsWellFormed(Concrete(boot, owned), p, n);
    SameMaps(boot, Claim(Concrete(boot, owned), p, n), owned + Run(p, n));
  }

  /** Well-formed zones are determined by their maps. */
  lemma SameMaps(boot: seq<Zone>, zs: seq<Zone>, owned: set<Place>)
    requires WellFormed(boot) && WellFormed(zs) && SameShape(boot, zs)
    requires forall z, k | 0 <= z < |zs| && 0 <= k < |zs[z].bytes| ::
      zs[z].bytes[k] == if Place(z, k) in owned then 0 else boot[z].bytes[k]
    ensures zs == Concrete(boot, owned)
  {
    forall z | 0 <= z < |zs| ensures zs[z] == Marked(boot[z], z, owned) {
      assert zs[z].SameShape(boot[z]) by { assert boot[z].SameShape(zs[z]); }
      assert zs[z].bytes == Marked(boot[z], z, owned).bytes;
      assert zs[z].WellFormed();
    }
  }

  /** Owned pages were free at boot and are now marked 0. */
  lemma OwnedRun(boot: seq<Zone>, owned: set<Place>, p: Place, n: nat)
    requires Bootable(boot) && OwnedAreBootFree(boot, owned) && 0 < n && Run(p, n) <= owned
    ensures IsFree(boot, p) && p.index + n <= boot[p.zone].pageCount
    ensures forall k | p.index <= k < p.index + n ::
      boot[p.zone].bytes[k] == 1 && Concrete(boot, owned)[p.zone].bytes[k] == 0
  {
    assert p in Run(p, n) && Place(p.zone, p.index + n - 1) in Run(p, n);
    forall k | p.index <= k < p.index + n
      ensures boot[p.zone].bytes[k] == 1 && Concrete(boot, owned)[p.zone].bytes[k] == 0
    {
      assert Place(p.zone, k) in Run(p, n);
      assert IsFree(boot, Place(p.zone, k));
    }
  }

  lemma ReleaseIsConcrete(boot: seq<Zone>, owned: set<Place>, p: Place, n: nat)
    requires Bootable(boot) && OwnedAreBootFree(boot, owned) && 0 < n && Run(p, n) <= owned
    ensures p.zone < |boot| && p.index + n <= |Concrete(boot, owned)[p.zone].bytes|
    ensures Release(Concrete(boot, owned), p, n) == Concrete(boot, owned - Run(p, n))
  {
    OwnedRun(boot, owned, p, n);
    ConcreteWellFormed(boot, owned);
    var zs := Concrete(boot, owned);
    OnesFill(zs[p.zone].bytes, zs[p.zone].pageCount, p.index, n, false, 1);
    SameMaps(boot, Release(zs, p, n), owned - Run(p, n));
  }

  lemma GiveRefines(boot: seq<Zone>, c: Client, p: Place, n: nat)
    requires Bootable(boot) && Simulates(boot, c) && Allowed(c, Give(p, n))
    ensures p.zone < |c.zones| && Resolve(c.zones, AddressOf(c.zones, p)) == Some(p)
    ensures Simulates(boot, Perform(c, Give(p, n)))
    ensures AbstractStep(boot, c.owned, Give(p, n), Perform(c, Give(p, n)).owned)
  {
    OwnedRun(boot, c.owned, p, n);
    ConcreteWellFormed(boot, c.owned);
    RoutingIsStatic(boot, c.zones, p);
    ResolveExact(c.zones, p);
    RoutedFree(c.zones, p, n);
    ReleaseIsConcrete(boot, c.owned, p, n);
  }

  /** One call of the allocator is one step of the abstract allocator. */
  lemma StepRefines(boot: seq<Zone>, c: Client, op: Op)
    requires Bootable(boot) && Simulates(boot, c) && Allowed(c, op)
    ensures Simulates(boot, Perform(c, op))
    ensures AbstractStep(boot, c.owned, op, Perform(c, op).owned)
  {
    match op
    case TakeOne =>
      AllocOneIsAllocPage(c.zones);
      TakeRefines(boot, c, 1);
      FirstFreeIsFirstFit(c.zones, 0);
    case Take(n) => TakeRefines(boot, c, n);
    case Give(p, n) => GiveRefines(boot, c, p, n);
  }

  function PerformAll(c: Client, ops: seq<Op>): Client
    decreases ops
  {
    if ops == [] then c else PerformAll(Perform(c, ops[0]), ops[1..])
  }

  predicate AllAllowed(c: Client, ops: seq<Op>)
    decreases ops
  {
    ops == [] || (Allowed(c, ops[0]) && AllAllowed(Perform(c, ops[0]), ops[1..]))
  }

  /** Over every trace of calls the zones are determined by the owned pages alone. */
  lemma {:induction false} TraceRefines(boot: seq<Zone>, c: Client, ops: seq<Op>)
    requires Bootable(boot) && Simulates(boot, c) && AllAllowed(c, ops)
    ensures Simulates(boot, PerformAll(c, ops))
    ensures PerformAll(c, ops).owned == {} ==> PerformAll(c, ops).zones == boot
    decreases ops
  {
    if ops == [] {
      if c.owned == {} { NothingOwned(boot); }
    } else {
      StepRefines(boot, c, ops[0]);
      TraceRefines(boot, Perform(c, ops[0]), ops[1..]);
    }
  }

  lemma NothingOwned(boot: seq<Zone>)
    requires WellFormed(boot)
    ensures Concrete(boot, {}) == boot
  {
    forall z | 0 <= z < |boot| ensures Marked(boot[z], z, {}) == boot[z] {
      assert Marked(boot[z], z, {}).bytes == boot[z].bytes;
    }
  }

  /** Every trace from boot: what is owned at the end was free at boot, and once everything has
      been given back the maps and counters are exactly those of boot. */
  lemma {:induction false} TraceFromBoot(boot: seq<Zone>, ops: seq<Op>)
    requires Bootable(boot) && AllAllowed(Client(boot, {}), ops)
    ensures var c := PerformAll(Client(boot, {}), ops);
      && WellFormed(c.zones) && c.zones == Concrete(boot, c.owned) && OwnedAreBootFree(boot, c.owned)
      && (c.owned == {} ==> c.zones == boot)
  {
    NothingOwned(boot);
    TraceRefines(boot, Client(boot, {}), ops);
    ConcreteWellFormed(boot, PerformAll(Client(boot, {}), ops).owned);
  }
}
