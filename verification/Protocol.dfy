/**
 The lock-free allocator as interleaved atomic steps.  Any number of threads run AllocPages
 (AllocPage is the same step sequence with n == 1) and FreePages (FreePage is n == 1) over
 shared zones; each step performs one load, compare-and-swap, store or counter update.
 */
module Protocol {
  import opened Basics
  import opened PageMaps
  import opened Ownership

  /** Where a thread stands.  Runs start at (z, i); j pages are claimed, k are stored back. */
  datatype Pc =
    | Idle
    | Enter(n: nat, z: nat)                          // test the zone's type and counter
    | Scan(n: nat, z: nat, i: nat)                   // load pages[i]
    | Swap(n: nat, z: nat, i: nat, j: nat)           // compare-and-swap pages[i + j]
    | Decrement(n: nat, z: nat, i: nat, j: nat)      // the swap succeeded, counter not yet lowered
    | Undo(n: nat, z: nat, i: nat, j: nat, k: nat)   // roll back: store 1 to pages[i + k]
    | UndoCount(n: nat, z: nat, i: nat, j: nat, k: nat)
    | Free(n: nat, z: nat, i: nat, k: nat)           // free: store 1 to pages[i + k]
    | FreeCount(n: nat, z: nat, i: nat, k: nat)

  /** Shared zones, one program counter per thread, and the pages callers own. */
  datatype State = State(zones: seq<Zone>, threads: seq<Pc>, owned: set<Place>)

  datatype Action = CallAlloc(n: nat) | CallFree(p: Place, n: nat) | Advance

  predicate Enabled(s: State, t: nat, a: Action) {
    && t < |s.threads|
    && match a
       case CallAlloc(_) => s.threads[t].Idle?
       case CallFree(p, n) => s.threads[t].Idle? && 0 < n && Run(p, n) <= s.owned && p.zone < |s.zones|
       case Advance => !s.threads[t].Idle?
  }

  /** An atomic store to a map byte. */
  function Store(zs: seq<Zone>, z: nat, k: nat, v: Byte): seq<Zone> {
    if z < |zs| && k < |zs[z].bytes| then zs[z := zs[z].(bytes := zs[z].bytes[k := v])] else zs
  }

  /** An atomic update of a zone's counter. */
  function Bump(zs: seq<Zone>, z: nat, d: int): seq<Zone> {
    if z < |zs| then zs[z := zs[z].(freePageCount := zs[z].freePageCount + d)] else zs
  }

  predicate IsOne(zs: seq<Zone>, z: nat, k: nat) {
    z < |zs| && k < |zs[z].bytes| && zs[z].bytes[k] == 1
  }

  function Do(s: State, t: nat, a: Action): State
    requires Enabled(s, t, a)
  {
    match a
    case CallAlloc(n) => s.(threads := s.threads[t := Enter(n, 0)])
    case CallFree(p, n) =>
      var q := Resolve(s.zones, AddressOf(s.zones, p));
      State(s.zones,
            if q.None? then s.threads else s.threads[t := Free(n, q.value.zone, q.value.index, 0)],
            s.owned - Run(p, n))
    case Advance => Next(s, t)
  }

  function Next(s: State, t: nat): State
    requires t < |s.threads|
  {
    var pc := s.threads[t];
    State(Memory(s.zones, pc), s.threads[t := Control(s.zones, pc)], s.owned + Granted(pc))
  }

  /** What the step does to shared memory. */
  function Memory(zs: seq<Zone>, pc: Pc): seq<Zone> {
    match pc
    case Swap(_, z, i, j) => if IsOne(zs, z, i + j) then Store(zs, z, i + j, 0) else zs
    case Decrement(_, z, _, _) => Bump(zs, z, -1)
    case Undo(_, z, i, j, k) => if k < j then Store(zs, z, i + k, 1) else zs
    case UndoCount(_, z, _, _, _) => Bump(zs, z, 1)
    case Free(n, z, i, k) => if k < n then Store(zs, z, i + k, 1) else zs
    case FreeCount(_, z, _, _) => Bump(zs, z, 1)
    case _ => zs
  }

  /** Where the thread goes next. */
  function Control(zs: seq<Zone>, pc: Pc): Pc {
    match pc
    case Idle => Idle
    case Enter(n, z) =>
      if z >= |zs| then Idle
      else if zs[z].kind != Usable || zs[z].freePageCount == 0 then Enter(n, z + 1)
      else Scan(n, z, 0)
    case Scan(n, z, i) =>
      if z >= |zs| || i >= zs[z].pageCount then Enter(n, z + 1)
      else if IsOne(zs, z, i) && n > 0 then Swap(n, z, i, 0)
      else Scan(n, z, i + 1)
    case Swap(n, z, i, j) => if IsOne(zs, z, i + j) then Decrement(n, z, i, j) else Undo(n, z, i, j, 0)
    case Decrement(n, z, i, j) => if j + 1 < n then Swap(n, z, i, j + 1) else Idle
    case Undo(n, z, i, j, k) => if k < j then UndoCount(n, z, i, j, k) else Scan(n, z, i + 1)
    case UndoCount(n, z, i, j, k) => Undo(n, z, i, j, k + 1)
    case Free(n, z, i, k) => if k < n then FreeCount(n, z, i, k) else Idle
    case FreeCount(n, z, i, k) => Free(n, z, i, k + 1)
  }

  /** The pages the step hands to the caller: the whole run, when an allocation returns. */
  function Granted(pc: Pc): set<Place> {
    match pc
    case Decrement(n, z, i, j) => if j + 1 < n then {} else Run(Place(z, i), n)
    case _ => {}
  }

  // ---------------------------------------------------------------- accounting

  /** The thread holds page (z, k): claimed for an allocation still running, or still to be stored back. */
  predicate Holds(pc: Pc, z: nat, k: nat) {
    match pc
    case Swap(_, z', i, j) => z == z' && i <= k < i + j
    case Decrement(_, z', i, j) => z == z' && i <= k <= i + j
    case Undo(_, z', i, j, m) => z == z' && i + m <= k < i + j
    case UndoCount(_, z', i, j, m) => z == z' && i + m < k < i + j
    case Free(n, z', i, m) => z == z' && i + m <= k < i + n
    case FreeCount(n, z', i, m) => z == z' && i + m < k < i + n
    case _ => false
  }

  function Weight(z: nat, k: nat): Pc -> int { pc => Bit(Holds(pc, z, k)) }

  /** Increments minus decrements of zone z's counter the thread still owes. */
  function Owes(z: nat): Pc -> int { pc => Debt(pc, z) }

  function Debt(pc: Pc, z: nat): int {
    match pc
    case Decrement(_, z', _, _) => if z == z' then -1 else 0
    case UndoCount(_, z', _, _, _) => if z == z' then 1 else 0
    case FreeCount(_, z', _, _) => if z == z' then 1 else 0
    case _ => 0
  }

  function Sum(ts: seq<Pc>, f: Pc -> int): int {
    if ts == [] then 0 else Sum(ts[..|ts| - 1], f) + f(ts[|ts| - 1])
  }

  lemma {:induction false} SumUpdate(ts: seq<Pc>, t: nat, pc: Pc, f: Pc -> int)
    requires t < |ts|
    ensures Sum(ts[t := pc], f) == Sum(ts, f) - f(ts[t]) + f(pc)
  {
    var m := |ts| - 1;
    if t == m {
      assert ts[t := pc][..m] == ts[..m];
    } else {
      SumUpdate(ts[..m], t, pc, f);
      assert ts[t := pc][..m] == ts[..m][t := pc];
    }
  }

  /** Pages on the books: free bytes, pages callers own, pages threads hold. */
  function Accounted(s: State, z: nat, k: nat): int {
    Bit(IsOne(s.zones, z, k)) + Bit(Place(z, k) in s.owned) + Sum(s.threads, Weight(z, k))
  }

  /** Each page that was free at boot is accounted for exactly once, every other page never. */
  ghost predicate Conserved(boot: seq<Zone>, s: State) {
    forall z: nat, k: nat :: z < |boot| && k < |boot[z].bytes| ==>
      Accounted(s, z, k) == Bit(IsOne(boot, z, k))
  }

  /** counter + owed increments == ones + owed decrements, in every zone. */
  ghost predicate Balanced(s: State) {
    forall z | 0 <= z < |s.zones| ::
      s.zones[z].pageCount <= |s.zones[z].bytes|
      && s.zones[z].freePageCount + Sum(s.threads, Owes(z)) == Ones(s.zones[z].bytes, s.zones[z].pageCount)
  }

  /** A byte that is not 1 is 0 if the page was free at boot, and has its boot value otherwise. */
  predicate Residue(boot: seq<Zone>, zs: seq<Zone>) {
    |boot| == |zs| && forall z | 0 <= z < |boot| :: BytesResidue(boot[z].bytes, zs[z].bytes)
  }

  predicate BytesResidue(b: seq<Byte>, s: seq<Byte>) {
    |b| == |s| && forall k | 0 <= k < |b| :: s[k] == 1 || s[k] == if b[k] == 1 then 0 else b[k]
  }

  /** The pages a thread is working on lie inside one map. */
  predicate PcInMap(zs: seq<Zone>, pc: Pc) {
    match pc
    case Idle => true
    case Enter(_, _) => true
    case Scan(_, _, _) => true
    case Swap(n, z, i, j) => z < |zs| && j < n && i < zs[z].pageCount && i + j <= zs[z].pageCount
    case Decrement(n, z, i, j) => z < |zs| && j < n && i + j < zs[z].pageCount
    case Undo(n, z, i, j, k) => z < |zs| && k <= j && i + j <= zs[z].pageCount
    case UndoCount(n, z, i, j, k) => z < |zs| && k < j && i + j <= zs[z].pageCount
    case Free(n, z, i, k) => z < |zs| && k <= n && i + n <= zs[z].pageCount
    case FreeCount(n, z, i, k) => z < |zs| && k < n && i + n <= zs[z].pageCount
  }

  /** Only usable zones have pages marked 1, as initialization leaves them. */
  predicate UsableOnly(boot: seq<Zone>) {
    forall z, k | 0 <= z < |boot| && 0 <= k < |boot[z].bytes| && boot[z].bytes[k] == 1 :: boot[z].kind == Usable
  }

  ghost predicate Inv(boot: seq<Zone>, s: State) {
    && Bootable(boot) && UsableOnly(boot) && SameShape(boot, s.zones)
    && (forall t | 0 <= t < |s.threads| :: PcInMap(s.zones, s.threads[t]))
    && Conserved(boot, s) && Balanced(s) && Residue(boot, s.zones)
  }

  // ---------------------------------------------------------------- each step keeps the accounts

  lemma {:induction false} WeightsBelowSum(ts: seq<Pc>, z: nat, k: nat)
    ensures Sum(ts, Weight(z, k)) >= 0
    ensures forall t | 0 <= t < |ts| :: Sum(ts, Weight(z, k)) >= Bit(Holds(ts[t], z, k))
  {
    if ts != [] {
      var m := |ts| - 1;
      WeightsBelowSum(ts[..m], z, k);
      forall t | 0 <= t < m ensures Sum(ts, Weight(z, k)) >= Bit(Holds(ts[t], z, k)) {
        assert ts[..m][t] == ts[t];
      }
    }
  }

  /** A page someone holds or owns is not marked free, and nobody else holds or owns it. */
  lemma HeldOnce(boot: seq<Zone>, s: State, t: nat, z: nat, k: nat)
    requires Inv(boot, s) && t < |s.threads| && Holds(s.threads[t], z, k)
    requires z < |boot| && k < |boot[z].bytes|
    ensures IsOne(boot, z, k) && !IsOne(s.zones, z, k) && Place(z, k) !in s.owned
  {
    WeightsBelowSum(s.threads, z, k);
    assert Accounted(s, z, k) == Bit(IsOne(boot, z, k));
  }

  /** A step moves a page between free, held and owned; it neither makes nor loses one. */
  lemma StepKeepsAccount(zs: seq<Zone>, pc: Pc, z: nat, k: nat)
    requires PcInMap(zs, pc) && z < |zs| && k < |zs[z].bytes|
    requires forall y | 0 <= y < |zs| :: zs[y].pageCount < |zs[y].bytes|
    requires Holds(pc, z, k) ==> !IsOne(zs, z, k)
    ensures Bit(IsOne(Memory(zs, pc), z, k)) + Bit(Place(z, k) in Granted(pc)) + Bit(Holds(Control(zs, pc), z, k))
         == Bit(IsOne(zs, z, k)) + Bit(Holds(pc, z, k))
    ensures Place(z, k) in Granted(pc) ==> Holds(pc, z, k)
  {
  }

  lemma NextConserved(boot: seq<Zone>, s: State, t: nat)
    requires Inv(boot, s) && t < |s.threads|
    ensures Conserved(boot, Next(s, t))
  {
    var pc, s' := s.threads[t], Next(s, t);
    forall y | 0 <= y < |boot| ensures s.zones[y].pageCount < |s.zones[y].bytes| { StopByteStays(boot, s, y); }
    forall z: nat, k: nat | z < |boot| && k < |boot[z].bytes|
      ensures Accounted(s', z, k) == Bit(IsOne(boot, z, k))
    {
      SumUpdate(s.threads, t, s'.threads[t], Weight(z, k));
      assert Accounted(s, z, k) == Bit(IsOne(boot, z, k));
      assert boot[z].SameShape(s.zones[z]);
      if Holds(pc, z, k) { HeldOnce(boot, s, t, z, k); }
      StepKeepsAccount(s.zones, pc, z, k);
    }
  }

  lemma {:induction false} StoreOnes(zs: seq<Zone>, y: nat, k: nat, v: Byte, z: nat, m: nat)
    requires y < |zs| && k < |zs[y].bytes| && z < |zs| && m <= |zs[z].bytes|
    ensures var zs' := Store(zs, y, k, v);
      |zs'| == |zs| && zs'[z].SameShape(zs[z]) && zs'[z].freePageCount == zs[z].freePageCount
      && Ones(zs'[z].bytes, m) == Ones(zs[z].bytes, m)
           + if y == z && k < m then Bit(v == 1) - Bit(IsOne(zs, y, k)) else 0
  {
    OnesUpdate(zs[y].bytes, if y == z then m else 0, k, v);
  }

  /** Counter plus what the thread owes, less the ones of the map. */
  function Imbalance(zs: seq<Zone>, pc: Pc, z: nat): int
    requires z < |zs| && zs[z].pageCount <= |zs[z].bytes|
  {
    zs[z].freePageCount + Debt(pc, z) - Ones(zs[z].bytes, zs[z].pageCount)
  }

  /** The page the step stores 1 to, if it stores one. */
  function GivenBack(pc: Pc): Option<Place> {
    match pc
    case Undo(_, z, i, j, k) => if k < j then Some(Place(z, i + k)) else None
    case Free(n, z, i, k) => if k < n then Some(Place(z, i + k)) else None
    case _ => None
  }

  lemma StoreKeepsBalance(zs: seq<Zone>, pc: Pc, z: nat)
    requires GivenBack(pc).Some? && PcInMap(zs, pc) && z < |zs|
    requires forall y | 0 <= y < |zs| :: zs[y].pageCount < |zs[y].bytes|
    requires var p := GivenBack(pc).value; !IsOne(zs, p.zone, p.index)
    ensures |Memory(zs, pc)| == |zs| && Memory(zs, pc)[z].SameShape(zs[z])
    ensures Imbalance(Memory(zs, pc), Control(zs, pc), z) == Imbalance(zs, pc, z)
  {
    var p := GivenBack(pc).value;
    StoreOnes(zs, p.zone, p.index, 1, z, zs[z].pageCount);
  }

  lemma SwapKeepsBalance(zs: seq<Zone>, pc: Pc, z: nat)
    requires pc.Swap? && PcInMap(zs, pc) && z < |zs|
    requires forall y | 0 <= y < |zs| :: zs[y].pageCount < |zs[y].bytes| && !IsOne(zs, y, zs[y].pageCount)
    ensures |Memory(zs, pc)| == |zs| && Memory(zs, pc)[z].SameShape(zs[z])
    ensures Imbalance(Memory(zs, pc), Control(zs, pc), z) == Imbalance(zs, pc, z)
  {
    if IsOne(zs, pc.z, pc.i + pc.j) { StoreOnes(zs, pc.z, pc.i + pc.j, 0, z, zs[z].pageCount); }
  }

  /** A step's change to a counter, to the map and to what the thread owes cancel out. */
  lemma StepKeepsBalance(zs: seq<Zone>, pc: Pc, z: nat)
    requires PcInMap(zs, pc) && z < |zs|
    requires forall y | 0 <= y < |zs| :: zs[y].pageCount < |zs[y].bytes| && !IsOne(zs, y, zs[y].pageCount)
    requires GivenBack(pc).Some? ==> var p := GivenBack(pc).value; !IsOne(zs, p.zone, p.index)
    ensures |Memory(zs, pc)| == |zs| && Memory(zs, pc)[z].SameShape(zs[z])
    ensures Imbalance(Memory(zs, pc), Control(zs, pc), z) == Imbalance(zs, pc, z)
  {
    if GivenBack(pc).Some? {
      StoreKeepsBalance(zs, pc, z);
    } else if pc.Swap? {
      SwapKeepsBalance(zs, pc, z);
    }
  }

  /** The byte after a map is never marked free. */
  lemma StopByteStays(boot: seq<Zone>, s: State, z: nat)
    requires Inv(boot, s) && z < |boot|
    ensures |s.zones[z].bytes| == s.zones[z].pageCount + 1 && !IsOne(s.zones, z, s.zones[z].pageCount)
  {
    assert boot[z].SameShape(s.zones[z]) && boot[z].WellFormed();
    WeightsBelowSum(s.threads, z, boot[z].pageCount);
    assert Accounted(s, z, boot[z].pageCount) == Bit(IsOne(boot, z, boot[z].pageCount));
  }

  lemma NextBalanced(boot: seq<Zone>, s: State, t: nat)
    requires Inv(boot, s) && t < |s.threads|
    ensures Balanced(Next(s, t))
  {
    var pc, s' := s.threads[t], Next(s, t);
    forall y | 0 <= y < |boot|
      ensures s.zones[y].pageCount < |s.zones[y].bytes| && !IsOne(s.zones, y, s.zones[y].pageCount)
    {
      StopByteStays(boot, s, y);
    }
    if GivenBack(pc).Some? {
      var p := GivenBack(pc).value;
      assert boot[p.zone].SameShape(s.zones[p.zone]);
      HeldOnce(boot, s, t, p.zone, p.index);
    }
    forall z | 0 <= z < |s.zones|
      ensures |s'.zones| == |s.zones| && s'.zones[z].SameShape(s.zones[z])
      ensures s'.zones[z].freePageCount + Sum(s'.threads, Owes(z)) == Ones(s'.zones[z].bytes, s'.zones[z].pageCount)
    {
      SumUpdate(s.threads, t, s'.threads[t], Owes(z));
      StepKeepsBalance(s.zones, pc, z);
    }
  }

  lemma MemoryKeepsShape(boot: seq<Zone>, zs: seq<Zone>, pc: Pc)
    requires SameShape(boot, zs)
    ensures SameShape(boot, Memory(zs, pc))
  {
    assert SameShape(zs, Memory(zs, pc));
    forall z | 0 <= z < |boot| ensures boot[z].SameShape(Memory(zs, pc)[z]) {
      assert boot[z].SameShape(zs[z]) && zs[z].SameShape(Memory(zs, pc)[z]);
    }
  }

  lemma ControlStaysInMap(zs: seq<Zone>, pc: Pc)
    requires PcInMap(zs, pc)
    requires pc.Swap? ==> !IsOne(zs, pc.z, zs[pc.z].pageCount)
    ensures PcInMap(zs, Control(zs, pc))
  {
  }

  lemma StoreResidue(boot: seq<Zone>, zs: seq<Zone>, z: nat, k: nat, v: Byte)
    requires Residue(boot, zs) && (v == 1 || (v == 0 && IsOne(boot, z, k)))
    ensures Residue(boot, Store(zs, z, k, v))
  {
  }

  lemma MemoryResidue(boot: seq<Zone>, zs: seq<Zone>, pc: Pc)
    requires Residue(boot, zs)
    requires pc.Swap? && IsOne(zs, pc.z, pc.i + pc.j) ==> IsOne(boot, pc.z, pc.i + pc.j)
    ensures Residue(boot, Memory(zs, pc))
  {
    match pc
    case Swap(n, z, i, j) => if IsOne(zs, z, i + j) { StoreResidue(boot, zs, z, i + j, 0); }
    case Undo(n, z, i, j, k) => StoreResidue(boot, zs, z, i + k, 1);
    case Free(n, z, i, k) => StoreResidue(boot, zs, z, i + k, 1);
    case _ =>
  }

  /** Only pages that were free at boot are ever marked 1. */
  lemma OneWasFreeAtBoot(boot: seq<Zone>, s: State, z: nat, k: nat)
    requires Inv(boot, s) && IsOne(s.zones, z, k)
    ensures IsOne(boot, z, k)
  {
    assert boot[z].SameShape(s.zones[z]);
    WeightsBelowSum(s.threads, z, k);
    assert Accounted(s, z, k) == Bit(IsOne(boot, z, k));
  }

  lemma NextAllInMap(boot: seq<Zone>, s: State, t: nat)
    requires Inv(boot, s) && t < |s.threads|
    ensures var s' := Next(s, t); forall u | 0 <= u < |s'.threads| :: PcInMap(s'.zones, s'.threads[u])
  {
    var pc, s' := s.threads[t], Next(s, t);
    MemoryKeepsShape(boot, s.zones, pc);
    if pc.Swap? { StopByteStays(boot, s, pc.z); }
    ControlStaysInMap(s.zones, pc);
    forall u | 0 <= u < |s'.threads| ensures PcInMap(s'.zones, s'.threads[u]) {
      OthersInMap(boot, s.zones, s'.zones, s'.threads[u]);
    }
  }

  lemma NextKeepsInv(boot: seq<Zone>, s: State, t: nat)
    requires Inv(boot, s) && t < |s.threads|
    ensures Inv(boot, Next(s, t))
  {
    MemoryKeepsShape(boot, s.zones, s.threads[t]);
    NextAllInMap(boot, s, t);
    NextConserved(boot, s, t);
    NextBalanced(boot, s, t);
    var pc := s.threads[t];
    if pc.Swap? && IsOne(s.zones, pc.z, pc.i + pc.j) { OneWasFreeAtBoot(boot, s, pc.z, pc.i + pc.j); }
    MemoryResidue(boot, s.zones, pc);
  }

  lemma OthersInMap(boot: seq<Zone>, zs: seq<Zone>, zs': seq<Zone>, pc: Pc)
    requires SameShape(boot, zs) && SameShape(boot, zs') && PcInMap(zs, pc)
    ensures PcInMap(zs', pc)
  {
    forall z | 0 <= z < |boot| ensures zs[z].pageCount == zs'[z].pageCount {
      assert boot[z].SameShape(zs[z]) && boot[z].SameShape(zs'[z]);
    }
  }

  // ---------------------------------------------------------------- calls

  lemma OwnedIsBootFree(boot: seq<Zone>, s: State, p: Place)
    requires Inv(boot, s) && p in s.owned && p.zone < |boot| && p.index < |boot[p.zone].bytes|
    ensures IsFree(boot, p) && !IsOne(s.zones, p.zone, p.index)
  {
    WeightsBelowSum(s.threads, p.zone, p.index);
    assert Accounted(s, p.zone, p.index) == Bit(IsOne(boot, p.zone, p.index));
    assert boot[p.zone].WellFormed();
  }

  /** Owned places are map bytes (nothing else ever enters the set). */
  ghost predicate OwnedInside(boot: seq<Zone>, s: State) {
    forall p | p in s.owned :: p.zone < |boot| && p.index < |boot[p.zone].bytes|
  }

  /** A free by an owner starts at the pages it was given. */
  lemma FreeIsRouted(boot: seq<Zone>, s: State, p: Place, n: nat)
    requires Inv(boot, s) && OwnedInside(boot, s) && 0 < n && Run(p, n) <= s.owned && p.zone < |s.zones|
    ensures Resolve(s.zones, AddressOf(s.zones, p)) == Some(p)
    ensures p.index + n <= s.zones[p.zone].pageCount
  {
    assert p in Run(p, n) && Place(p.zone, p.index + n - 1) in Run(p, n);
    OwnedIsBootFree(boot, s, p);
    OwnedIsBootFree(boot, s, Place(p.zone, p.index + n - 1));
    RoutingIsStatic(boot, s.zones, p);
    ResolveExact(s.zones, p);
    assert boot[p.zone].SameShape(s.zones[p.zone]);
  }

  lemma CallsConserved(boot: seq<Zone>, s: State, t: nat, a: Action)
    requires Inv(boot, s) && OwnedInside(boot, s) && Enabled(s, t, a) && !a.Advance?
    ensures Conserved(boot, Do(s, t, a))
  {
    var s' := Do(s, t, a);
    if a.CallFree? { FreeIsRouted(boot, s, a.p, a.n); }
    forall z: nat, k: nat | z < |boot| && k < |boot[z].bytes|
      ensures Accounted(s', z, k) == Bit(IsOne(boot, z, k))
    {
      SumUpdate(s.threads, t, s'.threads[t], Weight(z, k));
      assert Accounted(s, z, k) == Bit(IsOne(boot, z, k));
      if a.CallFree? { assert Place(z, k) in Run(a.p, a.n) <==> Holds(s'.threads[t], z, k); }
    }
  }

  lemma CallsBalanced(boot: seq<Zone>, s: State, t: nat, a: Action)
    requires Inv(boot, s) && OwnedInside(boot, s) && Enabled(s, t, a) && !a.Advance?
    ensures Balanced(Do(s, t, a))
  {
    var s' := Do(s, t, a);
    forall z | 0 <= z < |s'.zones| ensures Sum(s'.threads, Owes(z)) == Sum(s.threads, Owes(z)) {
      SumUpdate(s.threads, t, s'.threads[t], Owes(z));
    }
  }

  lemma CallsKeepInv(boot: seq<Zone>, s: State, t: nat, a: Action)
    requires Inv(boot, s) && OwnedInside(boot, s) && Enabled(s, t, a) && !a.Advance?
    ensures Inv(boot, Do(s, t, a)) && OwnedInside(boot, Do(s, t, a))
  {
    CallsConserved(boot, s, t, a);
    CallsBalanced(boot, s, t, a);
    if a.CallFree? { FreeIsRouted(boot, s, a.p, a.n); }
  }

  /** Every atomic step of every thread keeps the invariant. */
  lemma StepKeepsInv(boot: seq<Zone>, s: State, t: nat, a: Action)
    requires Inv(boot, s) && OwnedInside(boot, s) && Enabled(s, t, a)
    ensures Inv(boot, Do(s, t, a)) && OwnedInside(boot, Do(s, t, a))
  {
    if a.Advance? {
      NextKeepsInv(boot, s, t);
      match s.threads[t]
      case Decrement(n, z, i, j) =>
        assert boot[z].SameShape(s.zones[z]);
        assert PcInMap(s.zones, s.threads[t]);
      case _ =>
    } else {
      CallsKeepInv(boot, s, t, a);
    }
  }

  // ---------------------------------------------------------------- whole runs

  datatype Step = Step(thread: nat, action: Action)

  predicate Legal(s: State, run: seq<Step>)
    decreases run
  {
    run == [] || (Enabled(s, run[0].thread, run[0].action)
                  && Legal(Do(s, run[0].thread, run[0].action), run[1..]))
  }

  function Exec(s: State, run: seq<Step>): State
    requires Legal(s, run)
    decreases run
  {
    if run == [] then s else Exec(Do(s, run[0].thread, run[0].action), run[1..])
  }

  function Start(boot: seq<Zone>, threads: nat): State {
    State(boot, seq(threads, _ => Idle), {})
  }

  lemma {:induction false} SumOfIdle(ts: seq<Pc>, f: Pc -> int)
    requires f(Idle) == 0 && forall t | 0 <= t < |ts| :: ts[t].Idle?
    ensures Sum(ts, f) == 0
  {
    if ts != [] { SumOfIdle(ts[..|ts| - 1], f); }
  }

  lemma StartInv(boot: seq<Zone>, threads: nat)
    requires Bootable(boot) && UsableOnly(boot)
    ensures Inv(boot, Start(boot, threads)) && OwnedInside(boot, Start(boot, threads))
  {
    var s := Start(boot, threads);
    forall z: nat, k: nat | z < |boot| && k < |boot[z].bytes|
      ensures Accounted(s, z, k) == Bit(IsOne(boot, z, k))
    {
      SumOfIdle(s.threads, Weight(z, k));
    }
    forall z | 0 <= z < |boot| ensures Sum(s.threads, Owes(z)) == 0 && boot[z].WellFormed() {
      SumOfIdle(s.threads, Owes(z));
    }
  }

  lemma {:induction false} RunKeepsInv(boot: seq<Zone>, s: State, run: seq<Step>)
    requires Inv(boot, s) && OwnedInside(boot, s) && Legal(s, run)
    ensures Inv(boot, Exec(s, run)) && OwnedInside(boot, Exec(s, run))
    decreases run
  {
    if run != [] {
      StepKeepsInv(boot, s, run[0].thread, run[0].action);
      RunKeepsInv(boot, Do(s, run[0].thread, run[0].action), run[1..]);
    }
  }

  /** In every reachable state of every interleaving, the accounts balance page by page and zone by zone. */
  lemma {:induction false} EveryInterleaving(boot: seq<Zone>, threads: nat, run: seq<Step>)
    requires Bootable(boot) && UsableOnly(boot) && Legal(Start(boot, threads), run)
    ensures var s := Exec(Start(boot, threads), run);
      Conserved(boot, s) && Balanced(s) && forall t | 0 <= t < |s.threads| :: PcInMap(s.zones, s.threads[t])
  {
    StartInv(boot, threads);
    RunKeepsInv(boot, Start(boot, threads), run);
  }

  lemma {:induction false} TwoHolders(ts: seq<Pc>, t: nat, u: nat, z: nat, k: nat)
    requires t < u < |ts|
    ensures Sum(ts, Weight(z, k)) >= Bit(Holds(ts[t], z, k)) + Bit(Holds(ts[u], z, k))
  {
    var m := |ts| - 1;
    if u == m {
      WeightsBelowSum(ts[..m], z, k);
      assert ts[..m][t] == ts[t];
    } else {
      TwoHolders(ts[..m], t, u, z, k);
      assert ts[..m][t] == ts[t] && ts[..m][u] == ts[u];
    }
  }

  /** A page has at most one holder, and a free page has none. */
  lemma AtMostOneOwner(boot: seq<Zone>, s: State, t: nat, u: nat, p: Place)
    requires Inv(boot, s) && t < u < |s.threads|
    requires p.zone < |boot| && p.index < |boot[p.zone].bytes|
    ensures !(Holds(s.threads[t], p.zone, p.index) && Holds(s.threads[u], p.zone, p.index))
    ensures Holds(s.threads[t], p.zone, p.index) || Holds(s.threads[u], p.zone, p.index) ==>
              p !in s.owned && !IsOne(s.zones, p.zone, p.index)
    ensures p in s.owned ==> !IsOne(s.zones, p.zone, p.index)
  {
    TwoHolders(s.threads, t, u, p.zone, p.index);
    assert Accounted(s, p.zone, p.index) == Bit(IsOne(boot, p.zone, p.index));
  }

  /** When no call is in flight the zones are exactly those the sequential allocator would have. */
  lemma QuiescentIsSequential(boot: seq<Zone>, s: State)
    requires Inv(boot, s) && forall t | 0 <= t < |s.threads| :: s.threads[t].Idle?
    ensures s.zones == Concrete(boot, s.owned) && WellFormed(s.zones)
  {
    forall z | 0 <= z < |boot| ensures s.zones[z].WellFormed() {
      StopByteStays(boot, s, z);
      SumOfIdle(s.threads, Owes(z));
    }
    forall z, k | 0 <= z < |s.zones| && 0 <= k < |s.zones[z].bytes|
      ensures s.zones[z].bytes[k] == if Place(z, k) in s.owned then 0 else boot[z].bytes[k]
    {
      assert boot[z].SameShape(s.zones[z]);
      SumOfIdle(s.threads, Weight(z, k));
      assert Accounted(s, z, k) == Bit(IsOne(boot, z, k));
    }
    SameMaps(boot, s.zones, s.owned);
  }

  lemma {:induction false} DebtBound(ts: seq<Pc>, z: nat)
    ensures -|ts| <= Sum(ts, Owes(z)) <= |ts|
  {
    if ts != [] { DebtBound(ts[..|ts| - 1], z); }
  }

  /** At any time the cached counter is off by at most one per thread. */
  lemma CounterDrift(boot: seq<Zone>, s: State, z: nat)
    requires Inv(boot, s) && z < |s.zones|
    ensures var ones := Ones(s.zones[z].bytes, s.zones[z].pageCount);
      ones - |s.threads| <= s.zones[z].freePageCount <= ones + |s.threads|
  {
    DebtBound(s.threads, z);
  }

  // ---------------------------------------------------------------- results never overlap

  /** No call in the run frees any of these pages. */
  predicate Spares(run: seq<Step>, pages: set<Place>) {
    forall r | 0 <= r < |run| && run[r].action.CallFree? :: Run(run[r].action.p, run[r].action.n) !! pages
  }

  lemma {:induction false} OwnedStays(s: State, run: seq<Step>, pages: set<Place>)
    requires Legal(s, run) && pages <= s.owned && Spares(run, pages)
    ensures pages <= Exec(s, run).owned
    decreases run
  {
    if run != [] {
      assert run[0] == run[0] && (run[0].action.CallFree? ==> Run(run[0].action.p, run[0].action.n) !! pages);
      OwnedStays(Do(s, run[0].thread, run[0].action), run[1..], pages);
    }
  }

  /** Two allocations of any interleaving, the first of which was not freed in between, share no page. */
  lemma {:induction false} ResultsDisjoint(boot: seq<Zone>, s: State, t: nat, run: seq<Step>, u: nat)
    requires Inv(boot, s) && OwnedInside(boot, s) && Enabled(s, t, Advance)
    requires Legal(Do(s, t, Advance), run)
    requires u < |Exec(Do(s, t, Advance), run).threads|
    requires Spares(run, Granted(s.threads[t]))
    ensures Granted(s.threads[t]) !! Granted(Exec(Do(s, t, Advance), run).threads[u])
  {
    var s1 := Do(s, t, Advance);
    var s2 := Exec(s1, run);
    StepKeepsInv(boot, s, t, Advance);
    RunKeepsInv(boot, s1, run);
    OwnedStays(s1, run, Granted(s.threads[t]));
    forall p | p in Granted(s2.threads[u]) ensures p !in s2.owned {
      assert PcInMap(s2.zones, s2.threads[u]);
      assert Holds(s2.threads[u], p.zone, p.index);
      assert boot[p.zone].SameShape(s2.zones[p.zone]) && boot[p.zone].WellFormed();
      HeldOnce(boot, s2, u, p.zone, p.index);
    }
  }

  /** The same over whole runs from boot: allocate, run anything that does not free the result, allocate again. */
  lemma {:induction false} ResultsNeverOverlap(boot: seq<Zone>, threads: nat, before: seq<Step>, t: nat,
                                               between: seq<Step>, u: nat)
    requires Bootable(boot) && UsableOnly(boot) && Legal(Start(boot, threads), before)
    requires Enabled(Exec(Start(boot, threads), before), t, Advance)
    requires Legal(Do(Exec(Start(boot, threads), before), t, Advance), between)
    requires u < |Exec(Do(Exec(Start(boot, threads), before), t, Advance), between).threads|
    requires Spares(between, Granted(Exec(Start(boot, threads), before).threads[t]))
    ensures var s := Exec(Start(boot, threads), before);
      Granted(s.threads[t]) !! Granted(Exec(Do(s, t, Advance), between).threads[u])
  {
    StartInv(boot, threads);
    RunKeepsInv(boot, Start(boot, threads), before);
    ResultsDisjoint(boot, Exec(Start(boot, threads), before), t, between, u);
  }

  /** What a step hands out was free at boot. */
  lemma {:induction false} GrantedWasFree(boot: seq<Zone>, s: State, t: nat, p: Place)
    requires Inv(boot, s) && t < |s.threads| && p in Granted(s.threads[t])
    ensures IsFree(boot, p)
  {
    assert PcInMap(s.zones, s.threads[t]) && Holds(s.threads[t], p.zone, p.index);
    assert boot[p.zone].SameShape(s.zones[p.zone]) && boot[p.zone].WellFormed();
    HeldOnce(boot, s, t, p.zone, p.index);
  }

  /** ResultsNeverOverlap in addresses: the results share no byte of memory. */
  lemma {:induction false} ResultsShareNoMemory(boot: seq<Zone>, threads: nat, before: seq<Step>, t: nat,
                                                between: seq<Step>, u: nat, p: Place, q: Place)
    requires Bootable(boot) && UsableOnly(boot) && Legal(Start(boot, threads), before)
    requires Enabled(Exec(Start(boot, threads), before), t, Advance)
    requires Legal(Do(Exec(Start(boot, threads), before), t, Advance), between)
    requires u < |Exec(Do(Exec(Start(boot, threads), before), t, Advance), between).threads|
    requires Spares(between, Granted(Exec(Start(boot, threads), before).threads[t]))
    requires p in Granted(Exec(Start(boot, threads), before).threads[t])
    requires q in Granted(Exec(Do(Exec(Start(boot, threads), before), t, Advance), between).threads[u])
    ensures p.zone < |boot| && q.zone < |boot| && Apart(boot, p, q)
  {
    var s0 := Start(boot, threads);
    var s := Exec(s0, before);
    var s1 := Do(s, t, Advance);
    var s2 := Exec(s1, between);
    StartInv(boot, threads);
    RunKeepsInv(boot, s0, before);
    StepKeepsInv(boot, s, t, Advance);
    RunKeepsInv(boot, s1, between);
    ResultsDisjoint(boot, s, t, between, u);
    GrantedWasFree(boot, s, t, p);
    GrantedWasFree(boot, s2, u, q);
    FreePagesApart(boot, p, q);
  }
}
