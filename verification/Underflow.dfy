/**
 When a zone's counter can pass below zero.  Between a store of 1 and the increment that belongs to it another
 thread can claim the page and decrement first: that takes a second thread and a free page, and nothing else.
 */
module Underflow {
  import opened Basics
  import opened PageMaps
  import opened Ownership
  import opened Protocol
  import opened Solo

  predicate BelowZero(s: State) {
    exists z | 0 <= z < |s.zones| :: s.zones[z].freePageCount < 0
  }

  /** Some legal run makes a counter negative. */
  ghost predicate Underflows(s: State) {
    exists run: seq<Step> :: Legal(s, run) && BelowZero(Exec(s, run))
  }

  lemma {:induction false} UnderflowsNow(s: State)
    requires BelowZero(s)
    ensures Underflows(s)
  {
    assert Legal(s, []) && Exec(s, []) == s;
  }

  lemma {:induction false} UnderflowsAfter(s: State, t: nat, a: Action)
    requires Enabled(s, t, a) && Underflows(Do(s, t, a))
    ensures Underflows(s)
  {
    var run :| Legal(Do(s, t, a), run) && BelowZero(Exec(Do(s, t, a), run));
    var longer := [Step(t, a)] + run;
    assert longer[1..] == run;
    assert Legal(s, longer) && Exec(s, longer) == Exec(Do(s, t, a), run);
  }

  lemma {:induction false} UnderflowsAfterRun(s: State, run: seq<Step>)
    requires Legal(s, run) && Underflows(Exec(s, run))
    ensures Underflows(s)
    decreases run
  {
    if run != [] {
      UnderflowsAfterRun(Do(s, run[0].thread, run[0].action), run[1..]);
      UnderflowsAfter(s, run[0].thread, run[0].action);
    }
  }

  lemma {:induction false} UnderflowsAfterAlone(s: State, t: nat, goal: State)
    requires Alone(s, t, goal) && Underflows(goal)
    ensures Underflows(s)
  {
    var run :| OnlyBy(run, t) && Legal(s, run) && Exec(s, run) == goal;
    UnderflowsAfterRun(s, run);
  }

  // ---------------------------------------------------------------- no free page

  /** Nothing was ever found: the zones are those of boot and every thread is still searching. */
  predicate Barren(boot: seq<Zone>, s: State) {
    s.zones == boot && s.owned == {}
    && forall t | 0 <= t < |s.threads| :: s.threads[t].Idle? || s.threads[t].Enter? || s.threads[t].Scan?
  }

  lemma RunHasFirst(p: Place, n: nat)
    ensures n > 0 ==> p in Run(p, n)
  {
  }

  lemma {:induction false} BarrenStep(boot: seq<Zone>, s: State, t: nat, a: Action)
    requires Bootable(boot) && UsableOnly(boot) && (forall p :: !IsFree(boot, p))
    requires Barren(boot, s) && Enabled(s, t, a)
    ensures Barren(boot, Do(s, t, a))
  {
    if a.CallFree? { RunHasFirst(a.p, a.n); }
    if a.Advance? && s.threads[t].Scan? {
      var z, i := s.threads[t].z, s.threads[t].i;
      if IsOne(boot, z, i) { assert boot[z].WellFormed() && IsFree(boot, Place(z, i)); }
    }
  }

  lemma {:induction false} BarrenRun(boot: seq<Zone>, s: State, run: seq<Step>)
    requires Bootable(boot) && UsableOnly(boot) && (forall p :: !IsFree(boot, p))
    requires Barren(boot, s) && Legal(s, run)
    ensures Barren(boot, Exec(s, run))
    decreases run
  {
    if run != [] {
      BarrenStep(boot, s, run[0].thread, run[0].action);
      BarrenRun(boot, Do(s, run[0].thread, run[0].action), run[1..]);
    }
  }

  // ---------------------------------------------------------------- one thread

  /** The page whose increment the thread owes is still marked free. */
  predicate StillFree(zs: seq<Zone>, pc: Pc) {
    match pc
    case UndoCount(_, z, i, _, k) => IsOne(zs, z, i + k)
    case FreeCount(_, z, i, k) => IsOne(zs, z, i + k)
    case _ => true
  }

  predicate AllStillFree(s: State) {
    forall t | 0 <= t < |s.threads| :: StillFree(s.zones, s.threads[t])
  }

  lemma {:induction false} StepStillFree(zs: seq<Zone>, pc: Pc)
    requires PcInMap(zs, pc) && forall z | 0 <= z < |zs| :: zs[z].pageCount < |zs[z].bytes|
    ensures StillFree(Memory(zs, pc), Control(zs, pc))
  {
  }

  lemma {:induction false} OneThreadStep(boot: seq<Zone>, s: State, t: nat, a: Action)
    requires Inv(boot, s) && OwnedInside(boot, s) && |s.threads| == 1 && Enabled(s, t, a)
    ensures |Do(s, t, a).threads| == 1 && AllStillFree(Do(s, t, a))
  {
    var next := Do(s, t, a);
    assert PcInMap(s.zones, s.threads[0]);
    forall z | 0 <= z < |s.zones| ensures s.zones[z].pageCount < |s.zones[z].bytes| { StopByteStays(boot, s, z); }
    StepStillFree(s.zones, s.threads[0]);
    assert StillFree(next.zones, next.threads[0]);
  }

  lemma {:induction false} FewThreadsRun(boot: seq<Zone>, s: State, run: seq<Step>)
    requires Inv(boot, s) && OwnedInside(boot, s) && |s.threads| <= 1 && AllStillFree(s) && Legal(s, run)
    ensures Inv(boot, Exec(s, run)) && |Exec(s, run).threads| <= 1 && AllStillFree(Exec(s, run))
    decreases run
  {
    if run != [] {
      StepKeepsInv(boot, s, run[0].thread, run[0].action);
      OneThreadStep(boot, s, run[0].thread, run[0].action);
      FewThreadsRun(boot, Do(s, run[0].thread, run[0].action), run[1..]);
    }
  }

  lemma {:induction false} FewThreadsStayUp(boot: seq<Zone>, s: State)
    requires Inv(boot, s) && |s.threads| <= 1 && AllStillFree(s)
    ensures !BelowZero(s)
  {
    forall z | 0 <= z < |s.zones| ensures s.zones[z].freePageCount >= 0 {
      var bytes, n := s.zones[z].bytes, s.zones[z].pageCount;
      OnesPositive(bytes, n);
      if |s.threads| == 1 {
        var pc := s.threads[0];
        assert Sum(s.threads, Owes(z)) == Debt(pc, z) by { assert s.threads[..0] == []; }
        assert PcInMap(s.zones, pc) && StillFree(s.zones, pc);
      }
    }
  }

  // ---------------------------------------------------------------- two threads and a free page

  /** Thread t scans up to the first free page of the zone and is about to swap it. */
  lemma {:induction false} ParkScan(s: State, t: nat, zs: seq<Zone>, z: nat, k: nat, i: nat)
    requires t < |s.threads| && z < |zs| && k <= i < zs[z].pageCount <= |zs[z].bytes|
    requires zs[z].bytes[i] == 1 && forall h | k <= h < i :: zs[z].bytes[h] != 1
    ensures Alone(Put(s, t, zs, Scan(1, z, k)), t, Put(s, t, zs, Swap(1, z, i, 0)))
    decreases i - k
  {
    var goal := Put(s, t, zs, Swap(1, z, i, 0));
    if k == i {
      AloneSelf(goal, t);
      PutStep(s, t, zs, Scan(1, z, k), zs, Swap(1, z, i, 0), goal);
    } else {
      ParkScan(s, t, zs, z, k + 1, i);
      PutStep(s, t, zs, Scan(1, z, k), zs, Scan(1, z, k + 1), goal);
    }
  }

  /** Thread t skips the zones without free pages. */
  lemma {:induction false} ParkEnter(s: State, t: nat, zs: seq<Zone>, y: nat, z: nat, i: nat)
    requires t < |s.threads| && WellFormed(zs) && y <= z < |zs| && i < zs[z].pageCount
    requires zs[z].kind == Usable && zs[z].bytes[i] == 1 && forall h | 0 <= h < i :: zs[z].bytes[h] != 1
    requires forall p | IsFree(zs, p) :: p.zone >= z
    ensures Alone(Put(s, t, zs, Enter(1, y)), t, Put(s, t, zs, Swap(1, z, i, 0)))
    decreases z - y
  {
    var goal := Put(s, t, zs, Swap(1, z, i, 0));
    assert zs[y].WellFormed();
    OnesPositive(zs[y].bytes, zs[y].pageCount);
    if y == z {
      ParkScan(s, t, zs, z, 0, i);
      PutStep(s, t, zs, Enter(1, y), zs, Scan(1, z, 0), goal);
    } else {
      ParkEnter(s, t, zs, y + 1, z, i);
      forall k | 0 <= k < zs[y].pageCount && zs[y].kind == Usable ensures zs[y].bytes[k] != 1 {
        assert !IsFree(zs, Place(y, k));
      }
      PutStep(s, t, zs, Enter(1, y), zs, Enter(1, y + 1), goal);
    }
  }

  /** Thread 0 frees the page up to the pending increment; thread 1, parked before its swap, takes the page and
      decrements first. */
  lemma {:induction false} FreeAndRace(boot: seq<Zone>, s: State, z: nat, i: nat)
    requires Inv(boot, s) && OwnedInside(boot, s) && |s.threads| >= 2
    requires s.threads[0] == Idle && s.threads[1] == Swap(1, z, i, 0)
    requires z < |s.zones| && i < s.zones[z].pageCount && s.zones[z].freePageCount == 0 && Place(z, i) in s.owned
    ensures Underflows(s)
  {
    var p := Place(z, i);
    assert Run(p, 1) == {p};
    FreeIsRouted(boot, s, p, 1);
    StopByteStays(boot, s, z);
    var s1 := Do(s, 0, CallFree(p, 1));
    assert s1.threads[0] == Free(1, z, i, 0) && s1.threads[1] == s.threads[1] && s1.zones == s.zones;
    var s2 := Do(s1, 0, Advance);
    assert s2.threads[1] == Swap(1, z, i, 0) && IsOne(s2.zones, z, i) && s2.zones[z].freePageCount == 0;
    var s3 := Do(s2, 1, Advance);
    assert s3.threads[1] == Decrement(1, z, i, 0) && s3.zones[z].freePageCount == 0;
    var s4 := Do(s3, 1, Advance);
    assert s4.zones[z].freePageCount == -1;
    UnderflowsNow(s4);
    UnderflowsAfter(s3, 1, Advance);
    UnderflowsAfter(s2, 1, Advance);
    UnderflowsAfter(s1, 0, Advance);
    UnderflowsAfter(s, 0, CallFree(p, 1));
  }

  /** The next allocation of thread 0 takes a page of zone z, the first zone with free pages. */
  lemma {:induction false} FirstFitIsHere(zs: seq<Zone>, z: nat)
    requires WellFormed(zs) && z < |zs| && zs[z].kind == Usable && Ones(zs[z].bytes, zs[z].pageCount) > 0
    requires forall p | IsFree(zs, p) :: p.zone >= z
    ensures var r := FirstFit(zs, 0, 1); r.Some? && r.value.zone == z && Fits(zs, r.value, 1)
  {
    assert zs[z].WellFormed();
    OnesPositive(zs[z].bytes, zs[z].pageCount);
    var k :| 0 <= k < zs[z].pageCount && zs[z].bytes[k] == 1;
    assert Fits(zs, Place(z, k), 1);
    NothingFitsBefore(zs, 0, 1, Place(z, k));
    var p := FirstFit(zs, 0, 1).value;
    assert IsFree(zs, p);
  }

  /** Thread 0 takes one page of zone z, alone. */
  lemma {:induction false} TakeOneHere(boot: seq<Zone>, s: State, z: nat) returns (p: Place, goal: State)
    requires Inv(boot, s) && OwnedInside(boot, s) && WellFormed(s.zones) && |s.threads| > 0 && s.threads[0] == Idle
    requires z < |s.zones| && s.zones[z].kind == Usable && Ones(s.zones[z].bytes, s.zones[z].pageCount) > 0
    requires forall p | IsFree(s.zones, p) :: p.zone >= z
    ensures p.zone == z && Fits(s.zones, p, 1)
    ensures goal == State(Claim(s.zones, p, 1), s.threads, s.owned + {p})
    ensures Inv(boot, goal) && OwnedInside(boot, goal) && WellFormed(goal.zones)
    ensures Underflows(goal) ==> Underflows(s)
  {
    FirstFitIsHere(s.zones, z);
    p := FirstFit(s.zones, 0, 1).value;
    var called := Do(s, 0, CallAlloc(1));
    goal := Handed(s, 0, s.zones, p, 1);
    assert Run(p, 1) == {p} && goal.threads == s.threads;
    AllocAlone(s, 0, 1);
    StepKeepsInv(boot, s, 0, CallAlloc(1));
    AloneKeepsInv(boot, called, 0, goal);
    ClaimIsWellFormed(s.zones, p, 1);
    if Underflows(goal) {
      UnderflowsAfterAlone(called, 0, goal);
      UnderflowsAfter(s, 0, CallAlloc(1));
    }
  }

  /** Thread 0 takes the pages of zone z one by one until its counter is 0, and then frees the page thread 1 is
      about to swap. */
  lemma {:induction false} DrainAndRace(boot: seq<Zone>, s: State, z: nat, i: nat)
    requires Inv(boot, s) && OwnedInside(boot, s) && WellFormed(s.zones) && |s.threads| >= 2
    requires s.threads[0] == Idle && s.threads[1] == Swap(1, z, i, 0)
    requires z < |s.zones| && s.zones[z].kind == Usable && i < s.zones[z].pageCount
    requires forall p | IsFree(s.zones, p) :: p.zone >= z
    requires IsOne(s.zones, z, i) || Place(z, i) in s.owned
    ensures Underflows(s)
    decreases s.zones[z].freePageCount
  {
    assert s.zones[z].WellFormed();
    OnesPositive(s.zones[z].bytes, s.zones[z].pageCount);
    if s.zones[z].freePageCount == 0 {
      FreeAndRace(boot, s, z, i);
    } else {
      var p, goal := TakeOneHere(boot, s, z);
      forall q | IsFree(goal.zones, q) ensures q.zone >= z { assert IsFree(s.zones, q); }
      DrainAndRace(boot, goal, z, i);
    }
  }

  /** The first free page of the machine. */
  lemma {:induction false} FirstFreePage(zs: seq<Zone>, q: Place) returns (p: Place)
    requires WellFormed(zs) && IsFree(zs, q)
    ensures IsFree(zs, p) && (forall h | 0 <= h < p.index :: zs[p.zone].bytes[h] != 1)
    ensures forall r | IsFree(zs, r) :: r.zone >= p.zone
  {
    assert Fits(zs, q, 1);
    NothingFitsBefore(zs, 0, 1, q);
    p := FirstFit(zs, 0, 1).value;
    forall r | IsFree(zs, r) ensures !Before(r, p) {
      assert Fits(zs, r, 1);
      NothingFitsBefore(zs, 0, 1, r);
    }
    forall h | 0 <= h < p.index ensures zs[p.zone].bytes[h] != 1 {
      assert zs[p.zone].bytes[h] == 1 ==> IsFree(zs, Place(p.zone, h));
    }
  }

  lemma {:induction false} TwoThreadsUnderflow(boot: seq<Zone>, threads: nat, q: Place)
    requires Bootable(boot) && UsableOnly(boot) && threads >= 2 && IsFree(boot, q)
    ensures Underflows(Start(boot, threads))
  {
    var s := Start(boot, threads);
    var p := FirstFreePage(boot, q);
    var called, parked := Do(s, 1, CallAlloc(1)), Put(s, 1, boot, Swap(1, p.zone, p.index, 0));
    StartInv(boot, threads);
    StepKeepsInv(boot, s, 1, CallAlloc(1));
    ParkEnter(s, 1, boot, 0, p.zone, p.index);
    assert called == Put(s, 1, boot, Enter(1, 0));
    AloneKeepsInv(boot, called, 1, parked);
    DrainAndRace(boot, parked, p.zone, p.index);
    UnderflowsAfterAlone(called, 1, parked);
    UnderflowsAfter(s, 1, CallAlloc(1));
  }

  /** A counter can pass below zero exactly when there are two threads and a page that is free at boot. */
  lemma {:induction false} UnderflowIff(boot: seq<Zone>, threads: nat)
    requires Bootable(boot) && UsableOnly(boot)
    ensures Underflows(Start(boot, threads)) <==> threads >= 2 && exists p :: IsFree(boot, p)
  {
    var s := Start(boot, threads);
    StartInv(boot, threads);
    if threads >= 2 && exists p :: IsFree(boot, p) {
      var p :| IsFree(boot, p);
      TwoThreadsUnderflow(boot, threads, p);
    }
    forall run: seq<Step> | Legal(s, run) && !(threads >= 2 && exists p :: IsFree(boot, p))
      ensures !BelowZero(Exec(s, run))
    {
      if threads < 2 {
        FewThreadsRun(boot, s, run);
        FewThreadsStayUp(boot, Exec(s, run));
      } else {
        BarrenRun(boot, s, run);
        assert forall z | 0 <= z < |boot| :: boot[z].WellFormed();
      }
    }
  }
}
