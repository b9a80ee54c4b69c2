/**
 When an allocation comes back with NULL although a run of pages was marked free all through the call.  The
 call has to read 0 in a counter that owes an increment for every page of the run, and every increment owed is
 owed by another thread.
 */
module Missed {
  import opened Basics
  import opened PageMaps
  import opened Ownership
  import opened Protocol
  import opened Solo
  import opened Progress

  /** The n pages at p are marked free. */
  function RunFree(p: Place, n: nat): State -> bool {
    (s: State) => forall k | p.index <= k < p.index + n :: IsOne(s.zones, p.zone, k)
  }

  /** The condition holds in every state the run goes through, the first and the last included. */
  predicate Throughout(s: State, run: seq<Step>, holds: State -> bool)
    requires Legal(s, run)
    decreases run
  {
    holds(s) && (run == [] || Throughout(Do(s, run[0].thread, run[0].action), run[1..], holds))
  }

  /** In the run thread t's call for n pages comes back with NULL, and the n pages at p are free all along. */
  predicate NullCall(s: State, run: seq<Step>, t: nat, p: Place, n: nat) {
    && t < |s.threads| && Legal(s, run) && NoCalls(run, t) && HandedNothing(s, run, t)
    && t < |Exec(s, run).threads| && Exec(s, run).threads[t].Idle?
    && Throughout(s, run, RunFree(p, n))
  }

  /** After the steps `before`, thread t has just called for n pages and misses the run at p. */
  ghost predicate MissesAt(s: State, before: seq<Step>, t: nat, p: Place, n: nat) {
    && Legal(s, before) && t < |Exec(s, before).threads| && Exec(s, before).threads[t] == Enter(n, 0)
    && exists call: seq<Step> :: NullCall(Exec(s, before), call, t, p, n)
  }

  /** Some legal run ends in such a call. */
  ghost predicate Misses(s: State, n: nat) {
    exists before: seq<Step>, t: nat, p: Place :: MissesAt(s, before, t, p, n)
  }

  lemma {:induction false} MissesAfter(s: State, t: nat, a: Action, n: nat)
    requires Enabled(s, t, a) && Misses(Do(s, t, a), n)
    ensures Misses(s, n)
  {
    var before: seq<Step>, u: nat, p: Place :| MissesAt(Do(s, t, a), before, u, p, n);
    var longer := [Step(t, a)] + before;
    assert longer[1..] == before;
    assert Legal(s, longer) && Exec(s, longer) == Exec(Do(s, t, a), before);
    assert MissesAt(s, longer, u, p, n);
  }

  lemma {:induction false} MissesAfterRun(s: State, run: seq<Step>, n: nat)
    requires Legal(s, run) && Misses(Exec(s, run), n)
    ensures Misses(s, n)
    decreases run
  {
    if run != [] {
      MissesAfterRun(Do(s, run[0].thread, run[0].action), run[1..], n);
      MissesAfter(s, run[0].thread, run[0].action, n);
    }
  }

  lemma {:induction false} MissesAfterAlone(s: State, t: nat, goal: State, n: nat)
    requires Alone(s, t, goal) && Misses(goal, n)
    ensures Misses(s, n)
  {
    var run: seq<Step> :| OnlyBy(run, t) && Legal(s, run) && Exec(s, run) == goal;
    MissesAfterRun(s, run, n);
  }

  // ---------------------------------------------------------------- only with n + 1 threads

  /** With n increments owed, none of them by thread t, there are n + 1 threads. */
  lemma {:induction false} ManyOwe(ts: seq<Pc>, z: nat, t: nat)
    requires t < |ts| && Debt(ts[t], z) <= 0
    ensures Sum(ts, Owes(z)) < |ts|
  {
    var m := |ts| - 1;
    if t == m {
      DebtBound(ts[..m], z);
    } else {
      assert ts[..m][t] == ts[t];
      ManyOwe(ts[..m], z, t);
    }
  }

  /** A map with n consecutive 1 bytes has at least n of them. */
  lemma {:induction false} RunCounts(s: seq<Byte>, m: nat, i: nat, n: nat)
    requires i + n <= m <= |s| && forall k | i <= k < i + n :: s[k] == 1
    ensures Ones(s, m) >= n
  {
    OnesFill(s, m, i, n, true, 0);
  }

  /** Pages marked free lie inside a map of a usable zone. */
  lemma {:induction false} MarkedInside(boot: seq<Zone>, s: State, p: Place, n: nat)
    requires Inv(boot, s) && 0 < n && RunFree(p, n)(s)
    ensures p.zone < |boot| && boot[p.zone].kind == Usable && p.index + n <= s.zones[p.zone].pageCount
    ensures |s.zones[p.zone].bytes| == s.zones[p.zone].pageCount + 1
    ensures boot[p.zone].pageCount == s.zones[p.zone].pageCount && Fits(boot, p, n)
  {
    var z := p.zone;
    assert IsOne(s.zones, z, p.index);
    assert boot[z].SameShape(s.zones[z]);
    StopByteStays(boot, s, z);
    var last := p.index + n - 1;
    assert IsOne(s.zones, z, last);
    forall k | p.index <= k < p.index + n ensures IsOne(boot, z, k) {
      assert IsOne(s.zones, z, k);
      OneWasFreeAtBoot(boot, s, z, k);
    }
    assert RunAt(boot[z].bytes, p.index, n) by {
      forall k | p.index <= k < p.index + n ensures boot[z].bytes[k] == 1 { assert IsOne(boot, z, k); }
    }
    assert boot[z].bytes[p.index] == 1;
  }

  /** A thread that reads 0 beside n pages marked free has n others that owe an increment. */
  lemma {:induction false} ZeroBesideRun(boot: seq<Zone>, s: State, t: nat, p: Place, n: nat)
    requires Inv(boot, s) && 0 < n && RunFree(p, n)(s) && ReadsZero(t, n, p.zone)(s)
    ensures |s.threads| >= n + 1
  {
    MarkedInside(boot, s, p, n);
    var z := s.zones[p.zone];
    forall k | p.index <= k < p.index + n ensures z.bytes[k] == 1 { assert IsOne(s.zones, p.zone, k); }
    RunCounts(z.bytes, z.pageCount, p.index, n);
    ManyOwe(s.threads, p.zone, t);
  }

  /** The same somewhere in a run. */
  lemma {:induction false} ZeroBesideRunInRun(boot: seq<Zone>, s: State, run: seq<Step>, t: nat, p: Place, n: nat)
    requires Inv(boot, s) && OwnedInside(boot, s) && Legal(s, run) && 0 < n
    requires Throughout(s, run, RunFree(p, n)) && Sometime(s, run, ReadsZero(t, n, p.zone))
    ensures |s.threads| >= n + 1
    decreases run
  {
    if ReadsZero(t, n, p.zone)(s) {
      ZeroBesideRun(boot, s, t, p, n);
    } else {
      StepKeepsInv(boot, s, run[0].thread, run[0].action);
      ZeroBesideRunInRun(boot, Do(s, run[0].thread, run[0].action), run[1..], t, p, n);
    }
  }

  lemma {:induction false} MarkedIsNotBroken(s: State, run: seq<Step>, p: Place, n: nat)
    requires Legal(s, run) && Throughout(s, run, RunFree(p, n))
    ensures !Sometime(s, run, Broken(p.zone, p.index, n))
    decreases run
  {
    assert !Broken(p.zone, p.index, n)(s);
    if run != [] { MarkedIsNotBroken(Do(s, run[0].thread, run[0].action), run[1..], p, n); }
  }

  /** A call that misses a run has n other threads, and the run was free at boot. */
  lemma {:induction false} MissNeedsThreads(boot: seq<Zone>, s: State, run: seq<Step>, t: nat, p: Place, n: nat)
    requires Inv(boot, s) && OwnedInside(boot, s) && 0 < n && NullCall(s, run, t, p, n) && s.threads[t] == Enter(n, 0)
    ensures |s.threads| >= n + 1 && Fits(boot, p, n)
  {
    assert RunFree(p, n)(s);
    MarkedInside(boot, s, p, n);
    MarkedIsNotBroken(s, run, p, n);
    PassedByInRun(boot, s, run, t, n, p.zone, p.index);
    ZeroBesideRunInRun(boot, s, run, t, p, n);
  }

  // ---------------------------------------------------------------- always with n + 1 threads

  /** No usable zone's counter is other than 0. */
  predicate AllZero(zs: seq<Zone>) {
    forall z | 0 <= z < |zs| && zs[z].kind == Usable :: zs[z].freePageCount == 0
  }

  ghost predicate NullFrom(s: State, t: nat, p: Place, n: nat) {
    exists call: seq<Step> :: NullCall(s, call, t, p, n)
  }

  lemma {:induction false} NullFromStep(s: State, t: nat, p: Place, n: nat)
    requires t < |s.threads| && !s.threads[t].Idle? && Granted(s.threads[t]) == {} && RunFree(p, n)(s)
    requires NullFrom(Next(s, t), t, p, n)
    ensures NullFrom(s, t, p, n)
  {
    var next := Next(s, t);
    var call: seq<Step> :| NullCall(next, call, t, p, n);
    var longer := [Step(t, Advance)] + call;
    assert longer[1..] == call;
    assert forall r | 0 < r < |longer| :: longer[r] == call[r - 1];
    assert NullCall(s, longer, t, p, n);
  }

  /** A call that reads 0 everywhere comes back with NULL. */
  lemma {:induction false} ReadZeros(s: State, t: nat, p: Place, n: nat, z: nat)
    requires t < |s.threads| && s.threads[t] == Enter(n, z) && z <= |s.zones| && AllZero(s.zones) && RunFree(p, n)(s)
    ensures NullFrom(s, t, p, n)
    decreases |s.zones| - z
  {
    var next := Next(s, t);
    if z == |s.zones| {
      assert NullCall(next, [], t, p, n);
    } else {
      ReadZeros(next, t, p, n, z + 1);
    }
    NullFromStep(s, t, p, n);
  }

  /** Threads 0 to k - 1 have marked the first k pages of the run and not counted them yet; the others are idle. */
  predicate Owing(s: State, p: Place, k: nat) {
    && forall j | 0 <= j < |s.threads| :: s.threads[j] == if j < k then FreeCount(1, p.zone, p.index + j, 0) else Idle
  }

  /** Pages of the run from k on are owned by callers. */
  predicate OwnedFrom(s: State, p: Place, k: nat, n: nat) {
    forall h | p.index + k <= h < p.index + n :: Place(p.zone, h) in s.owned
  }

  predicate MarkedUpTo(s: State, p: Place, k: nat) {
    forall h | p.index <= h < p.index + k :: IsOne(s.zones, p.zone, h)
  }

  /** The state after thread k has freed the next page of the run up to its increment. */
  function OneMoreOwed(s: State, p: Place, k: nat): State
    requires k < |s.threads|
  {
    State(Store(s.zones, p.zone, p.index + k, 1), s.threads[k := FreeCount(1, p.zone, p.index + k, 0)],
          s.owned - {Place(p.zone, p.index + k)})
  }

  lemma {:induction false} OneMoreOwedShape(s: State, p: Place, k: nat, n: nat)
    requires AllZero(s.zones) && Owing(s, p, k) && OwnedFrom(s, p, k, n) && MarkedUpTo(s, p, k)
    requires k < n && k < |s.threads| && p.zone < |s.zones| && p.index + k < |s.zones[p.zone].bytes|
    ensures var s2 := OneMoreOwed(s, p, k);
      AllZero(s2.zones) && Owing(s2, p, k + 1) && OwnedFrom(s2, p, k + 1, n) && MarkedUpTo(s2, p, k + 1)
  {
    var s2 := OneMoreOwed(s, p, k);
    forall h | p.index <= h < p.index + (k + 1) ensures IsOne(s2.zones, p.zone, h) {
      if h < p.index + k { assert IsOne(s.zones, p.zone, h); }
    }
  }

  /** Its two steps. */
  lemma {:induction false} OweSteps(boot: seq<Zone>, s: State, p: Place, k: nat)
    requires Inv(boot, s) && OwnedInside(boot, s) && k < |s.threads| && s.threads[k].Idle?
    requires Place(p.zone, p.index + k) in s.owned
    ensures var q := Place(p.zone, p.index + k);
      && q.zone < |s.zones| && q.index < |s.zones[q.zone].bytes|
      && Enabled(s, k, CallFree(q, 1)) && Enabled(Do(s, k, CallFree(q, 1)), k, Advance)
      && Do(Do(s, k, CallFree(q, 1)), k, Advance) == OneMoreOwed(s, p, k)
  {
    var q := Place(p.zone, p.index + k);
    assert Run(q, 1) == {q};
    assert boot[q.zone].SameShape(s.zones[q.zone]);
    FreeIsRouted(boot, s, q, 1);
    var s1 := Do(s, k, CallFree(q, 1));
    assert s1 == State(s.zones, s.threads[k := Free(1, q.zone, q.index, 0)], s.owned - {q});
    assert s1.threads[k := FreeCount(1, q.zone, q.index, 0)] == OneMoreOwed(s, p, k).threads;
  }

  /** Thread k frees the next page of the run up to its increment. */
  lemma {:induction false} OweOne(boot: seq<Zone>, s: State, p: Place, k: nat, n: nat)
    requires Inv(boot, s) && OwnedInside(boot, s) && k < |s.threads| && s.threads[k].Idle?
    requires Place(p.zone, p.index + k) in s.owned
    ensures p.zone < |s.zones| && p.index + k < |s.zones[p.zone].bytes|
    ensures Inv(boot, OneMoreOwed(s, p, k)) && OwnedInside(boot, OneMoreOwed(s, p, k))
    ensures Misses(OneMoreOwed(s, p, k), n) ==> Misses(s, n)
  {
    var call := CallFree(Place(p.zone, p.index + k), 1);
    OweSteps(boot, s, p, k);
    var s1 := Do(s, k, call);
    StepKeepsInv(boot, s, k, call);
    StepKeepsInv(boot, s1, k, Advance);
    if Misses(OneMoreOwed(s, p, k), n) {
      MissesAfter(s1, k, Advance, n);
      MissesAfter(s, k, call, n);
    }
  }

  /** From k pages owed: owe the rest, then let the next thread look. */
  lemma {:induction false} OweAndMiss(boot: seq<Zone>, s: State, p: Place, k: nat, n: nat)
    requires Inv(boot, s) && OwnedInside(boot, s) && AllZero(s.zones) && Owing(s, p, k)
    requires OwnedFrom(s, p, k, n) && MarkedUpTo(s, p, k) && k <= n < |s.threads|
    ensures Misses(s, n)
    decreases n - k
  {
    if k < n {
      assert Place(p.zone, p.index + k) in s.owned;
      OweOne(boot, s, p, k, n);
      OneMoreOwedShape(s, p, k, n);
      OweAndMiss(boot, OneMoreOwed(s, p, k), p, k + 1, n);
    } else {
      var called := Do(s, n, CallAlloc(n));
      ReadZeros(called, n, p, n, 0);
      assert Legal(called, []) && Exec(called, []) == called;
      assert MissesAt(called, [], n, p, n);
      MissesAfter(s, n, CallAlloc(n), n);
    }
  }

  // ---------------------------------------------------------------- taking everything

  /** Free pages of the first m zones, by their counters. */
  function FreeTotal(zs: seq<Zone>, m: nat): int
    requires m <= |zs|
  {
    if m == 0 then 0 else FreeTotal(zs, m - 1) + zs[m - 1].freePageCount
  }

  lemma {:induction false} FreeTotalUpdate(zs: seq<Zone>, m: nat, z: nat, b: Zone)
    requires m <= |zs| && z < |zs|
    ensures FreeTotal(zs[z := b], m) == FreeTotal(zs, m) + if z < m then b.freePageCount - zs[z].freePageCount else 0
  {
    if m > 0 { FreeTotalUpdate(zs, m - 1, z, b); }
  }

  lemma {:induction false} FreeTotalNonNegative(zs: seq<Zone>, m: nat)
    requires WellFormed(zs) && m <= |zs|
    ensures FreeTotal(zs, m) >= 0
  {
    if m > 0 {
      assert zs[m - 1].WellFormed();
      FreeTotalNonNegative(zs, m - 1);
    }
  }

  predicate AllIdle(s: State) {
    forall t | 0 <= t < |s.threads| :: s.threads[t].Idle?
  }

  /** What the next allocation of one page takes, while a page is free. */
  lemma {:induction false} NextPageTaken(zs: seq<Zone>, q: Place) returns (p: Place)
    requires WellFormed(zs) && IsFree(zs, q)
    ensures FirstFit(zs, 0, 1) == Some(p) && Fits(zs, p, 1)
    ensures |Claim(zs, p, 1)| == |zs| && FreeTotal(Claim(zs, p, 1), |zs|) == FreeTotal(zs, |zs|) - 1
  {
    assert Fits(zs, q, 1);
    NothingFitsBefore(zs, 0, 1, q);
    p := FirstFit(zs, 0, 1).value;
    FreeTotalUpdate(zs, |zs|, p.zone, Changed(zs[p.zone], p.index, 1, 0, -1));
  }

  /** Thread 0 takes one free page, alone. */
  lemma {:induction false} TakeOne(boot: seq<Zone>, s: State, q: Place, n: nat) returns (goal: State)
    requires Inv(boot, s) && OwnedInside(boot, s) && AllIdle(s) && |s.threads| > 0 && WellFormed(s.zones)
    requires IsFree(s.zones, q)
    ensures Inv(boot, goal) && OwnedInside(boot, goal) && AllIdle(goal) && |goal.threads| == |s.threads|
    ensures |goal.zones| == |s.zones| && FreeTotal(goal.zones, |s.zones|) == FreeTotal(s.zones, |s.zones|) - 1
    ensures Misses(goal, n) ==> Misses(s, n)
  {
    var p := NextPageTaken(s.zones, q);
    var called := Do(s, 0, CallAlloc(1));
    goal := Handed(s, 0, s.zones, p, 1);
    AllocAlone(s, 0, 1);
    StepKeepsInv(boot, s, 0, CallAlloc(1));
    AloneKeepsInv(boot, called, 0, goal);
    if Misses(goal, n) {
      MissesAfterAlone(called, 0, goal, n);
      MissesAfter(s, 0, CallAlloc(1), n);
    }
  }

  /** With nothing free and every thread idle, all counters of usable zones are 0 and callers own every page that
      was free at boot. */
  lemma {:induction false} NothingFree(boot: seq<Zone>, s: State, p: Place, n: nat)
    requires Inv(boot, s) && AllIdle(s) && WellFormed(s.zones) && (forall q :: !IsFree(s.zones, q)) && Fits(boot, p, n)
    ensures AllZero(s.zones) && OwnedFrom(s, p, 0, n)
  {
    forall z | 0 <= z < |s.zones| && s.zones[z].kind == Usable ensures s.zones[z].freePageCount == 0 {
      assert s.zones[z].WellFormed();
      OnesPositive(s.zones[z].bytes, s.zones[z].pageCount);
      forall k | 0 <= k < s.zones[z].pageCount ensures s.zones[z].bytes[k] != 1 {
        assert !IsFree(s.zones, Place(z, k));
      }
    }
    assert boot[p.zone].WellFormed() && boot[p.zone].SameShape(s.zones[p.zone]);
    RunStaysInMap(boot[p.zone], p.index, n);
    forall k | p.index <= k < p.index + n ensures Place(p.zone, k) in s.owned {
      SumOfIdle(s.threads, Weight(p.zone, k));
      assert IsOne(boot, p.zone, k) && Accounted(s, p.zone, k) == Bit(IsOne(boot, p.zone, k));
      assert !IsFree(s.zones, Place(p.zone, k));
    }
  }

  /** Take every free page, then owe the run and miss it. */
  lemma {:induction false} DrainAndMiss(boot: seq<Zone>, s: State, p: Place, n: nat)
    requires Inv(boot, s) && OwnedInside(boot, s) && AllIdle(s) && n < |s.threads| && WellFormed(s.zones)
    requires Fits(boot, p, n)
    ensures Misses(s, n)
    decreases FreeTotal(s.zones, |s.zones|)
  {
    FreeTotalNonNegative(s.zones, |s.zones|);
    if q: Place :| IsFree(s.zones, q) {
      var goal := TakeOne(boot, s, q, n);
      QuiescentIsSequential(boot, goal);
      FreeTotalNonNegative(goal.zones, |goal.zones|);
      DrainAndMiss(boot, goal, p, n);
    } else {
      NothingFree(boot, s, p, n);
      OweAndMiss(boot, s, p, 0, n);
    }
  }

  /** Some call for n pages comes back with NULL although n pages in a row are marked free all through it exactly
      when there are n + 1 threads and a run of n pages is free at boot. */
  lemma {:induction false} MissesIff(boot: seq<Zone>, threads: nat, n: nat)
    requires Bootable(boot) && UsableOnly(boot) && 0 < n
    ensures Misses(Start(boot, threads), n) <==> threads > n && exists p: Place :: Fits(boot, p, n)
  {
    var s := Start(boot, threads);
    StartInv(boot, threads);
    if threads > n && exists p: Place :: Fits(boot, p, n) {
      var p: Place :| Fits(boot, p, n);
      DrainAndMiss(boot, s, p, n);
    }
    if Misses(s, n) {
      var before: seq<Step>, t: nat, p: Place :| MissesAt(s, before, t, p, n);
      var s1 := Exec(s, before);
      var call: seq<Step> :| NullCall(s1, call, t, p, n);
      RunKeepsInv(boot, s, before);
      MissNeedsThreads(boot, s1, call, t, p, n);
      SameThreads(s, before);
    }
  }

  /** Threads neither come nor go. */
  lemma {:induction false} SameThreads(s: State, run: seq<Step>)
    requires Legal(s, run)
    ensures |Exec(s, run).threads| == |s.threads|
    decreases run
  {
    if run != [] { SameThreads(Do(s, run[0].thread, run[0].action), run[1..]); }
  }
}
