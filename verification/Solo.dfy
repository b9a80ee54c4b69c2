/**
 A call that runs without interference.  The interleaved step machine then does what the
 sequential functions say: it claims the first fit or rolls everything back, and it releases a run.
 */
module Solo {
  import opened Basics
  import opened PageMaps
  import opened Ownership
  import opened Protocol

  /** Only thread t takes steps, and it takes no new calls. */
  predicate OnlyBy(run: seq<Step>, t: nat) {
    forall r | 0 <= r < |run| :: run[r] == Step(t, Advance)
  }

  /** Thread t alone gets from one state to the other. */
  ghost predicate Alone(s: State, t: nat, goal: State) {
    exists run: seq<Step> :: OnlyBy(run, t) && Legal(s, run) && Exec(s, run) == goal
  }

  lemma {:induction false} AloneSelf(s: State, t: nat)
    ensures Alone(s, t, s)
  {
    assert OnlyBy([], t) && Legal(s, []) && Exec(s, []) == s;
  }

  lemma {:induction false} AloneStep(s: State, t: nat, next: State, goal: State)
    requires t < |s.threads| && !s.threads[t].Idle? && Next(s, t) == next && Alone(next, t, goal)
    ensures Alone(s, t, goal)
  {
    var run :| OnlyBy(run, t) && Legal(next, run) && Exec(next, run) == goal;
    var longer := [Step(t, Advance)] + run;
    assert longer[1..] == run;
    assert OnlyBy(longer, t) && Legal(s, longer) && Exec(s, longer) == goal;
  }

  lemma {:induction false} AloneKeepsInv(boot: seq<Zone>, s: State, t: nat, goal: State)
    requires Inv(boot, s) && OwnedInside(boot, s) && Alone(s, t, goal)
    ensures Inv(boot, goal) && OwnedInside(boot, goal)
  {
    var run :| OnlyBy(run, t) && Legal(s, run) && Exec(s, run) == goal;
    RunKeepsInv(boot, s, run);
  }

  /** The state with other zones and thread t elsewhere. */
  function Put(s: State, t: nat, zs: seq<Zone>, pc: Pc): State
    requires t < |s.threads|
  {
    State(zs, s.threads[t := pc], s.owned)
  }

  /** One step of thread t, when it hands out nothing. */
  lemma {:induction false} PutStep(s: State, t: nat, zs: seq<Zone>, pc: Pc, zs': seq<Zone>, pc': Pc, goal: State)
    requires t < |s.threads| && !pc.Idle? && Granted(pc) == {}
    requires Memory(zs, pc) == zs' && Control(zs, pc) == pc' && Alone(Put(s, t, zs', pc'), t, goal)
    ensures Alone(Put(s, t, zs, pc), t, goal)
  {
    assert s.threads[t := pc][t := pc'] == s.threads[t := pc'];
    AloneStep(Put(s, t, zs, pc), t, Put(s, t, zs', pc'), goal);
  }

  // ---------------------------------------------------------------- changes byte by byte

  lemma {:induction false} ClaimGrows(zs: seq<Zone>, z: nat, i: nat, j: nat)
    requires z < |zs| && i + j < |zs[z].bytes|
    ensures Bump(Store(Claim(zs, Place(z, i), j), z, i + j, 0), z, -1) == Claim(zs, Place(z, i), j + 1)
  {
    assert Fill(zs[z].bytes, i, j, 0)[i + j := 0] == Fill(zs[z].bytes, i, j + 1, 0);
  }

  lemma {:induction false} ClaimShrinks(zs: seq<Zone>, z: nat, i: nat, j: nat)
    requires z < |zs| && 0 < j && i + j <= |zs[z].bytes| && zs[z].bytes[i] == 1
    ensures Bump(Store(Claim(zs, Place(z, i), j), z, i, 1), z, 1) == Claim(zs, Place(z, i + 1), j - 1)
  {
    assert Fill(zs[z].bytes, i, j, 0)[i := 1] == Fill(zs[z].bytes, i + 1, j - 1, 0);
  }

  lemma {:induction false} ClaimNothing(zs: seq<Zone>, z: nat, i: nat)
    requires z < |zs| && i <= |zs[z].bytes|
    ensures Claim(zs, Place(z, i), 0) == zs
  {
    assert Fill(zs[z].bytes, i, 0, 0) == zs[z].bytes;
  }

  lemma {:induction false} ReleaseGrows(zs: seq<Zone>, z: nat, i: nat, k: nat)
    requires z < |zs| && i + k < |zs[z].bytes|
    ensures Bump(Store(Release(zs, Place(z, i), k), z, i + k, 1), z, 1) == Release(zs, Place(z, i), k + 1)
  {
    assert Fill(zs[z].bytes, i, k, 1)[i + k := 1] == Fill(zs[z].bytes, i, k + 1, 1);
  }

  // ---------------------------------------------------------------- allocation

  /** One page of a roll-back: the store, then the increment. */
  lemma {:induction false} UndoOne(s: State, t: nat, zs: seq<Zone>, n: nat, z: nat, i: nat, j: nat, k: nat,
                                   goal: State)
    requires t < |s.threads| && z < |zs| && k < j && i + j <= |zs[z].bytes| && zs[z].bytes[i + k] == 1
    requires Alone(Put(s, t, Claim(zs, Place(z, i + k + 1), j - k - 1), Undo(n, z, i, j, k + 1)), t, goal)
    ensures Alone(Put(s, t, Claim(zs, Place(z, i + k), j - k), Undo(n, z, i, j, k)), t, goal)
  {
    var now := Claim(zs, Place(z, i + k), j - k);
    var stored := Store(now, z, i + k, 1);
    ClaimShrinks(zs, z, i + k, j - k);
    PutStep(s, t, stored, UndoCount(n, z, i, j, k), Claim(zs, Place(z, i + k + 1), j - k - 1),
            Undo(n, z, i, j, k + 1), goal);
    PutStep(s, t, now, Undo(n, z, i, j, k), stored, UndoCount(n, z, i, j, k), goal);
  }

  /** Roll-back: from k of j pages restored, everything is as before the run was tried. */
  lemma {:induction false} FromUndo(s: State, t: nat, zs: seq<Zone>, n: nat, z: nat, i: nat, j: nat, k: nat,
                                    goal: State)
    requires t < |s.threads| && z < |zs| && k <= j && i + j <= |zs[z].bytes|
    requires forall h | i <= h < i + j :: zs[z].bytes[h] == 1
    requires Alone(Put(s, t, zs, Scan(n, z, i + 1)), t, goal)
    ensures Alone(Put(s, t, Claim(zs, Place(z, i + k), j - k), Undo(n, z, i, j, k)), t, goal)
    decreases j - k
  {
    if k == j {
      ClaimNothing(zs, z, i + k);
      PutStep(s, t, zs, Undo(n, z, i, j, k), zs, Scan(n, z, i + 1), goal);
    } else {
      FromUndo(s, t, zs, n, z, i, j, k + 1, goal);
      UndoOne(s, t, zs, n, z, i, j, k, goal);
    }
  }

  /** The state after the run at (z, i) has been claimed and handed out. */
  function Handed(s: State, t: nat, zs: seq<Zone>, p: Place, n: nat): State
    requires t < |s.threads| && p.zone < |zs| && p.index + n <= |zs[p.zone].bytes|
  {
    State(Claim(zs, p, n), s.threads[t := Idle], s.owned + Run(p, n))
  }

  lemma {:induction false} HandOut(s: State, t: nat, zs: seq<Zone>, n: nat, z: nat, i: nat)
    requires t < |s.threads| && z < |zs| && 0 < n && i + n <= |zs[z].bytes|
    ensures var stored := Store(Claim(zs, Place(z, i), n - 1), z, i + n - 1, 0);
      Alone(Put(s, t, stored, Decrement(n, z, i, n - 1)), t, Handed(s, t, zs, Place(z, i), n))
  {
    ClaimGrows(zs, z, i, n - 1);
    var pc, goal := Decrement(n, z, i, n - 1), Handed(s, t, zs, Place(z, i), n);
    assert s.threads[t := pc][t := Idle] == s.threads[t := Idle];
    AloneSelf(goal, t);
    AloneStep(Put(s, t, Store(Claim(zs, Place(z, i), n - 1), z, i + n - 1, 0), pc), t, goal, goal);
  }

  /** A swap of a page that is free succeeds. */
  lemma {:induction false} SwapFree(s: State, t: nat, zs: seq<Zone>, n: nat, z: nat, i: nat, j: nat, goal: State)
    requires t < |s.threads| && z < |zs| && i + j < |zs[z].bytes| && zs[z].bytes[i + j] == 1
    requires Alone(Put(s, t, Store(Claim(zs, Place(z, i), j), z, i + j, 0), Decrement(n, z, i, j)), t, goal)
    ensures Alone(Put(s, t, Claim(zs, Place(z, i), j), Swap(n, z, i, j)), t, goal)
  {
    var now := Claim(zs, Place(z, i), j);
    assert now[z].bytes[i + j] == zs[z].bytes[i + j];
    PutStep(s, t, now, Swap(n, z, i, j), Store(now, z, i + j, 0), Decrement(n, z, i, j), goal);
  }

  /** A swap of a page that is not free fails, and everything is rolled back. */
  lemma {:induction false} SwapTaken(s: State, t: nat, zs: seq<Zone>, n: nat, z: nat, i: nat, j: nat, goal: State)
    requires t < |s.threads| && z < |zs| && i + j < |zs[z].bytes| && zs[z].bytes[i + j] != 1
    requires forall h | i <= h < i + j :: zs[z].bytes[h] == 1
    requires Alone(Put(s, t, zs, Scan(n, z, i + 1)), t, goal)
    ensures Alone(Put(s, t, Claim(zs, Place(z, i), j), Swap(n, z, i, j)), t, goal)
  {
    var now := Claim(zs, Place(z, i), j);
    assert now[z].bytes[i + j] == zs[z].bytes[i + j];
    FromUndo(s, t, zs, n, z, i, j, 0, goal);
    PutStep(s, t, now, Swap(n, z, i, j), now, Undo(n, z, i, j, 0), goal);
  }

  /** The counter follows the swap, and the next page is tried. */
  lemma {:induction false} CountThenSwap(s: State, t: nat, zs: seq<Zone>, n: nat, z: nat, i: nat, j: nat, goal: State)
    requires t < |s.threads| && z < |zs| && i + j < |zs[z].bytes| && j + 1 < n
    requires Alone(Put(s, t, Claim(zs, Place(z, i), j + 1), Swap(n, z, i, j + 1)), t, goal)
    ensures Alone(Put(s, t, Store(Claim(zs, Place(z, i), j), z, i + j, 0), Decrement(n, z, i, j)), t, goal)
  {
    ClaimGrows(zs, z, i, j);
    PutStep(s, t, Store(Claim(zs, Place(z, i), j), z, i + j, 0), Decrement(n, z, i, j),
            Claim(zs, Place(z, i), j + 1), Swap(n, z, i, j + 1), goal);
  }

  /** The swaps from page i on: the whole run is handed out, or the search goes on at the next page with
      nothing changed. */
  lemma {:induction false} FromSwap(s: State, t: nat, zs: seq<Zone>, n: nat, z: nat, i: nat, j: nat, goal: State)
    requires t < |s.threads| && z < |zs| && zs[z].HasStopByte() && j < n && i + j <= zs[z].pageCount
    requires forall h | i <= h < i + j :: zs[z].bytes[h] == 1
    requires RunAt(zs[z].bytes, i, n) ==> i + n <= |zs[z].bytes| && goal == Handed(s, t, zs, Place(z, i), n)
    requires !RunAt(zs[z].bytes, i, n) ==> Alone(Put(s, t, zs, Scan(n, z, i + 1)), t, goal)
    ensures Alone(Put(s, t, Claim(zs, Place(z, i), j), Swap(n, z, i, j)), t, goal)
    decreases n - j
  {
    if zs[z].bytes[i + j] != 1 {
      SwapTaken(s, t, zs, n, z, i, j, goal);
    } else {
      if j + 1 < n {
        FromSwap(s, t, zs, n, z, i, j + 1, goal);
        CountThenSwap(s, t, zs, n, z, i, j, goal);
      } else {
        HandOut(s, t, zs, n, z, i);
      }
      SwapFree(s, t, zs, n, z, i, j, goal);
    }
  }

  /** The state a call leaves: the run found is handed out, or nothing changed. */
  function Settled(s: State, t: nat, zs: seq<Zone>, r: Option<Place>, n: nat): State
    requires t < |s.threads|
    requires r.Some? ==> r.value.zone < |zs| && r.value.index + n <= |zs[r.value.zone].bytes|
  {
    if r.Some? then Handed(s, t, zs, r.value, n) else Put(s, t, zs, Idle)
  }

  /** The scan of a zone from page i on. */
  lemma {:induction false} FromScan(s: State, t: nat, zs: seq<Zone>, n: nat, z: nat, i: nat, goal: State)
    requires t < |s.threads| && z < |zs| && zs[z].HasStopByte() && i <= zs[z].pageCount
    requires var r := FitInZone(zs[z], i, n);
      if r.Some? then goal == Handed(s, t, zs, Place(z, r.value), n)
      else Alone(Put(s, t, zs, Enter(n, z + 1)), t, goal)
    ensures Alone(Put(s, t, zs, Scan(n, z, i)), t, goal)
    decreases zs[z].pageCount - i
  {
    if i == zs[z].pageCount {
      PutStep(s, t, zs, Scan(n, z, i), zs, Enter(n, z + 1), goal);
    } else {
      if !RunAt(zs[z].bytes, i, n) { FromScan(s, t, zs, n, z, i + 1, goal); }
      if IsOne(zs, z, i) && n > 0 {
        ClaimNothing(zs, z, i);
        FromSwap(s, t, zs, n, z, i, 0, goal);
        PutStep(s, t, zs, Scan(n, z, i), zs, Swap(n, z, i, 0), goal);
      } else {
        PutStep(s, t, zs, Scan(n, z, i), zs, Scan(n, z, i + 1), goal);
      }
    }
  }

  /** The search from zone z on. */
  lemma {:induction false} FromEnter(s: State, t: nat, zs: seq<Zone>, n: nat, z: nat)
    requires t < |s.threads| && z <= |zs| && Stopped(zs)
    ensures Alone(Put(s, t, zs, Enter(n, z)), t, Settled(s, t, zs, FirstFit(zs, z, n), n))
    decreases |zs| - z
  {
    var goal := Settled(s, t, zs, FirstFit(zs, z, n), n);
    if z == |zs| {
      AloneSelf(goal, t);
      PutStep(s, t, zs, Enter(n, z), zs, Idle, goal);
    } else {
      FromEnter(s, t, zs, n, z + 1);
      if zs[z].kind != Usable || zs[z].freePageCount == 0 {
        PutStep(s, t, zs, Enter(n, z), zs, Enter(n, z + 1), goal);
      } else {
        FromScan(s, t, zs, n, z, 0, goal);
        PutStep(s, t, zs, Enter(n, z), zs, Scan(n, z, 0), goal);
      }
    }
  }

  /** An allocation that runs alone terminates, leaves the zones AllocPages leaves, and hands out the first
      fit. */
  lemma {:induction false} AllocAlone(s: State, t: nat, n: nat)
    requires Enabled(s, t, CallAlloc(n)) && Stopped(s.zones)
    ensures Alone(Do(s, t, CallAlloc(n)), t, Settled(s, t, s.zones, FirstFit(s.zones, 0, n), n))
    ensures Settled(s, t, s.zones, FirstFit(s.zones, 0, n), n).zones == AllocPages(s.zones, n).zones
  {
    FromEnter(s, t, s.zones, n, 0);
    assert Do(s, t, CallAlloc(n)) == Put(s, t, s.zones, Enter(n, 0));
  }

  // ---------------------------------------------------------------- free

  lemma {:induction false} FromFree(s: State, t: nat, zs: seq<Zone>, n: nat, z: nat, i: nat, k: nat)
    requires t < |s.threads| && z < |zs| && k <= n && i + n <= |zs[z].bytes|
    ensures Alone(Put(s, t, Release(zs, Place(z, i), k), Free(n, z, i, k)), t,
                  Put(s, t, Release(zs, Place(z, i), n), Idle))
    decreases n - k
  {
    var now, goal := Release(zs, Place(z, i), k), Put(s, t, Release(zs, Place(z, i), n), Idle);
    if k == n {
      AloneSelf(goal, t);
      PutStep(s, t, now, Free(n, z, i, k), now, Idle, goal);
    } else {
      FromFree(s, t, zs, n, z, i, k + 1);
      ReleaseGrows(zs, z, i, k);
      var stored := Store(now, z, i + k, 1);
      PutStep(s, t, stored, FreeCount(n, z, i, k), Release(zs, Place(z, i), k + 1), Free(n, z, i, k + 1), goal);
      PutStep(s, t, now, Free(n, z, i, k), stored, FreeCount(n, z, i, k), goal);
    }
  }

  /** A free by an owner that runs alone terminates and leaves the zones FreePages leaves. */
  lemma {:induction false} FreeAlone(boot: seq<Zone>, s: State, t: nat, p: Place, n: nat)
    requires Inv(boot, s) && OwnedInside(boot, s) && Enabled(s, t, CallFree(p, n))
    ensures FreeInBounds(s.zones, AddressOf(s.zones, p), n)
    ensures Alone(Do(s, t, CallFree(p, n)), t,
                  State(FreePages(s.zones, AddressOf(s.zones, p), n), s.threads[t := Idle], s.owned - Run(p, n)))
  {
    FreeIsRouted(boot, s, p, n);
    StopByteStays(boot, s, p.zone);
    var after := s.(owned := s.owned - Run(p, n));
    ReleaseNothing(s.zones, p);
    FromFree(after, t, s.zones, n, p.zone, p.index, 0);
    assert Do(s, t, CallFree(p, n)) == Put(after, t, s.zones, Free(n, p.zone, p.index, 0));
  }
}
