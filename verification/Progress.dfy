/**
 Single calls among others: every call ends after a bounded number of its own steps, whatever the other
 threads do, and what it means when an allocation comes back empty-handed.
 */
module Progress {
  import opened Basics
  import opened PageMaps
  import opened Ownership
  import opened Protocol

  // ---------------------------------------------------------------- wait-freedom

  function Left(a: nat, b: nat): nat { if a < b then b - a else 0 }

  /** Own steps spent on one page: at worst n swaps and decrements and as many steps back. */
  function PageCost(n: nat): nat { 4 * n + 3 }

  /** Own steps of an allocation of n pages from zone z on. */
  function EnterCost(zs: seq<Zone>, n: nat, z: nat): nat
    decreases Left(z, |zs|)
  {
    if z >= |zs| then 1 else 2 + zs[z].pageCount * PageCost(n) + EnterCost(zs, n, z + 1)
  }

  function ScanCost(zs: seq<Zone>, n: nat, z: nat, i: nat): nat {
    1 + EnterCost(zs, n, z + 1) + if z < |zs| then Left(i, zs[z].pageCount) * PageCost(n) else 0
  }

  /** A bound on the own steps a call still takes. */
  function Rank(zs: seq<Zone>, pc: Pc): nat {
    match pc
    case Idle => 0
    case Enter(n, z) => EnterCost(zs, n, z)
    case Scan(n, z, i) => ScanCost(zs, n, z, i)
    case Swap(n, z, i, j) => ScanCost(zs, n, z, i + 1) + 2 * Left(j, n) + 2 * n + 2
    case Decrement(n, z, i, j) => ScanCost(zs, n, z, i + 1) + 2 * Left(j, n) + 2 * n + 1
    case Undo(n, z, i, j, k) => ScanCost(zs, n, z, i + 1) + 2 * Left(k, j) + 1
    case UndoCount(n, z, i, j, k) => ScanCost(zs, n, z, i + 1) + 2 * Left(k, j)
    case Free(n, _, _, k) => 2 * Left(k, n) + 1
    case FreeCount(n, _, _, k) => 2 * Left(k, n)
  }

  lemma {:induction false} NextPage(zs: seq<Zone>, n: nat, z: nat, i: nat)
    requires z < |zs| && i < zs[z].pageCount
    ensures ScanCost(zs, n, z, i) == ScanCost(zs, n, z, i + 1) + PageCost(n)
  {
    assert Left(i, zs[z].pageCount) == Left(i + 1, zs[z].pageCount) + 1;
  }

  /** Every step brings the call closer to its end, whatever the maps and counters are. */
  lemma {:induction false} RankFalls(boot: seq<Zone>, zs: seq<Zone>, pc: Pc)
    requires SameShape(boot, zs) && PcInMap(zs, pc) && !pc.Idle?
    ensures Rank(boot, Control(zs, pc)) < Rank(boot, pc)
  {
    match pc
    case Enter(n, z) => if z < |zs| { assert boot[z].SameShape(zs[z]); }
    case Scan(n, z, i) =>
      if z < |zs| {
        assert boot[z].SameShape(zs[z]);
        if i < zs[z].pageCount { NextPage(boot, n, z, i); }
      }
    case _ =>
  }

  /** How many of the run's steps are the thread's. */
  function OwnSteps(run: seq<Step>, t: nat): nat
    decreases run
  {
    if run == [] then 0 else OwnSteps(run[1..], t) + if run[0].thread == t then 1 else 0
  }

  /** The thread takes no new call in the run. */
  predicate NoCalls(run: seq<Step>, t: nat) {
    forall r | 0 <= r < |run| && run[r].thread == t :: run[r].action == Advance
  }

  /** Wait-freedom: in any legal run the thread's steps are paid for by what its call still owed at the start;
      when as many have been taken, the call is over. */
  lemma {:induction false} WaitFree(boot: seq<Zone>, s: State, t: nat, run: seq<Step>)
    requires Inv(boot, s) && OwnedInside(boot, s) && t < |s.threads| && Legal(s, run) && NoCalls(run, t)
    ensures t < |Exec(s, run).threads|
    ensures OwnSteps(run, t) + Rank(boot, Exec(s, run).threads[t]) <= Rank(boot, s.threads[t])
    decreases run
  {
    if run != [] {
      var u, a := run[0].thread, run[0].action;
      var next, rest := Do(s, u, a), run[1..];
      StepKeepsInv(boot, s, u, a);
      if u == t {
        assert run[0].action == Advance;
        assert PcInMap(s.zones, s.threads[t]);
        RankFalls(boot, s.zones, s.threads[t]);
      }
      assert forall r | 0 <= r < |rest| :: rest[r] == run[r + 1];
      WaitFree(boot, next, t, rest);
    }
  }

  /** No call takes more than this many own steps: 1, 2 for each zone, and 4 n + 3 for each page. */
  lemma {:induction false} EnterCostClosedForm(zs: seq<Zone>, n: nat, z: nat)
    requires z <= |zs|
    ensures EnterCost(zs, n, z) == 1 + 2 * (|zs| - z) + PagesFrom(zs, z) * (4 * n + 3)
    decreases |zs| - z
  {
    if z < |zs| {
      EnterCostClosedForm(zs, n, z + 1);
      Distribute(zs[z].pageCount, PagesFrom(zs, z + 1), 4 * n + 3);
    }
  }

  lemma Distribute(a: nat, b: nat, c: nat)
    ensures (a + b) * c == a * c + b * c
  {
  }

  function PagesFrom(zs: seq<Zone>, z: nat): nat
    requires z <= |zs|
    decreases |zs| - z
  {
    if z == |zs| then 0 else zs[z].pageCount + PagesFrom(zs, z + 1)
  }

  // ---------------------------------------------------------------- what NULL means

  /** The condition holds in some state the run goes through, the first and the last included. */
  predicate Sometime(s: State, run: seq<Step>, holds: State -> bool)
    requires Legal(s, run)
    decreases run
  {
    holds(s) || (run != [] && Sometime(Do(s, run[0].thread, run[0].action), run[1..], holds))
  }

  /** Thread t is about to test zone z's counter, and it reads 0. */
  function ReadsZero(t: nat, n: nat, z: nat): State -> bool {
    (s: State) => t < |s.threads| && s.threads[t] == Enter(n, z) && z < |s.zones| && s.zones[z].freePageCount == 0
  }

  /** Some page of the run of n pages at (z, i) is not marked free. */
  function Broken(z: nat, i: nat, n: nat): State -> bool {
    (s: State) => exists k | i <= k < i + n :: !IsOne(s.zones, z, k)
  }

  /** The call has not yet dealt with page i of zone z. */
  predicate Ahead(pc: Pc, n: nat, z: nat, i: nat) {
    match pc
    case Enter(m, y) => m == n && y <= z
    case Scan(m, y, h) => m == n && (y < z || (y == z && h <= i))
    case Swap(m, y, h, _) => m == n && (y < z || (y == z && h <= i))
    case Decrement(m, y, h, _) => m == n && (y < z || (y == z && h <= i))
    case Undo(m, y, h, _, _) => m == n && (y < z || (y == z && h < i))
    case UndoCount(m, y, h, _, _) => m == n && (y < z || (y == z && h < i))
    case _ => false
  }

  /** The thread is handed nothing in the run. */
  predicate HandedNothing(s: State, run: seq<Step>, t: nat)
    requires Legal(s, run)
    decreases run
  {
    run == []
    || ((run[0].thread == t && run[0].action == Advance ==> Granted(s.threads[t]) == {})
        && HandedNothing(Do(s, run[0].thread, run[0].action), run[1..], t))
  }

  /** A step that passes a page by read 0 in the zone's counter or met a page of the run that is not free. */
  lemma {:induction false} PassedBy(boot: seq<Zone>, s: State, t: nat, n: nat, z: nat, i: nat)
    requires Inv(boot, s) && t < |s.threads| && Ahead(s.threads[t], n, z, i) && Granted(s.threads[t]) == {}
    requires 0 < n && z < |boot| && boot[z].kind == Usable && i < boot[z].pageCount
    ensures Ahead(Control(s.zones, s.threads[t]), n, z, i) || ReadsZero(t, n, z)(s) || Broken(z, i, n)(s)
  {
    var pc := s.threads[t];
    assert PcInMap(s.zones, pc) && boot[z].SameShape(s.zones[z]);
    match pc
    case Scan(m, y, h) => assert y == z && h == i && !IsOne(s.zones, z, i) ==> Broken(z, i, n)(s);
    case Swap(m, y, h, j) => assert y == z && h == i && !IsOne(s.zones, z, i + j) ==> Broken(z, i, n)(s);
    case Decrement(m, y, h, j) => assert j + 1 >= n ==> Place(y, h) in Granted(pc);
    case _ =>
  }

  lemma {:induction false} PassedByInRun(boot: seq<Zone>, s: State, run: seq<Step>, t: nat, n: nat, z: nat, i: nat)
    requires Inv(boot, s) && OwnedInside(boot, s) && Legal(s, run) && t < |s.threads|
    requires NoCalls(run, t) && HandedNothing(s, run, t)
    requires 0 < n && z < |boot| && boot[z].kind == Usable && i < boot[z].pageCount && Ahead(s.threads[t], n, z, i)
    requires t < |Exec(s, run).threads| && Exec(s, run).threads[t].Idle?
    ensures Sometime(s, run, ReadsZero(t, n, z)) || Sometime(s, run, Broken(z, i, n))
    decreases run
  {
    var u, a := run[0].thread, run[0].action;
    var next, rest := Do(s, u, a), run[1..];
    StepKeepsInv(boot, s, u, a);
    if u == t { PassedBy(boot, s, t, n, z, i); }
    assert forall r | 0 <= r < |rest| :: rest[r] == run[r + 1];
    if u == t { assert a == Advance; }
    if Ahead(next.threads[t], n, z, i) { PassedByInRun(boot, next, rest, t, n, z, i); }
  }

  /** When an allocation comes back with NULL, then for every usable zone: its counter was 0 when the call tested
      it, or each run of n pages in it had a page that was not free at some time during the call. */
  lemma {:induction false} NullMeans(boot: seq<Zone>, s: State, run: seq<Step>, t: nat, n: nat, z: nat)
    requires Inv(boot, s) && OwnedInside(boot, s) && Legal(s, run) && t < |s.threads|
    requires s.threads[t] == Enter(n, 0) && 0 < n && NoCalls(run, t) && HandedNothing(s, run, t)
    requires t < |Exec(s, run).threads| && Exec(s, run).threads[t].Idle?
    requires z < |boot| && boot[z].kind == Usable
    ensures Sometime(s, run, ReadsZero(t, n, z))
         || forall i | 0 <= i < boot[z].pageCount :: Sometime(s, run, Broken(z, i, n))
  {
    if !Sometime(s, run, ReadsZero(t, n, z)) {
      forall i | 0 <= i < boot[z].pageCount ensures Sometime(s, run, Broken(z, i, n)) {
        PassedByInRun(boot, s, run, t, n, z, i);
      }
    }
  }

  lemma {:induction false} SomeoneOwes(ts: seq<Pc>, z: nat)
    requires Sum(ts, Owes(z)) > 0
    ensures exists t | 0 <= t < |ts| :: Debt(ts[t], z) == 1
  {
    var m := |ts| - 1;
    if Debt(ts[m], z) != 1 {
      SomeoneOwes(ts[..m], z);
      var t :| 0 <= t < m && Debt(ts[..m][t], z) == 1;
      assert Debt(ts[t], z) == 1;
    }
  }

  /** A counter that reads 0 although a page of the zone is marked free has a thread between its store and its
      increment: only then can an allocation miss a free page. */
  lemma {:induction false} ZeroMeansPending(boot: seq<Zone>, s: State, z: nat)
    requires Inv(boot, s) && z < |s.zones| && s.zones[z].freePageCount == 0
    requires exists k | 0 <= k < s.zones[z].pageCount :: IsOne(s.zones, z, k)
    ensures exists t | 0 <= t < |s.threads| :: Debt(s.threads[t], z) == 1
  {
    OnesPositive(s.zones[z].bytes, s.zones[z].pageCount);
    SomeoneOwes(s.threads, z);
  }
}
