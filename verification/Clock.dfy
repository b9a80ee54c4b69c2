/**
 The real-time clock interrupt: a counter that is meant to divide 1024 ticks into a second.
 */
module Clock {

  const FREQUENCY: nat := 1024

  /** The handler's statics and the system time, with exact fractions of a millisecond. */
  datatype Time = Time(inited: bool, count: nat, timestamp: int, milliseconds: real)

  function Milliseconds(count: nat): real { count as real / 1024.0 * 1000.0 }

  /** XEOS_IRQ_RealTimeClock.  `now` is the date read from the hardware. */
  function Tick(t: Time, now: int): Time {
    if !t.inited then Time(true, 0, now, 0.0)
    else if t.count == FREQUENCY then Time(true, 0, t.timestamp + 1, 0.0)
    else t.(count := t.count + 1, milliseconds := Milliseconds(t.count + 1))
  }

  /** n interrupts after the initializing one; the dates then read from the hardware do not matter. */
  function Ticks(t: Time, n: nat, dates: nat -> int): Time {
    if n == 0 then t else Tick(Ticks(t, n - 1, dates), dates(n - 1))
  }

  /** Dividing by 1025 one tick later. */
  lemma NextTick(n: nat)
    ensures n % 1025 == 1024 ==> (n + 1) % 1025 == 0 && (n + 1) / 1025 == n / 1025 + 1
    ensures n % 1025 != 1024 ==> (n + 1) % 1025 == n % 1025 + 1 && (n + 1) / 1025 == n / 1025
  {
  }

  lemma MillisecondsOfZero()
    ensures Milliseconds(0) == 0.0
  {
  }

  /** The milliseconds grow evenly with the counter, by 1000 in 1024 ticks. */
  lemma MillisecondsAreEven(a: nat, b: nat)
    ensures Milliseconds(a + b) == Milliseconds(a) + Milliseconds(b)
    ensures Milliseconds(FREQUENCY) == 1000.0 && FREQUENCY == 1024
    ensures Milliseconds(a) * 1024.0 == 1000.0 * a as real
  {
  }

  /** The time n interrupts after one that found the date t0. */
  function TimeAfter(t0: int, n: nat): Time {
    Time(true, n % 1025, t0 + n / 1025, Milliseconds(n % 1025))
  }

  /** A second lasts 1025 ticks. */
  lemma {:induction false} TicksClosedForm(t: Time, t0: int, n: nat, dates: nat -> int)
    requires !t.inited
    ensures Ticks(Tick(t, t0), n, dates) == TimeAfter(t0, n)
  {
    MillisecondsOfZero();
    if n > 0 {
      TicksClosedForm(t, t0, n - 1, dates);
      NextTick(n - 1);
    }
  }

  /** The reported time in units of 1/1024 second. */
  function Reported(t: Time): int { t.timestamp * FREQUENCY + t.count }

  /** The reported time lags a clock of 1024 ticks a second by one tick every 1025, and never goes back. */
  lemma {:induction false} ReportedLags(t: Time, t0: int, n: nat, dates: nat -> int)
    requires !t.inited
    ensures var start := Tick(t, t0);
      && Reported(Ticks(start, n, dates)) == Reported(start) + n - n / 1025
      && 0 <= Reported(Ticks(start, n + 1, dates)) - Reported(Ticks(start, n, dates)) <= 1
  {
    TicksClosedForm(t, t0, n, dates);
    TicksClosedForm(t, t0, n + 1, dates);
  }

  /** The reported time is right exactly during the first 1025 ticks. */
  lemma {:induction false} ExactIff(t: Time, t0: int, n: nat, dates: nat -> int)
    requires !t.inited
    ensures Reported(Ticks(Tick(t, t0), n, dates)) == Reported(Tick(t, t0)) + n <==> n <= FREQUENCY
  {
    ReportedLags(t, t0, n, dates);
  }

  class RealTimeClock {
    var count: nat
    var inited: bool
    var timestamp: int
    var milliseconds: real
    ghost var start: int    // the date the first interrupt found
    ghost var ticks: nat    // interrupts since then

    ghost function View(): Time
      reads this
    {
      Time(inited, count, timestamp, milliseconds)
    }

    ghost predicate Valid()
      reads this
    {
      inited ==> View() == TimeAfter(start, ticks)
    }

    constructor ()
      ensures Valid() && !inited
    {
      count, inited, timestamp, milliseconds, start, ticks := 0, false, 0, 0.0, 0, 0;
    }

    /** XEOS_IRQ_RealTimeClock: after any number of interrupts the time is the closed form. */
    method Interrupt(now: int)
      requires Valid()
      modifies this
      ensures Valid() && inited && View() == TimeAfter(start, ticks)
      ensures start == if old(inited) then old(start) else now
      ensures ticks == if old(inited) then old(ticks) + 1 else 0
      ensures milliseconds * 1024.0 == 1000.0 * (ticks % 1025) as real
      ensures View() == Tick(old(View()), now)
    {
      if !inited {
        count := 0;
        inited := true;
        milliseconds := 0.0;
        timestamp := now;
        start, ticks := now, 0;
        MillisecondsOfZero();
      } else {
        if count == FREQUENCY {
          count := 0;
          milliseconds := 0.0;
          timestamp := timestamp + 1;
        } else {
          count := count + 1;
          milliseconds := count as real / 1024.0 * 1000.0;
        }
        NextTick(ticks);
        MillisecondsOfZero();
        ticks := ticks + 1;
      }
      MillisecondsAreEven(ticks % 1025, 0);
    }
  }
}
