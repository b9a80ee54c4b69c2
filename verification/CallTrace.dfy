/**
 The kernel call trace: a fixed number of slots, the most recent call first, shifted on every
 function enter and exit.
 */
module CallTrace {

  /** A function and the place it was called from. */
  datatype Symbol = Symbol(callee: nat, callSite: nat)

  const NO_SYMBOL: Symbol := Symbol(0, 0)

  datatype Trace = Trace(symbols: seq<Symbol>, count: nat, inited: bool) {
    predicate Valid() { |symbols| > 0 && count <= |symbols| }

    /** Nothing is left behind in the unused slots. */
    predicate Clean() {
      Valid() && inited && forall i | count <= i < |symbols| :: symbols[i] == NO_SYMBOL
    }
  }

  function Min(a: int, b: int): int { if a < b then a else b }

  function Max(a: int, b: int): int { if a < b then b else a }

  function Empty(capacity: nat): (slots: seq<Symbol>)
    ensures |slots| == capacity && forall i | 0 <= i < capacity :: slots[i] == Symbol(0, 0)
  {
    seq(capacity, _ => NO_SYMBOL)
  }

  /** __cyg_profile_func_enter. */
  function Enter(t: Trace, f: Symbol): Trace
    requires t.Valid()
  {
    var slots := if t.inited then t.symbols else Empty(|t.symbols|);
    Trace([f] + slots[..|slots| - 1], if t.count < |slots| then t.count + 1 else t.count, true)
  }

  /** __cyg_profile_func_exit. */
  function Exit(t: Trace): Trace
    requires t.Valid()
  {
    if t.count == 0 || !t.inited then t
    else t.(symbols := t.symbols[1..] + [NO_SYMBOL], count := t.count - 1)
  }

  // ---------------------------------------------------------------- any trace

  datatype Event = Entered(symbol: Symbol) | Exited

  function Step(t: Trace, e: Event): (r: Trace)
    requires t.Valid()
    ensures r.Valid() && |r.symbols| == |t.symbols|
  {
    match e
    case Entered(f) => Enter(t, f)
    case Exited => Exit(t)
  }

  function Run(t: Trace, es: seq<Event>): (r: Trace)
    requires t.Valid()
    ensures r.Valid() && |r.symbols| == |t.symbols|
    decreases es
  {
    if es == [] then t else Run(Step(t, es[0]), es[1..])
  }

  /** The call stack without a bound, most recent call first.  Leaving a function that was entered
      before tracing began changes nothing. */
  function Stack(stack: seq<Symbol>, es: seq<Event>): seq<Symbol>
    decreases es
  {
    if es == [] then stack else Stack(StackStep(stack, es[0]), es[1..])
  }

  function StackStep(stack: seq<Symbol>, e: Event): seq<Symbol> {
    match e
    case Entered(f) => [f] + stack
    case Exited => if stack == [] then [] else stack[1..]
  }

  /** The used slots are the top of the stack, and the others are empty once tracing has begun. */
  predicate ShowsTop(t: Trace, stack: seq<Symbol>) {
    && t.Valid() && t.count <= |stack| && t.symbols[..t.count] == stack[..t.count]
    && (if t.inited then t.Clean() else t.count == 0)
  }

  lemma StepShowsTop(t: Trace, stack: seq<Symbol>, e: Event)
    requires ShowsTop(t, stack)
    ensures ShowsTop(Step(t, e), StackStep(stack, e))
  {
    var t', stack' := Step(t, e), StackStep(stack, e);
    forall i | 0 <= i < t'.count ensures t'.symbols[i] == stack'[i] {
      if e.Entered? && i > 0 {
        assert t.symbols[..t.count][i - 1] == stack[..t.count][i - 1];
      } else if e.Exited? && t.count > 0 {
        assert t.symbols[..t.count][i + 1] == stack[..t.count][i + 1];
      }
    }
  }

  /** On every trace the used slots are the most recent calls of the true stack. */
  lemma {:induction false} RunShowsTop(t: Trace, stack: seq<Symbol>, es: seq<Event>)
    requires ShowsTop(t, stack)
    ensures ShowsTop(Run(t, es), Stack(stack, es))
    decreases es
  {
    if es != [] {
      StepShowsTop(t, stack, es[0]);
      RunShowsTop(Step(t, es[0]), StackStep(stack, es[0]), es[1..]);
    }
  }

  /** The stack never gets deeper than the trace can hold. */
  predicate NeverTooDeep(stack: seq<Symbol>, es: seq<Event>, capacity: nat)
    decreases es
  {
    |stack| <= capacity && (es == [] || NeverTooDeep(StackStep(stack, es[0]), es[1..], capacity))
  }

  /** At every point of the run the count is the true depth. */
  predicate AlwaysExact(t: Trace, stack: seq<Symbol>, es: seq<Event>)
    requires t.Valid()
    decreases es
  {
    t.count == |stack| && (es == [] || AlwaysExact(Step(t, es[0]), StackStep(stack, es[0]), es[1..]))
  }

  /** The count is the true depth all along exactly when the depth never exceeds the capacity. */
  lemma {:induction false} ExactIffNeverTooDeep(t: Trace, stack: seq<Symbol>, es: seq<Event>)
    requires ShowsTop(t, stack) && t.count == |stack|
    ensures AlwaysExact(t, stack, es) <==> NeverTooDeep(stack, es, |t.symbols|)
    decreases es
  {
    if es != [] {
      var t', stack' := Step(t, es[0]), StackStep(stack, es[0]);
      StepShowsTop(t, stack, es[0]);
      if t'.count == |stack'| {
        ExactIffNeverTooDeep(t', stack', es[1..]);
      } else {
        assert |stack'| == |t.symbols| + 1;
      }
    }
  }

  // ---------------------------------------------------------------- well-bracketed runs

  /** Calls that return: a call of f around inner calls, followed by the rest. */
  datatype Calls = Done | Call(f: Symbol, inner: Calls, rest: Calls)

  function Events(c: Calls): seq<Event> {
    match c
    case Done => []
    case Call(f, inner, rest) => [Entered(f)] + Events(inner) + [Exited] + Events(rest)
  }

  /** How deep the calls nest. */
  function Depth(c: Calls): nat {
    match c
    case Done => 0
    case Call(_, inner, rest) => Max(Depth(inner) + 1, Depth(rest))
  }

  /** The first symbols that survive calls of depth d. */
  function Kept(t: Trace, d: nat): nat
    requires t.Valid()
  {
    Min(t.count, Max(0, |t.symbols| - d))
  }

  /** The trace cut down to its first n symbols. */
  function Cut(t: Trace, n: nat): Trace
    requires t.Valid() && n <= t.count
  {
    Trace(t.symbols[..n] + Empty(|t.symbols| - n), n, t.inited)
  }

  lemma {:induction false} RunConcat(t: Trace, a: seq<Event>, b: seq<Event>)
    requires t.Valid()
    ensures Run(t, a + b) == Run(Run(t, a), b)
    decreases a
  {
    if a == [] {
      assert a + b == b;
    } else {
      RunConcat(Step(t, a[0]), a[1..], b);
      assert (a + b)[1..] == a[1..] + b;
    }
  }

  lemma {:induction false} RunCall(t: Trace, f: Symbol, inner: Calls, rest: Calls)
    requires t.Valid()
    ensures Run(t, Events(Call(f, inner, rest))) == Run(Exit(Run(Enter(t, f), Events(inner))), Events(rest))
  {
    var a, b := [Entered(f)] + Events(inner), [Exited] + Events(rest);
    assert Events(Call(f, inner, rest)) == a + b;
    RunConcat(t, a, b);
    assert a[1..] == Events(inner) && b[1..] == Events(rest);
  }

  /** A call around calls of depth d: entering, cutting and leaving. */
  lemma AroundCut(t: Trace, f: Symbol, d: nat)
    requires t.Clean()
    ensures Exit(Cut(Enter(t, f), Kept(Enter(t, f), d))) == Cut(t, Kept(t, d + 1))
  {
    var a, b := Exit(Cut(Enter(t, f), Kept(Enter(t, f), d))), Cut(t, Kept(t, d + 1));
    assert a.symbols == b.symbols;
  }

  /** Cuts by calls of depth d and then of depth e are one cut by the greater depth. */
  lemma CutTwice(t: Trace, d: nat, e: nat)
    requires t.Clean()
    ensures var u := Cut(t, Kept(t, d)); u.Clean() && Cut(u, Kept(u, e)) == Cut(t, Kept(t, Max(d, e)))
  {
    var u := Cut(t, Kept(t, d));
    assert Cut(u, Kept(u, e)).symbols == Cut(t, Kept(t, Max(d, e))).symbols;
  }

  lemma CutNothing(t: Trace)
    requires t.Clean()
    ensures Cut(t, t.count) == t
  {
    assert Cut(t, t.count).symbols == t.symbols;
  }

  lemma {:induction false} CallThenRest(t: Trace, f: Symbol, inner: Calls, rest: Calls)
    requires t.Clean()
    requires Run(Enter(t, f), Events(inner)) == Cut(Enter(t, f), Kept(Enter(t, f), Depth(inner)))
    ensures Run(t, Events(Call(f, inner, rest))) == Run(Cut(t, Kept(t, Depth(inner) + 1)), Events(rest))
  {
    RunCall(t, f, inner, rest);
    AroundCut(t, f, Depth(inner));
  }

  /** After calls of depth D the trace holds its first min(count, max(0, capacity - D)) symbols, as they
      were, and nothing else. */
  lemma {:induction false} CallsKeepTop(t: Trace, c: Calls)
    requires t.Clean()
    ensures Run(t, Events(c)) == Cut(t, Kept(t, Depth(c)))
    decreases c
  {
    match c
    case Done => CutNothing(t);
    case Call(f, inner, rest) =>
      CallsKeepTop(Enter(t, f), inner);
      CallThenRest(t, f, inner, rest);
      CutTwice(t, Depth(inner) + 1, Depth(rest));
      CallsKeepTop(Cut(t, Kept(t, Depth(inner) + 1)), rest);
  }

  /** Calls leave the trace exactly as it was if and only if count + D <= capacity, or there was nothing
      to lose. */
  lemma {:induction false} RestoredIff(t: Trace, c: Calls)
    requires t.Clean()
    ensures Run(t, Events(c)) == t <==> t.count == 0 || t.count + Depth(c) <= |t.symbols|
  {
    CallsKeepTop(t, c);
    CutNothing(t);
  }

  /** The first traced call starts from an empty trace, whatever the slots hold. */
  lemma FirstEnter(t: Trace, f: Symbol)
    requires t.Valid() && !t.inited && t.count == 0
    ensures var e := Trace(Empty(|t.symbols|), 0, true); e.Clean() && Enter(t, f) == Enter(e, f)
  {
  }
}
