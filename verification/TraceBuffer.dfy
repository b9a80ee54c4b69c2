/**
 The kernel call trace as the kernel runs it: an array shifted in place.  Both methods are proved
 against their functions on traces in CallTrace.
 */
module TraceBuffer {
  import opened CallTrace

  class KernelTrace {
    const symbols: array<Symbol>
    var count: nat
    var inited: bool

    ghost predicate Valid()
      reads this, symbols
    {
      View().Valid()
    }

    ghost function View(): Trace
      reads this, symbols
    {
      Trace(symbols[..], count, inited)
    }

    constructor (capacity: nat)
      requires capacity > 0
      ensures Valid() && fresh(symbols) && View() == Trace(Empty(capacity), 0, false)
    {
      symbols := new Symbol[capacity](_ => NO_SYMBOL);
      count, inited := 0, false;
    }

    /** The first loop of __cyg_profile_func_enter: forget what the slots hold. */
    method ClearSlots()
      modifies symbols
      ensures symbols[..] == Empty(symbols.Length)
    {
      for i := 0 to symbols.Length
        invariant forall k | 0 <= k < i :: symbols[k] == NO_SYMBOL
      {
        symbols[i] := NO_SYMBOL;
      }
    }

    /** The second loop of __cyg_profile_func_enter: make room in the first slot, from the last one down. */
    method ShiftDown()
      requires symbols.Length > 0
      modifies symbols
      ensures forall k | 0 < k < symbols.Length :: symbols[k] == old(symbols[k - 1])
    {
      var i := 1;
      while i < symbols.Length
        invariant 1 <= i <= symbols.Length
        invariant forall k | 0 <= k <= symbols.Length - i :: symbols[k] == old(symbols[k])
        invariant forall k | symbols.Length - i < k < symbols.Length :: symbols[k] == old(symbols[k - 1])
      {
        symbols[symbols.Length - i] := symbols[symbols.Length - 1 - i];
        i := i + 1;
      }
    }

    /** The loop of __cyg_profile_func_exit: move every symbol up one slot, from the first one on. */
    method ShiftUp()
      requires symbols.Length > 0
      modifies symbols
      ensures forall k | 0 <= k < symbols.Length - 1 :: symbols[k] == old(symbols[k + 1])
    {
      var i := 0;
      while i < symbols.Length - 1
        invariant 0 <= i <= symbols.Length - 1
        invariant forall k | 0 <= k < i :: symbols[k] == old(symbols[k + 1])
        invariant forall k | i <= k < symbols.Length :: symbols[k] == old(symbols[k])
      {
        symbols[i] := symbols[i + 1];
        i := i + 1;
      }
    }

    /** __cyg_profile_func_enter. */
    method Enter(f: Symbol)
      requires Valid()
      modifies this, symbols
      ensures Valid() && View() == CallTrace.Enter(old(View()), f)
    {
      if !inited {
        inited := true;
        ClearSlots();
      }
      ShiftDown();
      symbols[0] := f;
      if count < symbols.Length { count := count + 1; }
    }

    /** __cyg_profile_func_exit. */
    method Exit()
      requires Valid()
      modifies this, symbols
      ensures Valid() && View() == CallTrace.Exit(old(View()))
    {
      if count == 0 || !inited { return; }
      ShiftUp();
      symbols[symbols.Length - 1] := NO_SYMBOL;
      count := count - 1;
    }
  }
}
