/**
 The text console as the kernel runs it: the text memory is updated in place.  Every method is
 proved against its function on screens in Console.
 */
module TextMemory {
  import opened Basics
  import opened Console

  class TextConsole {
    const memory: array<Byte>
    var x: nat
    var y: nat
    var attribute: Byte
    var sticky: nat

    ghost predicate Valid()
      reads this
    {
      memory.Length == TEXT_MEMORY && sticky < ROWS
    }

    ghost function View(): Screen
      reads this, memory
    {
      Screen(memory[..], x, y, attribute, sticky)
    }

    constructor (attribute: Byte)
      ensures Valid() && fresh(memory) && View() == Screen(memory[..], 0, 0, attribute, 0)
    {
      memory := new Byte[TEXT_MEMORY](_ => 0);
      x, y, this.attribute, sticky := 0, 0, attribute, 0;
    }

    /** Store a blank in every cell from byte lo up to byte hi. */
    method FillCells(lo: nat, hi: nat)
      requires lo % 2 == 0 && hi % 2 == 0 && lo <= hi <= memory.Length
      modifies memory
      ensures memory[..] == Blanked(old(memory[..]), lo, hi, attribute)
    {
      var i := lo;
      while i < hi
        invariant i % 2 == 0 && lo <= i <= hi
        invariant forall p | 0 <= p < memory.Length ::
          memory[p] == if lo <= p < i then Blank(p, attribute) else old(memory[p])
      {
        memory[i], memory[i + 1] := SPACE, attribute;
        i := i + 2;
      }
    }

    /** The first loop of XEOS_Video_Scroll: move ROWS - n rows up by n, in place and upwards. */
    method MoveRows(n: nat)
      requires Valid() && n < ROWS
      modifies memory
      ensures var lo := sticky * COLS * 2; var mid := lo + COLS * (ROWS - n) * 2;
        forall p | 0 <= p < memory.Length ::
          memory[p] == if lo <= p < mid then old(memory[p + COLS * 2 * n]) else old(memory[p])
    {
      var lo := sticky * COLS * 2;
      var i := 0;
      while i < COLS * (ROWS - n) * 2
        invariant 0 <= i <= COLS * (ROWS - n) * 2
        invariant forall p | 0 <= p < memory.Length ::
          memory[p] == if lo <= p < lo + i then old(memory[p + COLS * 2 * n]) else old(memory[p])
      {
        memory[lo + i] := memory[lo + i + COLS * 2 * n];
        i := i + 1;
      }
    }

    /** XEOS_Video_Clear. */
    method Clear()
      requires Valid()
      modifies this`x, this`y, memory
      ensures Valid() && View() == Console.Clear(old(View()))
    {
      FillCells(0, COLS * ROWS * 2);
      if x != 0 || y != 0 {
        var high, low := MoveCursor(0, 0);
      }
    }

    /** XEOS_Video_Scroll. */
    method Scroll(n: nat)
      requires Valid()
      modifies this`x, this`y, memory
      ensures Valid() && View() == Console.Scroll(old(View()), n)
    {
      if n >= ROWS {
        if sticky == 0 {
          Clear();
        } else {
          FillCells(sticky * COLS * 2, COLS * ROWS * 2);
          var high, low := MoveCursor(0, sticky);
        }
        return;
      }
      var mid := sticky * COLS * 2 + COLS * (ROWS - n) * 2;
      MoveRows(n);
      FillCells(mid, mid + COLS * 2 * n);
      assert memory[..] == Shifted(old(memory[..]), sticky, n, attribute);
    }

    /** XEOS_Video_MoveCursor: remembers the position as it is, and gives the two bytes for the
        hardware the index of a cell of the screen. */
    method MoveCursor(x: nat, y: nat) returns (high: Byte, low: Byte)
      modifies this`x, this`y
      ensures this.x == x && this.y == y
      ensures high * 0x100 + low == CursorCell(x, y)
      ensures (high * 0x100 + low) % 80 == (if x < 80 then x else 79)
      ensures (high * 0x100 + low) / 80 == (if y < 25 then y else 24)
    {
      this.x, this.y := x, y;
      var cx := if x < COLS - 1 then x else COLS - 1;
      var cy := if y < ROWS - 1 then y else ROWS - 1;
      var pos := cx + cy * COLS;
      high, low := pos / 0x100, pos % 0x100;
      assert pos == CursorCell(x, y);
      assert high * 0x100 + low == pos;
    }

    /** XEOS_Video_SetStickyLines.  Up to ROWS - 2 lines are from then on safe from everything printed from a
        cursor below them; a request for ROWS lines or more changes nothing. */
    method SetStickyLines(lines: nat)
      requires Valid()
      modifies this`sticky
      ensures Valid()
      ensures lines <= ROWS - 2 && View().CursorInPlace() && lines <= y ==>
        forall es :: SameRows(View().memory, Run(View(), es).memory, lines)
      ensures lines >= ROWS ==> View() == old(View())
      ensures lines < ROWS ==> View() == old(View()).(sticky := lines)
    {
      if lines < ROWS { sticky := lines; }
      if View().CursorInPlace() && sticky <= y { StickyForEveryTextIff(View()); }
    }

    /** The end of XEOS_Video_Putc: start a line, or write a character. */
    method Emit(c: Byte)
      requires Valid() && x <= COLS && y < 2 * ROWS
      modifies this`x, this`y, memory
      ensures Valid() && View() == Console.Emit(old(View()), c)
    {
      if c == NEWLINE {
        y := y + 1;
        x := 0;
      } else {
        var p := 2 * (x + y * COLS);
        memory[p] := c;
        memory[p + 1] := attribute;
        x := x + 1;
      }
    }

    /** XEOS_Video_Putc. */
    method Putc(c: Byte, updateCursor: bool)
      requires Valid() && View().CursorInPlace()
      modifies this`x, this`y, memory
      ensures Valid() && View() == Console.Putc(old(View()), c) && View().CursorInPlace()
    {
      StepKeepsCursor(View(), Put(c));
      if c == 0 { return; }
      if x == COLS {
        x := 0;
        y := y + 1;
      }
      if y == ROWS - 1 {
        Scroll(1);
        y := y - 1;
      }
      Emit(c);
      if updateCursor {
        var high, low := MoveCursor(x, y);
      }
    }

    /** XEOS_Video_Print. */
    method Print(s: seq<Byte>) returns (n: nat)
      requires Valid() && View().CursorInPlace() && 0 in s
      modifies this`x, this`y, memory
      ensures Valid() && n == FirstZero(s, 0)
      ensures View() == Run(old(View()), Puts(s[..n]))
    {
      n := 0;
      while s[n] != 0
        invariant n <= FirstZero(s, 0) < |s|
        invariant Valid() && View().CursorInPlace()
        invariant View() == Run(old(View()), Puts(s[..n]))
        decreases |s| - n
      {
        RunAppends(old(View()), Puts(s[..n]), Put(s[n]));
        assert Puts(s[..n + 1]) == Puts(s[..n]) + [Put(s[n])];
        Putc(s[n], false);
        n := n + 1;
      }
      var high, low := MoveCursor(x, y);
    }
  }
}
