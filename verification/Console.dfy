/**
 The text console.  A screen is the text memory and the cursor; the memory goes on past the 25
 visible rows, and scrolling with sticky lines uses that part.
 */
module Console {
  import opened Basics

  const COLS: nat := 80
  const ROWS: nat := 25

  /** Size of the text memory at XEOS_VIDEO_MEM. */
  const TEXT_MEMORY: nat := 0x8000

  const NEWLINE: Byte := 10
  const SPACE: Byte := 0x20

  datatype Cell = Cell(glyph: Byte, attribute: Byte)

  datatype Screen = Screen(memory: seq<Byte>, x: nat, y: nat, attribute: Byte, sticky: nat) {
    predicate Valid() { |memory| == TEXT_MEMORY && sticky < ROWS }

    /** Where printing may start: at most one past the last column, and on the last row inside it. */
    predicate CursorInPlace() { x <= COLS && y <= ROWS - 1 && (y == ROWS - 1 ==> x < COLS) }

    /** Where printing ends: on the last row only at its start. */
    predicate CursorSettled() { x <= COLS && y <= ROWS - 1 && (y == ROWS - 1 ==> x == 0) }
  }

  /** A cell of the text memory. */
  function CellAt(memory: seq<Byte>, row: nat, col: nat): Cell
    requires |memory| == TEXT_MEMORY && row < 2 * ROWS && col < COLS
  {
    var p := 2 * (col + row * COLS);
    Cell(memory[p], memory[p + 1])
  }

  // ---------------------------------------------------------------- the operations

  function Blank(p: nat, attribute: Byte): Byte { if p % 2 == 0 then SPACE else attribute }

  /** The memory with the bytes from lo up to hi blanked. */
  function Blanked(memory: seq<Byte>, lo: nat, hi: nat, attribute: Byte): (r: seq<Byte>)
    ensures |r| == |memory|
    ensures forall p | 0 <= p < |memory| :: r[p] == if lo <= p < hi then Blank(p, attribute) else memory[p]
  {
    seq(|memory|, p requires 0 <= p < |memory| => if lo <= p < hi then Blank(p, attribute) else memory[p])
  }

  /** ROWS rows from the sticky lines on move up by n rows; the n rows left over are blanked. */
  function Shifted(memory: seq<Byte>, sticky: nat, n: nat, attribute: Byte): (r: seq<Byte>)
    requires |memory| == TEXT_MEMORY && sticky < ROWS && n < ROWS
    ensures |r| == |memory|
    ensures forall p | 0 <= p < |memory| :: r[p] == ShiftedByte(memory, sticky, n, attribute, p)
  {
    seq(|memory|, p requires 0 <= p < |memory| => ShiftedByte(memory, sticky, n, attribute, p))
  }

  function ShiftedByte(memory: seq<Byte>, sticky: nat, n: nat, attribute: Byte, p: nat): Byte
    requires |memory| == TEXT_MEMORY && sticky < ROWS && n < ROWS && p < TEXT_MEMORY
  {
    var lo := sticky * COLS * 2;
    var mid := lo + COLS * (ROWS - n) * 2;
    if lo <= p < mid then memory[p + COLS * 2 * n]
    else if mid <= p < lo + COLS * ROWS * 2 then Blank(p, attribute)
    else memory[p]
  }

  /** XEOS_Video_Clear. */
  function Clear(s: Screen): Screen {
    s.(memory := Blanked(s.memory, 0, COLS * ROWS * 2, s.attribute), x := 0, y := 0)
  }

  /** XEOS_Video_Scroll. */
  function Scroll(s: Screen, n: nat): Screen
    requires s.Valid()
  {
    if n < ROWS then s.(memory := Shifted(s.memory, s.sticky, n, s.attribute))
    else if s.sticky == 0 then Clear(s)
    else s.(memory := Blanked(s.memory, s.sticky * COLS * 2, COLS * ROWS * 2, s.attribute), x := 0, y := s.sticky)
  }

  /** The deferred wrap of XEOS_Video_Putc. */
  function Wrap(s: Screen): Screen {
    if s.x == COLS then s.(x := 0, y := s.y + 1) else s
  }

  /** The scroll of XEOS_Video_Putc. */
  function MakeRoom(s: Screen): Screen
    requires s.Valid()
  {
    if s.y == ROWS - 1 then Scroll(s, 1).(y := s.y - 1) else s
  }

  /** Write a character where the cursor stands. */
  function Emit(s: Screen, c: Byte): Screen
    requires s.Valid() && s.x <= COLS && s.y < 2 * ROWS
  {
    if c == NEWLINE then s.(x := 0, y := s.y + 1)
    else
      var p := 2 * (s.x + s.y * COLS);
      s.(memory := s.memory[p := c][p + 1 := s.attribute], x := s.x + 1)
  }

  /** XEOS_Video_Putc. */
  function Putc(s: Screen, c: Byte): Screen
    requires s.Valid() && s.CursorInPlace()
  {
    if c == 0 then s else Emit(MakeRoom(Wrap(s)), c)
  }

  /** The cell the hardware cursor is put on: that of the position, moved onto the screen. */
  function CursorCell(x: nat, y: nat): (cell: nat)
    ensures cell % 80 == (if x < 80 then x else 79) && cell / 80 == (if y < 25 then y else 24)
  {
    (if x < COLS - 1 then x else COLS - 1) + (if y < ROWS - 1 then y else ROWS - 1) * COLS
  }

  // ---------------------------------------------------------------- clearing

  /** Blanking whole rows, seen on cells. */
  lemma BlankedCell(memory: seq<Byte>, from: nat, attribute: Byte, row: nat, col: nat)
    requires |memory| == TEXT_MEMORY && from <= ROWS && row < 2 * ROWS && col < COLS
    ensures CellAt(Blanked(memory, from * COLS * 2, COLS * ROWS * 2, attribute), row, col)
      == if from <= row < 25 then Cell(0x20, attribute) else CellAt(memory, row, col)
  {
  }

  /** Clearing leaves every row of the screen blank in the current colours and the cursor at the start; what is
      past the screen, the colours and the sticky lines stay. */
  lemma ClearedCell(s: Screen, row: nat, col: nat)
    requires s.Valid() && row < 2 * ROWS && col < COLS
    ensures Clear(s).Valid() && Clear(s).CursorSettled() && Clear(s).x == 0 && Clear(s).y == 0
    ensures Clear(s).attribute == s.attribute && Clear(s).sticky == s.sticky
    ensures CellAt(Clear(s).memory, row, col)
      == if row < 25 then Cell(0x20, s.attribute) else CellAt(s.memory, row, col)
  {
    BlankedCell(s.memory, 0, s.attribute, row, col);
  }

  /** Scrolling by a whole screen or more blanks the rows below the sticky lines and puts the cursor on the first
      of them; with no sticky lines it clears. */
  lemma ScrolledAwayCell(s: Screen, n: nat, row: nat, col: nat)
    requires s.Valid() && n >= 25 && row < 2 * ROWS && col < COLS
    ensures var r := Scroll(s, n);
      && r.Valid() && r.CursorSettled() && r.x == 0 && r.y == s.sticky
      && r.attribute == s.attribute && r.sticky == s.sticky
      && CellAt(r.memory, row, col)
           == if s.sticky <= row < 25 then Cell(0x20, s.attribute) else CellAt(s.memory, row, col)
  {
    BlankedCell(s.memory, s.sticky, s.attribute, row, col);
  }

  // ---------------------------------------------------------------- scrolling

  /** Scrolling seen on cells. */
  lemma ShiftedCell(memory: seq<Byte>, sticky: nat, n: nat, attribute: Byte, row: nat, col: nat)
    requires |memory| == TEXT_MEMORY && sticky < ROWS && n < ROWS && row < 2 * ROWS && col < COLS
    ensures CellAt(Shifted(memory, sticky, n, attribute), row, col)
      == if sticky <= row < sticky + ROWS - n then CellAt(memory, row + n, col)
         else if sticky + ROWS - n <= row < sticky + ROWS then Cell(SPACE, attribute)
         else CellAt(memory, row, col)
  {
  }

  lemma SameParity(p: nat, k: nat)
    ensures (p + 2 * k) % 2 == p % 2
  {
    assert p + 2 * k == 2 * (p / 2 + k) + p % 2;
  }

  lemma BlankAgain(p: nat, n: nat, attribute: Byte)
    ensures Blank(p + COLS * 2 * n, attribute) == Blank(p, attribute)
  {
    SameParity(p, COLS * n);
    assert p + COLS * 2 * n == p + 2 * (COLS * n);
  }

  /** Scrolling by a and then by b is scrolling by a + b, as long as a visible row is left. */
  lemma ScrollAdds(s: Screen, a: nat, b: nat)
    requires s.Valid() && a + b < ROWS
    ensures Scroll(Scroll(s, a), b) == Scroll(s, a + b)
  {
    var m := Shifted(s.memory, s.sticky, a, s.attribute);
    forall p | 0 <= p < |m|
      ensures ShiftedByte(m, s.sticky, b, s.attribute, p) == ShiftedByte(s.memory, s.sticky, a + b, s.attribute, p)
    {
      BlankAgain(p, b, s.attribute);
    }
    assert Shifted(m, s.sticky, b, s.attribute) == Shifted(s.memory, s.sticky, a + b, s.attribute);
  }

  // ---------------------------------------------------------------- events

  /** What a program does to the console: print a byte, or change the colours. */
  datatype Event = Put(c: Byte) | SetAttribute(attribute: Byte)

  function Step(s: Screen, e: Event): Screen
    requires s.Valid() && s.CursorInPlace()
  {
    match e
    case Put(c) => Putc(s, c)
    case SetAttribute(a) => s.(attribute := a)
  }

  /** Printing keeps the cursor in place, and settles it. */
  lemma StepKeepsCursor(s: Screen, e: Event)
    requires s.Valid() && s.CursorInPlace()
    ensures Step(s, e).Valid() && Step(s, e).CursorInPlace() && Step(s, e).sticky == s.sticky
    ensures s.CursorSettled() || (e.Put? && e.c != 0) ==> Step(s, e).CursorSettled()
  {
  }

  /** Among the positions up to one past the last column and up to the last row, the next character goes above
      the last row exactly when the cursor is in place: one past the end of the last row, the wrap takes it
      past the test for a scroll. */
  lemma WritesOnScreenIff(s: Screen)
    requires s.Valid() && s.x <= COLS && s.y <= ROWS - 1
    ensures MakeRoom(Wrap(s)).y <= ROWS - 2 <==> s.CursorInPlace()
    ensures !s.CursorInPlace() ==> MakeRoom(Wrap(s)).y == ROWS && MakeRoom(Wrap(s)).x == 0
  {
  }

  function Run(s: Screen, es: seq<Event>): (r: Screen)
    requires s.Valid() && s.CursorInPlace()
    ensures r.Valid() && r.CursorInPlace() && r.sticky == s.sticky
    ensures s.CursorSettled() ==> r.CursorSettled()
    decreases es
  {
    if es == [] then s
    else
      StepKeepsCursor(s, es[0]);
      Run(Step(s, es[0]), es[1..])
  }

  /** On a row above the last, character 10 goes to the start of the next row, and any other one but 0 one column on. */
  lemma PlainPutc(s: Screen, c: Byte)
    requires s.Valid() && s.x < COLS && s.y < ROWS - 1
    ensures Putc(s, 10) == s.(x := 0, y := s.y + 1) && Putc(s, 0) == s
    ensures c != 0 && c != 10 ==> var r, p := Putc(s, c), 2 * (s.x + 80 * s.y);
      r.x == s.x + 1 && r.y == s.y && r.memory[p] == c && r.memory[p + 1] == s.attribute
  {
  }

  /** A printed byte changes one cell at most, above the last row and inside the columns, besides the scroll. */
  lemma PutcWrites(s: Screen, c: Byte)
    requires s.Valid() && s.CursorInPlace()
    ensures var room := MakeRoom(Wrap(s));
      && room.x < COLS && room.y <= ROWS - 2
      && forall row, col | 0 <= row < 2 * ROWS && 0 <= col < COLS ::
           CellAt(Putc(s, c).memory, row, col) ==
             if c == 0 then CellAt(s.memory, row, col)
             else if c != NEWLINE && row == room.y && col == room.x then Cell(c, s.attribute)
             else CellAt(room.memory, row, col)
  {
  }

  // ---------------------------------------------------------------- sticky lines

  predicate SameRows(m: seq<Byte>, m': seq<Byte>, rows: nat)
    requires |m| == |m'| == TEXT_MEMORY && rows <= ROWS
  {
    forall p | 0 <= p < rows * COLS * 2 :: m[p] == m'[p]
  }

  /** Once the cursor is below the sticky lines they never change. */
  lemma {:induction false} StickyLinesStay(s: Screen, es: seq<Event>)
    requires s.Valid() && s.CursorInPlace() && s.sticky <= ROWS - 2 && s.sticky <= s.y
    ensures SameRows(s.memory, Run(s, es).memory, s.sticky) && s.sticky <= Run(s, es).y
    decreases es
  {
    if es != [] {
      StepKeepsCursor(s, es[0]);
      var s' := Step(s, es[0]);
      assert SameRows(s.memory, s'.memory, s.sticky);
      StickyLinesStay(s', es[1..]);
    }
  }

  /** With ROWS - 1 sticky lines a scroll brings the cursor back onto the last of them. */
  lemma LastStickyLineIsOverwritten(s: Screen) returns (e: Event)
    requires s.Valid() && s.CursorInPlace() && s.sticky == ROWS - 1 <= s.y
    ensures !SameRows(s.memory, Run(s, [e]).memory, s.sticky)
  {
    var p := 2 * (s.x + (ROWS - 2) * COLS);
    var c := if s.memory[p] == 65 then 66 else 65;
    e := Put(c);
    StepKeepsCursor(s, e);
    assert Run(s, [e]) == Run(Putc(s, c), []);
    assert Putc(s, c).memory[p] == c;
  }

  /** From a cursor below them, every text leaves the sticky lines alone exactly when there are at most
      ROWS - 2 of them. */
  lemma {:induction false} StickyForEveryTextIff(s: Screen)
    requires s.Valid() && s.CursorInPlace() && s.sticky <= s.y
    ensures (forall es :: SameRows(s.memory, Run(s, es).memory, s.sticky)) <==> s.sticky <= ROWS - 2
  {
    if s.sticky <= ROWS - 2 {
      forall es ensures SameRows(s.memory, Run(s, es).memory, s.sticky) { StickyLinesStay(s, es); }
    } else {
      var e := LastStickyLineIsOverwritten(s);
    }
  }

  // ---------------------------------------------------------------- the unbounded terminal

  /** A terminal that never scrolls: the cells written so far, on rows without end. */
  datatype Terminal = Terminal(written: map<(nat, nat), Cell>, x: nat, row: nat, attribute: Byte)

  function TerminalWrap(t: Terminal): Terminal {
    if t.x == COLS then t.(x := 0, row := t.row + 1) else t
  }

  function TerminalEmit(t: Terminal, c: Byte): Terminal {
    if c == NEWLINE then t.(x := 0, row := t.row + 1)
    else t.(written := t.written[(t.row, t.x) := Cell(c, t.attribute)], x := t.x + 1)
  }

  function TerminalStep(t: Terminal, e: Event): Terminal {
    match e
    case SetAttribute(a) => t.(attribute := a)
    case Put(c) => if c == 0 then t else TerminalEmit(TerminalWrap(t), c)
  }

  function TerminalRun(t: Terminal, es: seq<Event>): Terminal
    decreases es
  {
    if es == [] then t else TerminalRun(TerminalStep(t, es[0]), es[1..])
  }

  /** How often the event scrolls, and how often the events do. */
  function ScrollsOnce(s: Screen, e: Event): nat {
    if e.Put? && e.c != 0 && Wrap(s).y == ROWS - 1 then 1 else 0
  }

  function Scrolls(s: Screen, es: seq<Event>): nat
    requires s.Valid() && s.CursorInPlace()
    decreases es
  {
    if es == [] then 0
    else
      StepKeepsCursor(s, es[0]);
      ScrollsOnce(s, es[0]) + Scrolls(Step(s, es[0]), es[1..])
  }

  /** The terminal row shown in a memory row after `scrolls` scrolls: sticky lines stay. */
  function RowShown(row: nat, sticky: nat, scrolls: nat): nat {
    if row < sticky then row else row + scrolls
  }

  /** What a memory cell must hold: the terminal's cell if it was written, else the cell that was in
      memory at the start, else (from rows that never were in memory) a blank. */
  predicate Shown(start: seq<Byte>, s: Screen, t: Terminal, scrolls: nat, row: nat, col: nat)
    requires |start| == TEXT_MEMORY && s.Valid() && row < s.sticky + ROWS && col < COLS
  {
    var g, cell := RowShown(row, s.sticky, scrolls), CellAt(s.memory, row, col);
    if (g, col) in t.written then cell == t.written[(g, col)]
    else if g < s.sticky + ROWS then cell == CellAt(start, g, col)
    else cell.glyph == SPACE
  }

  /** The screen is a window over the terminal, `scrolls` rows further down below the sticky lines. */
  ghost predicate Window(start: seq<Byte>, s: Screen, t: Terminal, scrolls: nat) {
    && |start| == TEXT_MEMORY && s.Valid() && s.CursorInPlace()
    && s.x == t.x && s.y + scrolls == t.row && s.attribute == t.attribute
    && forall row, col | 0 <= row < s.sticky + ROWS && 0 <= col < COLS :: Shown(start, s, t, scrolls, row, col)
  }

  /** A window that goes on being one: nothing is written below the cursor, and after a scroll the
      cursor is below the sticky lines. */
  ghost predicate Tracks(start: seq<Byte>, s: Screen, t: Terminal, scrolls: nat) {
    Window(start, s, t, scrolls) && (scrolls > 0 ==> s.sticky <= s.y) && forall k | k in t.written :: k.0 <= t.row
  }

  lemma ScrolledCellShown(start: seq<Byte>, s: Screen, t: Terminal, scrolls: nat, row: nat, col: nat)
    requires Tracks(start, s, t, scrolls) && s.sticky <= ROWS - 2 && s.y == ROWS - 1
    requires row < s.sticky + ROWS && col < COLS
    ensures Shown(start, MakeRoom(s), t, scrolls + 1, row, col)
  {
    ShiftedCell(s.memory, s.sticky, 1, s.attribute, row, col);
    if row != s.sticky + ROWS - 1 {
      assert Shown(start, s, t, scrolls, if row < s.sticky then row else row + 1, col);
    }
  }

  lemma MakeRoomKeepsTracks(start: seq<Byte>, s: Screen, t: Terminal, scrolls: nat)
    requires Tracks(start, s, t, scrolls) && s.sticky <= ROWS - 2
    ensures Tracks(start, MakeRoom(s), t, if s.y == ROWS - 1 then scrolls + 1 else scrolls)
  {
    if s.y == ROWS - 1 {
      var s', k := MakeRoom(s), scrolls + 1;
      forall row, col | 0 <= row < s.sticky + ROWS && 0 <= col < COLS
        ensures Shown(start, s', t, k, row, col)
      {
        ScrolledCellShown(start, s, t, scrolls, row, col);
      }
    }
  }

  lemma WrapKeepsTracks(start: seq<Byte>, s: Screen, t: Terminal, scrolls: nat)
    requires Tracks(start, s, t, scrolls)
    ensures Tracks(start, Wrap(s), TerminalWrap(t), scrolls)
  {
    var s', t' := Wrap(s), TerminalWrap(t);
    forall row, col | 0 <= row < s.sticky + ROWS && 0 <= col < COLS
      ensures Shown(start, s', t', scrolls, row, col)
    {
      assert Shown(start, s, t, scrolls, row, col);
    }
  }

  lemma EmittedCell(s: Screen, c: Byte, row: nat, col: nat)
    requires s.Valid() && s.x < COLS && s.y < 2 * ROWS && c != NEWLINE && row < 2 * ROWS && col < COLS
    ensures CellAt(Emit(s, c).memory, row, col)
      == if row == s.y && col == s.x then Cell(c, s.attribute) else CellAt(s.memory, row, col)
  {
  }

  lemma WriteKeepsTracks(start: seq<Byte>, s: Screen, t: Terminal, scrolls: nat, c: Byte)
    requires Tracks(start, s, t, scrolls) && s.x < COLS && s.y <= ROWS - 2 && c != NEWLINE
    ensures Tracks(start, Emit(s, c), TerminalEmit(t, c), scrolls)
  {
    var s', t' := Emit(s, c), TerminalEmit(t, c);
    forall row, col | 0 <= row < s.sticky + ROWS && 0 <= col < COLS
      ensures Shown(start, s', t', scrolls, row, col)
    {
      EmittedCell(s, c, row, col);
      assert Shown(start, s, t, scrolls, row, col);
    }
  }

  lemma NewlineKeepsTracks(start: seq<Byte>, s: Screen, t: Terminal, scrolls: nat)
    requires Tracks(start, s, t, scrolls) && s.y <= ROWS - 2
    ensures Tracks(start, Emit(s, NEWLINE), TerminalEmit(t, NEWLINE), scrolls)
  {
    var s', t' := Emit(s, NEWLINE), TerminalEmit(t, NEWLINE);
    forall row, col | 0 <= row < s.sticky + ROWS && 0 <= col < COLS
      ensures Shown(start, s', t', scrolls, row, col)
    {
      assert Shown(start, s, t, scrolls, row, col);
    }
  }

  lemma ColourKeepsTracks(start: seq<Byte>, s: Screen, t: Terminal, scrolls: nat, a: Byte)
    requires Tracks(start, s, t, scrolls)
    ensures Tracks(start, s.(attribute := a), t.(attribute := a), scrolls)
  {
    var s', t' := s.(attribute := a), t.(attribute := a);
    forall row, col | 0 <= row < s.sticky + ROWS && 0 <= col < COLS
      ensures Shown(start, s', t', scrolls, row, col)
    {
      assert Shown(start, s, t, scrolls, row, col);
    }
  }

  lemma EmitKeepsTracks(start: seq<Byte>, s: Screen, t: Terminal, scrolls: nat, c: Byte)
    requires Tracks(start, s, t, scrolls) && s.x < COLS && s.y <= ROWS - 2
    ensures Tracks(start, Emit(s, c), TerminalEmit(t, c), scrolls)
  {
    if c == NEWLINE {
      NewlineKeepsTracks(start, s, t, scrolls);
    } else {
      WriteKeepsTracks(start, s, t, scrolls, c);
    }
  }

  lemma StepKeepsTracks(start: seq<Byte>, s: Screen, t: Terminal, scrolls: nat, e: Event)
    requires Tracks(start, s, t, scrolls) && s.sticky <= ROWS - 2
    ensures Tracks(start, Step(s, e), TerminalStep(t, e), scrolls + ScrollsOnce(s, e))
  {
    match e
    case SetAttribute(a) => ColourKeepsTracks(start, s, t, scrolls, a);
    case Put(c) =>
      if c != 0 {
        WrapKeepsTracks(start, s, t, scrolls);
        MakeRoomKeepsTracks(start, Wrap(s), TerminalWrap(t), scrolls);
        EmitKeepsTracks(start, MakeRoom(Wrap(s)), TerminalWrap(t), scrolls + ScrollsOnce(s, e), c);
      }
  }

  lemma {:induction false} RunKeepsTracks(start: seq<Byte>, s: Screen, t: Terminal, scrolls: nat, es: seq<Event>)
    requires Tracks(start, s, t, scrolls) && s.sticky <= ROWS - 2
    ensures Tracks(start, Run(s, es), TerminalRun(t, es), scrolls + Scrolls(s, es))
    decreases es
  {
    if es != [] {
      StepKeepsTracks(start, s, t, scrolls, es[0]);
      RunKeepsTracks(start, Step(s, es[0]), TerminalStep(t, es[0]), scrolls + ScrollsOnce(s, es[0]), es[1..]);
    }
  }

  /** The terminal to compare a screen with: nothing written yet, the cursor in the same place. */
  function TerminalFor(s: Screen): Terminal { Terminal(map[], s.x, s.y, s.attribute) }

  /** With at most ROWS - 2 sticky lines the console is a window over a terminal that never scrolls,
      whatever is printed and whatever was in memory before. */
  lemma {:induction false} ConsoleIsWindow(s: Screen, es: seq<Event>)
    requires s.Valid() && s.CursorInPlace() && s.sticky <= ROWS - 2
    ensures Window(s.memory, Run(s, es), TerminalRun(TerminalFor(s), es), Scrolls(s, es))
  {
    assert Tracks(s.memory, s, TerminalFor(s), 0);
    RunKeepsTracks(s.memory, s, TerminalFor(s), 0, es);
  }

  /** With ROWS - 1 sticky lines, a character printed from the last row lands on a sticky line. */
  lemma CharacterBreaksWindow(start: seq<Byte>, s: Screen, t: Terminal, scrolls: nat) returns (e: Event)
    requires Window(start, s, t, scrolls) && s.sticky == ROWS - 1 && s.y == ROWS - 1
    ensures !Window(start, Step(s, e), TerminalStep(t, e), scrolls + ScrollsOnce(s, e))
  {
    var row, col := ROWS - 2, s.x;
    var kept := if (row, col) in t.written then t.written[(row, col)] else CellAt(start, row, col);
    var c := if kept.glyph == 65 then 66 else 65;
    e := Put(c);
    assert CellAt(Putc(s, c).memory, row, col) == Cell(c, s.attribute);
    assert !Shown(start, Step(s, e), TerminalStep(t, e), scrolls + 1, row, col);
  }

  /** With ROWS - 1 sticky lines some text breaks the window: go down to the last row and print. */
  lemma {:induction false} TextBreaksWindow(start: seq<Byte>, s: Screen, t: Terminal, scrolls: nat)
      returns (es: seq<Event>)
    requires s.Valid() && s.CursorInPlace() && s.sticky == ROWS - 1
    ensures !Window(start, Run(s, es), TerminalRun(t, es), scrolls + Scrolls(s, es))
    decreases ROWS - s.y
  {
    if !Window(start, s, t, scrolls) {
      es := [];
    } else {
      var e := Put(NEWLINE);
      if s.y == ROWS - 1 { e := CharacterBreaksWindow(start, s, t, scrolls); }
      StepKeepsCursor(s, e);
      var rest := [];
      if s.y < ROWS - 1 {
        rest := TextBreaksWindow(start, Step(s, e), TerminalStep(t, e), scrolls + ScrollsOnce(s, e));
      }
      es := [e] + rest;
      assert es[1..] == rest;
    }
  }

  /** Every text leaves the console a window exactly when there are at most ROWS - 2 sticky lines. */
  lemma {:induction false} WindowForEveryTextIff(s: Screen)
    requires s.Valid() && s.CursorInPlace()
    ensures (forall es :: Window(s.memory, Run(s, es), TerminalRun(TerminalFor(s), es), Scrolls(s, es)))
      <==> s.sticky <= ROWS - 2
  {
    if s.sticky <= ROWS - 2 {
      forall es ensures Window(s.memory, Run(s, es), TerminalRun(TerminalFor(s), es), Scrolls(s, es)) {
        ConsoleIsWindow(s, es);
      }
    } else {
      var es := TextBreaksWindow(s.memory, s, TerminalFor(s), 0);
    }
  }

  // ---------------------------------------------------------------- printing a string

  /** The events of printing bytes. */
  function Puts(text: seq<Byte>): (es: seq<Event>)
    ensures |es| == |text| && forall i | 0 <= i < |text| :: es[i] == Put(text[i])
  {
    seq(|text|, i requires 0 <= i < |text| => Put(text[i]))
  }

  lemma {:induction false} RunAppends(s: Screen, es: seq<Event>, e: Event)
    requires s.Valid() && s.CursorInPlace()
    ensures Run(s, es + [e]) == Step(Run(s, es), e)
    decreases es
  {
    if es == [] {
      StepKeepsCursor(s, e);
      assert (es + [e])[1..] == [];
    } else {
      StepKeepsCursor(s, es[0]);
      RunAppends(Step(s, es[0]), es[1..], e);
      assert (es + [e])[1..] == es[1..] + [e];
    }
  }
}
