/** The text screen as values: the 80x50 screen of vga.c, and a terminal that never scrolls. */
module Terminal {
  import opened Bytes

  const COLS := 80
  const ROWS := 50
  const CELLS := 4000

  /** vga_entry: a character cell. A character above 127 is negative as a C char, and its sign
      extension overwrites the colour. */
  function Cell(c: byte, color: byte): uint16 {
    if c < 128 then c as int + 256 * color else 0xFF00 + c
  }

  /** A cell has the current colour exactly when its character is ASCII or that colour is 0xFF. */
  lemma CellColor(c: byte, color: byte)
    ensures Cell(c, color) / 256 == color <==> c < 128 || color == 0xFF
    ensures c < 128 ==> Cell(c, color) % 256 == c
  {
  }

  function Blank(color: byte): uint16 {
    Cell(0x20, color)
  }

  /** A blank line. */
  function BlankRow(color: byte): (r: seq<uint16>)
    ensures |r| == COLS && forall i :: 0 <= i < COLS ==> r[i] == Blank(color)
  {
    seq(COLS, _ => Blank(color))
  }

  // ---------- The screen ----------

  datatype Screen = Screen(cells: seq<uint16>, x: int, y: int, color: byte)

  ghost predicate InRange(s: Screen) {
    |s.cells| == CELLS && 0 <= s.x < COLS && 0 <= s.y < ROWS
  }

  datatype Command =
    | Char(c: byte)
    | Color(color: byte)
    | Clear
    | MoveTo(x: nat, y: nat)

  predicate Proper(k: Command) {
    k.MoveTo? ==> k.x < COLS && k.y < ROWS
  }

  /** Every row up by one, a blank row at the bottom, cursor on it. */
  function Scroll(s: Screen): Screen
    requires |s.cells| == CELLS
  {
    s.(cells := s.cells[COLS..] + BlankRow(s.color), y := ROWS - 1)
  }

  /** The first half of vga_putchar: write or move, without leaving the line. */
  function Place(s: Screen, c: byte): Screen
    requires InRange(s)
  {
    if c == 10 then s.(x := 0, y := s.y + 1)
    else if c == 13 then s.(x := 0)
    else if c == 9 then s.(x := (s.x + 4) / 4 * 4)
    else s.(cells := s.cells[s.y * COLS + s.x := Cell(c, s.color)], x := s.x + 1)
  }

  function PutChar(s: Screen, c: byte): (r: Screen)
    requires InRange(s)
    ensures InRange(r)
  {
    var p := Place(s, c);
    var w := if p.x >= COLS then p.(x := 0, y := p.y + 1) else p;
    if w.y >= ROWS then Scroll(w) else w
  }

  function ClearScreen(s: Screen): Screen {
    s.(cells := seq(CELLS, _ => Blank(s.color)), x := 0, y := 0)
  }

  function Do(s: Screen, k: Command): (r: Screen)
    requires InRange(s) && Proper(k)
    ensures InRange(r)
  {
    match k
    case Char(c) => PutChar(s, c)
    case Color(color) => s.(color := color)
    case Clear => ClearScreen(s)
    case MoveTo(x, y) => s.(x := x, y := y)
  }

  function DoAll(s: Screen, ks: seq<Command>): (r: Screen)
    requires InRange(s) && forall i :: 0 <= i < |ks| ==> Proper(ks[i])
    ensures InRange(r)
    decreases |ks|
  {
    if ks == [] then s else DoAll(Do(s, ks[0]), ks[1..])
  }

  // ---------- The terminal that never scrolls ----------

  /** All rows ever shown, the oldest first; the last 50 are on the screen. The cursor row y counts
      from the oldest row. */
  datatype Tape = Tape(rows: seq<seq<uint16>>, x: nat, y: nat, color: byte)

  ghost predicate Sound(t: Tape) {
    && |t.rows| >= ROWS
    && (forall i :: 0 <= i < |t.rows| ==> |t.rows[i]| == COLS)
    && t.x < COLS && |t.rows| - ROWS <= t.y < |t.rows|
  }

  /** How many rows have scrolled away. */
  function Top(t: Tape): int {
    |t.rows| - ROWS
  }

  /** Moving below the last row starts a new blank one. */
  function Settle(t: Tape): Tape {
    var w := if t.x >= COLS then t.(x := 0, y := t.y + 1) else t;
    if w.y >= |w.rows| then w.(rows := w.rows + [BlankRow(w.color)]) else w
  }

  /** The character at the cursor. */
  function Struck(t: Tape, c: byte): Tape
    requires Sound(t)
  {
    var row: seq<uint16> := t.rows[t.y][t.x := Cell(c, t.color)];
    t.(rows := t.rows[t.y := row])
  }

  function Type(t: Tape, c: byte): Tape
    requires Sound(t)
  {
    Settle(
      if c == 10 then t.(x := 0, y := t.y + 1)
      else if c == 13 then t.(x := 0)
      else if c == 9 then t.(x := (t.x + 4) / 4 * 4)
      else Struck(t, c).(x := t.x + 1))
  }

  function Obey(t: Tape, k: Command): Tape
    requires Sound(t) && Proper(k)
  {
    match k
    case Char(c) => Type(t, c)
    case Color(color) => t.(color := color)
    case Clear => t.(rows := t.rows[..Top(t)] + seq(ROWS, _ => BlankRow(t.color)), x := 0, y := Top(t))
    case MoveTo(x, y) => t.(x := x, y := Top(t) + y)
  }

  /** What the screen shows of the tape. */
  function Window(t: Tape): Screen
    requires Sound(t)
  {
    Screen(seq(CELLS, i requires 0 <= i < CELLS => t.rows[Top(t) + i / COLS][i % COLS]), t.x, t.y - Top(t), t.color)
  }

  // ---------- The screen is a window ----------

  lemma Index(y: int, x: int, i: int)
    requires 0 <= x < COLS && 0 <= y
    ensures (y * COLS + x) / COLS == y && (y * COLS + x) % COLS == x
    ensures i >= 0 && i / COLS == y && i % COLS == x ==> i == y * COLS + x
  {
  }

  lemma TypeSound(t: Tape, c: byte)
    requires Sound(t)
    ensures Sound(Type(t, c))
  {
  }

  lemma PlaceWindow(t: Tape, c: byte)
    requires Sound(t) && c != 9 && c != 10 && c != 13
    ensures var t' := Struck(t, c);
      Window(t').cells == Window(t).cells[(t.y - Top(t)) * COLS + t.x := Cell(c, t.color)]
  {
    var t' := Struck(t, c);
    var y, x := t.y - Top(t), t.x;
    forall i | 0 <= i < CELLS
      ensures Window(t').cells[i] == Window(t).cells[y * COLS + x := Cell(c, t.color)][i]
    {
      Index(y, x, i);
    }
  }

  lemma ScrollWindow(t: Tape, t': Tape)
    requires Sound(t) && Sound(t') && t'.rows == t.rows + [BlankRow(t.color)]
    ensures Window(t').cells == Window(t).cells[COLS..] + BlankRow(t.color)
  {
    var before, after := Window(t).cells, Window(t').cells;
    forall i | 0 <= i < CELLS ensures after[i] == (before[COLS..] + BlankRow(t.color))[i] {
      if i < CELLS - COLS {
        assert (i + COLS) / COLS == i / COLS + 1 && (i + COLS) % COLS == i % COLS;
      } else {
        assert i / COLS == ROWS - 1 && i % COLS == i - (CELLS - COLS);
      }
    }
  }

  predicate Control(c: byte) {
    c == 9 || c == 10 || c == 13
  }

  /** The row below the last one is needed. */
  ghost predicate Overflows(t: Tape, c: byte)
    requires Sound(t)
  {
    var x := if c == 10 || c == 13 then 0 else if c == 9 then (t.x + 4) / 4 * 4 else t.x + 1;
    (if c == 10 then t.y + 1 else t.y) + (if x >= COLS then 1 else 0) >= |t.rows|
  }

  lemma TypeRows(t: Tape, c: byte)
    requires Sound(t)
    ensures var mid := if Control(c) then t else Struck(t, c);
      && Sound(mid)
      && Type(t, c).rows == (if Overflows(t, c) then mid.rows + [BlankRow(t.color)] else mid.rows)
      && |mid.rows| == |t.rows| && mid.color == t.color
  {
  }

  lemma TypeCursor(t: Tape, c: byte)
    requires Sound(t)
    ensures var x := if c == 10 || c == 13 then 0 else if c == 9 then (t.x + 4) / 4 * 4 else t.x + 1;
      var t' := Type(t, c);
      && t'.x == (if x >= COLS then 0 else x)
      && t'.y == (if c == 10 then t.y + 1 else t.y) + (if x >= COLS then 1 else 0)
      && t'.color == t.color
  {
  }

  lemma WindowFields(t: Tape)
    requires Sound(t)
    ensures var s := Window(t);
      s.x == t.x && s.y == t.y - Top(t) && s.color == t.color && InRange(s)
  {
  }

  lemma PutCells(s: Screen, c: byte)
    requires InRange(s)
    ensures var mid := if Control(c) then s.cells else s.cells[s.y * COLS + s.x := Cell(c, s.color)];
      var x := if c == 10 || c == 13 then 0 else if c == 9 then (s.x + 4) / 4 * 4 else s.x + 1;
      var y := (if c == 10 then s.y + 1 else s.y) + (if x >= COLS then 1 else 0);
      PutChar(s, c) == Screen(if y >= ROWS then mid[COLS..] + BlankRow(s.color) else mid,
                              if x >= COLS then 0 else x, if y >= ROWS then ROWS - 1 else y, s.color)
  {
  }

  /** Typing a character on the tape and putting it on the screen show the same. */
  lemma TypeWindow(t: Tape, c: byte)
    requires Sound(t)
    ensures Sound(Type(t, c)) && Window(Type(t, c)) == PutChar(Window(t), c)
  {
    hide PutChar, BlankRow, Struck, Cell, Window, Type;
    TypeSound(t, c);
    TypeRows(t, c);
    TypeCursor(t, c);
    WindowFields(t);
    WindowFields(Type(t, c));
    PutCells(Window(t), c);
    var mid, t' := if Control(c) then t else Struck(t, c), Type(t, c);
    MidWindow(t, c);
    if Overflows(t, c) {
      ScrollWindow(mid, t');
    } else {
      SameRowsWindow(mid, t');
    }
  }

  lemma MidWindow(t: Tape, c: byte)
    requires Sound(t) && Sound(if Control(c) then t else Struck(t, c))
    ensures var mid := if Control(c) then t else Struck(t, c);
      && mid.color == t.color
      && Window(mid).cells ==
        if Control(c) then Window(t).cells else Window(t).cells[(t.y - Top(t)) * COLS + t.x := Cell(c, t.color)]
  {
    if !Control(c) {
      PlaceWindow(t, c);
    }
  }

  lemma SameRowsWindow(t: Tape, t': Tape)
    requires Sound(t) && Sound(t') && t'.rows == t.rows
    ensures Window(t').cells == Window(t).cells
  {
  }

  lemma ClearWindow(t: Tape)
    requires Sound(t)
    ensures Sound(Obey(t, Clear)) && Window(Obey(t, Clear)) == ClearScreen(Window(t))
  {
    assert Window(Obey(t, Clear)).cells == ClearScreen(Window(t)).cells;
  }

  lemma ObeyWindow(t: Tape, k: Command)
    requires Sound(t) && Proper(k)
    ensures Sound(Obey(t, k)) && Window(Obey(t, k)) == Do(Window(t), k)
  {
    match k
    case Char(c) => TypeWindow(t, c);
    case Color(color) =>
    case Clear => ClearWindow(t);
    case MoveTo(x, y) =>
  }

  ghost function ObeyAll(t: Tape, ks: seq<Command>): (r: Tape)
    requires Sound(t) && forall i :: 0 <= i < |ks| ==> Proper(ks[i])
    ensures Sound(r)
    decreases |ks|
  {
    if ks == [] then t
    else
      ObeyWindow(t, ks[0]);
      ObeyAll(Obey(t, ks[0]), ks[1..])
  }

  /** After any sequence of characters, colour changes, clears and in-range moves, the screen is the
      last 50 rows of what a terminal that never scrolls would hold, and the cursor is on it. */
  lemma {:induction false} ScreenIsWindow(t: Tape, ks: seq<Command>)
    requires Sound(t) && forall i :: 0 <= i < |ks| ==> Proper(ks[i])
    ensures DoAll(Window(t), ks) == Window(ObeyAll(t, ks))
    decreases |ks|
  {
    hide Window, Do, Obey, Sound, InRange;
    if ks != [] {
      ObeyWindow(t, ks[0]);
      ScreenIsWindow(Obey(t, ks[0]), ks[1..]);
    }
  }

  // ---------- In numbers ----------

  /** After clearing, each of the 4000 cells is a space in the current colour and the cursor is home. */
  lemma ClearedCells(s: Screen)
    requires InRange(s)
    ensures var r := Do(s, Clear);
      && |r.cells| == 4000 && r.x == 0 && r.y == 0 && r.color == s.color
      && forall i :: 0 <= i < 4000 ==> r.cells[i] == 0x20 + 0x100 * s.color
  {
  }

  /** A printing character goes to column x of row y of 80 by 50 cells, and the cursor to the next column,
      or to the next row after column 79. From the last cell of the screen everything moves up by one row
      and the last row is spaces in the current colour. */
  lemma PrintedCell(s: Screen, c: byte)
    requires InRange(s) && c != 9 && c != 10 && c != 13
    ensures 0 <= s.x < 80 && 0 <= s.y < 50
    ensures var r, last := PutChar(s, c), s.x == 79 && s.y == 49;
      var shown := if c < 128 then c + 0x100 * s.color as int else 0xFF00 + c as int;
      && |r.cells| == 4000 && r.color == s.color
      && r.x == (if s.x == 79 then 0 else s.x + 1) && r.y == (if s.x == 79 && s.y < 49 then s.y + 1 else s.y)
      && (!last ==> forall i :: 0 <= i < 4000 ==> r.cells[i] == if i == 80 * s.y + s.x then shown else s.cells[i])
      && (last ==>
            && (forall i :: 0 <= i < 3920 ==> r.cells[i] == if i == 3919 then shown else s.cells[i + 80])
            && (forall i :: 3920 <= i < 4000 ==> r.cells[i] == 0x20 + 0x100 * s.color))
  {
    hide Blank;
    BlankCell(s.color);
  }

  lemma BlankCell(color: byte)
    ensures Blank(color) == 0x20 + 0x100 * color
  {
  }

  // ---------- From any screen, and from vga_init ----------

  /** The tape that has shown nothing but the screen s. */
  function TapeOf(s: Screen): Tape
    requires InRange(s)
  {
    Tape(seq(ROWS, y requires 0 <= y < ROWS => s.cells[y * COLS..y * COLS + COLS]), s.x, s.y, s.color)
  }

  /** Every screen with its cursor in range is the window of a tape. */
  lemma TapeOfWindow(s: Screen)
    requires InRange(s)
    ensures Sound(TapeOf(s)) && Window(TapeOf(s)) == s && Top(TapeOf(s)) == 0
  {
    var t := TapeOf(s);
    forall i | 0 <= i < CELLS ensures Window(t).cells[i] == s.cells[i] {
      assert t.rows[i / COLS] == s.cells[i / COLS * COLS..i / COLS * COLS + COLS];
    }
    assert Window(t).cells == s.cells;
  }

  /** The tape at vga_init: blank, light green on black. */
  function Start(): (t: Tape)
    ensures Sound(t)
  {
    Tape(seq(ROWS, _ => BlankRow(10)), 0, 0, 10)
  }

  /** Whatever the cells held before vga_init, after it and any sequence of commands the screen is the
      window of what the never-scrolling terminal holds after the same commands. */
  lemma ScreenFromInit(cells: seq<uint16>, ks: seq<Command>)
    requires |cells| == CELLS && forall i :: 0 <= i < |ks| ==> Proper(ks[i])
    ensures DoAll(Do(Screen(cells, 0, 0, 10), Clear), ks) == Window(ObeyAll(Start(), ks))
  {
    hide ObeyAll, DoAll, Do, Start, Window;
    StartWindow(cells);
    ScreenIsWindow(Start(), ks);
  }

  lemma StartWindow(cells: seq<uint16>)
    requires |cells| == CELLS
    ensures Window(Start()) == Do(Screen(cells, 0, 0, 10), Clear)
  {
    hide Blank;
    WindowFields(Start());
    assert Window(Start()).cells == ClearScreen(Screen(cells, 0, 0, 10)).cells;
  }

  // ---------- What the tape records ----------

  lemma ObeyKeepsScrolled(t: Tape, k: Command)
    requires Sound(t) && Proper(k)
    ensures Sound(Obey(t, k)) && Top(Obey(t, k)) >= Top(t)
    ensures Obey(t, k).rows[..Top(t)] == t.rows[..Top(t)]
  {
    ObeyWindow(t, k);
    if k.Char? {
      TypeRows(t, k.c);
    }
  }

  /** What has scrolled off the screen is final: no later command changes it. */
  lemma {:induction false} ScrolledIsFinal(t: Tape, ks: seq<Command>)
    requires Sound(t) && forall i :: 0 <= i < |ks| ==> Proper(ks[i])
    ensures Top(ObeyAll(t, ks)) >= Top(t) && ObeyAll(t, ks).rows[..Top(t)] == t.rows[..Top(t)]
    decreases |ks|
  {
    hide Obey, Window;
    if ks != [] {
      ObeyKeepsScrolled(t, ks[0]);
      var t1 := Obey(t, ks[0]);
      ScrolledIsFinal(t1, ks[1..]);
      var r := ObeyAll(t, ks).rows;
      assert r[..Top(t)] == r[..Top(t1)][..Top(t)];
      assert t1.rows[..Top(t)] == t1.rows[..Top(t1)][..Top(t)];
    }
  }

  /** Cell number n of the tape, counting along the rows from the oldest. */
  function CellAt(t: Tape, n: nat): uint16
    requires Sound(t) && n < COLS * |t.rows|
  {
    t.rows[n / COLS][n % COLS]
  }

  function Position(t: Tape): nat {
    t.y * COLS + t.x
  }

  lemma TypePlain(t: Tape, c: byte)
    requires Sound(t) && !Control(c)
    ensures var t' := Type(t, c);
      && Sound(t') && Position(t') == Position(t) + 1 && t'.color == t.color && |t'.rows| >= |t.rows|
      && Position(t) < COLS * |t.rows|
      && (forall n: nat :: n < COLS * |t.rows| ==>
            CellAt(t', n) == if n == Position(t) then Cell(c, t.color) else CellAt(t, n))
  {
    hide Cell;
    TypeSound(t, c);
    TypeRows(t, c);
    TypeCursor(t, c);
    var t' := Type(t, c);
    Index(t.y, t.x, 0);
    forall n: nat | n < COLS * |t.rows|
      ensures CellAt(t', n) == if n == Position(t) then Cell(c, t.color) else CellAt(t, n)
    {
      Index(t.y, t.x, n);
    }
  }

  /** The control characters write nothing: newline goes to the start of the next row, carriage return
      to the start of this one, tab to the next multiple of 4, which at the end of a row is the start
      of the next. */
  lemma TypeControl(t: Tape, c: byte)
    requires Sound(t) && Control(c)
    ensures var t' := Type(t, c);
      && t'.rows[..|t.rows|] == t.rows
      && (c == 10 ==> Position(t') == (t.y + 1) * COLS)
      && (c == 13 ==> Position(t') == t.y * COLS)
      && (c == 9 ==> Position(t') % 4 == 0 && Position(t) < Position(t') <= Position(t) + 4)
  {
    TypeRows(t, c);
    TypeCursor(t, c);
  }

  /** The tape after the characters of s. */
  ghost function TypeAll(t: Tape, s: seq<byte>): (r: Tape)
    requires Sound(t)
    ensures Sound(r)
    decreases |s|
  {
    if s == [] then t
    else
      TypeSound(t, s[0]);
      TypeAll(Type(t, s[0]), s[1..])
  }

  /** Text without control characters lands in consecutive cells from the cursor on, wrapping at the
      end of each row, and changes nothing before it. */
  lemma {:induction false} PrintedText(t: Tape, s: seq<byte>)
    requires Sound(t) && forall i :: 0 <= i < |s| ==> !Control(s[i])
    ensures var t', p := TypeAll(t, s), Position(t);
      && Position(t') == p + |s| && |t'.rows| >= |t.rows|
      && Position(t') < COLS * |t'.rows|
      && (forall k: nat :: k < |s| ==> CellAt(t', p + k) == Cell(s[k], t.color))
      && (forall n: nat :: n < p ==> CellAt(t', n) == CellAt(t, n))
    decreases |s|
  {
    hide Cell, Type, CellAt;
    if s != [] {
      var t1 := Type(t, s[0]);
      TypePlain(t, s[0]);
      PrintedText(t1, s[1..]);
      var t', p := TypeAll(t, s), Position(t);
      forall k: nat | k < |s| ensures CellAt(t', p + k) == Cell(s[k], t.color) {
        if k > 0 {
          assert CellAt(t', (p + 1) + (k - 1)) == Cell(s[1..][k - 1], t.color);
        }
      }
    }
  }

  /** Printing a string is obeying its characters one by one. */
  lemma SameAsCommands(t: Tape, s: seq<byte>)
    requires Sound(t)
    ensures TypeAll(t, s) == ObeyAll(t, Chars(s))
    decreases |s|
  {
    if s != [] {
      TypeSound(t, s[0]);
      assert Chars(s)[1..] == Chars(s[1..]);
      SameAsCommands(Type(t, s[0]), s[1..]);
    }
  }

  /** Text printed on a screen. With d the rows scrolled meanwhile, counting cells along the rows:
      the text is on the cells from the cursor on, as vga_entry makes them, what stood before it is
      still there, both moved up by d rows, and the cursor is just behind the text. */
  lemma PrintedOnScreen(s: Screen, text: seq<byte>) returns (d: nat)
    requires InRange(s) && forall i :: 0 <= i < |text| ==> !Control(text[i])
    ensures var r, p, up := DoAll(s, Chars(text)), s.y * COLS + s.x, COLS * d;
      && r.y * COLS + r.x + up == p + |text| && r.color == s.color
      && (forall k: nat :: k < |text| && p + k >= up ==> p + k - up < CELLS && r.cells[p + k - up] == Cell(text[k], s.color))
      && (forall n: nat :: n < p && n >= up ==> r.cells[n - up] == s.cells[n])
  {
    hide Cell, Type, CellAt, Window, DoAll, ObeyAll, TypeAll, TapeOf;
    var t := TapeOf(s);
    TapeOfWindow(s);
    ScreenIsWindow(t, Chars(text));
    SameAsCommands(t, text);
    PrintedText(t, text);
    var t' := TypeAll(t, text);
    d := Top(t');
    WindowFields(t);
    WindowFields(t');
    TypeAllColor(t, text);
    var r, p, up := DoAll(s, Chars(text)), s.y * COLS + s.x, COLS * d;
    forall k: nat | k < |text| && p + k >= up
      ensures p + k - up < CELLS && r.cells[p + k - up] == Cell(text[k], s.color)
    {
      WindowCell(t', p + k);
    }
    forall n: nat | n < p && n >= up ensures r.cells[n - up] == s.cells[n] {
      WindowCell(t', n);
      WindowCell(t, n);
    }
  }

  lemma {:induction false} TypeAllColor(t: Tape, s: seq<byte>)
    requires Sound(t)
    ensures TypeAll(t, s).color == t.color
    decreases |s|
  {
    hide Type;
    if s != [] {
      TypeSound(t, s[0]);
      TypeCursor(t, s[0]);
      TypeAllColor(Type(t, s[0]), s[1..]);
    }
  }

  /** Cell n of a tape, if it is still on the screen. */
  lemma WindowCell(t: Tape, n: nat)
    requires Sound(t) && COLS * Top(t) <= n < COLS * |t.rows|
    ensures n - COLS * Top(t) < CELLS == |Window(t).cells|
    ensures Window(t).cells[n - COLS * Top(t)] == CellAt(t, n)
  {
  }

  /** The characters of s as commands. */
  function Chars(s: seq<byte>): (ks: seq<Command>)
    ensures |ks| == |s| && forall i :: 0 <= i < |ks| ==> ks[i] == Char(s[i]) && Proper(ks[i])
  {
    seq(|s|, i requires 0 <= i < |s| => Char(s[i]))
  }
}
