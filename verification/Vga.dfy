/** The driver of vga.c: the cell array, cursor and colour, changed in place. */
module Vga {
  import opened Bytes
  import opened Terminal

  // ---------- vga_entry and vga_color ----------

  function Value(v: bv8): byte {
    v as byte
  }

  function Short(v: bv16): uint16 {
    v as uint16
  }

  /** A byte as a vector of bits, from its binary digits. */
  function Bits(x: byte): (v: bv8)
    ensures Value(v) == x
  {
    if x == 0 then 0
    else
      var high := Bits(x / 2);
      AppendBit(high);
      if x % 2 == 0 then high << 1 else (high << 1) | 1
  }

  lemma AppendBit(v: bv8)
    requires Value(v) < 128
    ensures Value(v << 1) == 2 * Value(v) && Value((v << 1) | 1) == 2 * Value(v) + 1
  {
  }

  /** A char as an unsigned short: its sign is extended. */
  function SignExtended(c: bv8): bv16 {
    if c & 0x80 == 0 then c as bv16 else c as bv16 | 0xFF00
  }

  function EntryBits(c: bv8, color: bv8): bv16 {
    SignExtended(c) | (color as bv16 << 8)
  }

  function VgaEntry(c: byte, color: byte): uint16 {
    Short(EntryBits(Bits(c), Bits(color)))
  }

  /** For an ASCII character or-ing puts the colour above it; above 127 the extended sign is there
      already and swallows the colour. */
  lemma VgaEntryCell(c: byte, color: byte)
    ensures VgaEntry(c, color) == Cell(c, color)
  {
    hide Value, Short, Bits, SignExtended, EntryBits;
    var v, w := Bits(c), Bits(color);
    SignBit(v);
    EntryCases(v, w);
    AsciiEntry(v, w);
    SignedEntry(v, w);
  }

  lemma SignBit(c: bv8)
    ensures c & 0x80 == 0 <==> Value(c) < 128
  {
  }

  lemma EntryCases(c: bv8, color: bv8)
    ensures EntryBits(c, color) ==
      if c & 0x80 == 0 then c as bv16 | (color as bv16 << 8) else (c as bv16 | 0xFF00) | (color as bv16 << 8)
  {
  }

  lemma AsciiEntry(c: bv8, color: bv8)
    ensures c & 0x80 == 0 ==> Short(c as bv16 | (color as bv16 << 8)) == Value(c) + 256 * Value(color)
  {
  }

  lemma SignedEntry(c: bv8, color: bv8)
    ensures c & 0x80 != 0 ==> Short((c as bv16 | 0xFF00) | (color as bv16 << 8)) == 0xFF00 + Value(c)
  {
  }

  function VgaColor(fg: byte, bg: byte): byte {
    Value(Bits(fg) | (Bits(bg) << 4))
  }

  /** The two halves do not overlap, so that or-ing them adds them. */
  lemma VgaColorHalves(fg: byte, bg: byte)
    requires fg < 16 && bg < 16
    ensures VgaColor(fg, bg) == fg + 16 * bg
  {
    hide Value, Bits;
    ColorBits(Bits(fg), Bits(bg));
  }

  lemma ColorBits(f: bv8, b: bv8)
    ensures Value(f) < 16 && Value(b) < 16 ==> Value(f | (b << 4)) == Value(f) + 16 * Value(b)
  {
  }

  class Display {
    const vga: array<uint16>
    var cursorX: int
    var cursorY: int
    var color: byte

    function State(): Screen
      reads this, vga
    {
      Screen(vga[..], cursorX, cursorY, color)
    }

    constructor (vga: array<uint16>)
      requires vga.Length == CELLS
      ensures this.vga == vga && State() == Screen(vga[..], 0, 0, 0)
    {
      this.vga := vga;
      cursorX, cursorY, color := 0, 0, 0;
    }

    /** vga_init: light green on black, blank. */
    method Init()
      requires vga.Length == CELLS
      modifies this, vga
      ensures State() == Do(Screen(old(vga[..]), 0, 0, 10), Terminal.Clear)
    {
      VgaColorHalves(10, 0);
      color := VgaColor(10, 0);
      ClearAll();
    }

    method ClearAll()
      requires vga.Length == CELLS
      modifies this, vga
      ensures State() == ClearScreen(old(State()))
    {
      hide VgaEntry;
      for i := 0 to CELLS
        invariant color == old(color)
        invariant forall j :: 0 <= j < i ==> vga[j] == Blank(color)
      {
        VgaEntryCell(0x20, color);
        vga[i] := VgaEntry(0x20, color);
      }
      cursorX, cursorY := 0, 0;
    }

    /** vga_set_color: foreground in the low half, background in the high half. */
    method SetColor(fg: byte, bg: byte)
      modifies this`color
      ensures State() == old(State()).(color := VgaColor(fg, bg))
      ensures fg < 16 && bg < 16 ==> color == fg + 16 * bg
    {
      color := VgaColor(fg, bg);
      if fg < 16 && bg < 16 {
        VgaColorHalves(fg, bg);
      }
    }

    /** vga_scroll: every row up by one, a blank last row. */
    method ScrollUp()
      requires vga.Length == CELLS
      modifies this`cursorY, vga
      ensures State() == Scroll(old(State()))
    {
      hide VgaEntry;
      ghost var was := vga[..];
      for y := 0 to ROWS - 1
        invariant color == old(color) && cursorX == old(cursorX)
        invariant forall i :: 0 <= i < y * COLS ==> vga[i] == was[i + COLS]
        invariant forall i :: y * COLS <= i < CELLS ==> vga[i] == was[i]
      {
        for x := 0 to COLS
          invariant color == old(color) && cursorX == old(cursorX)
          invariant forall i :: 0 <= i < y * COLS + x ==> vga[i] == was[i + COLS]
          invariant forall i :: y * COLS + x <= i < CELLS ==> vga[i] == was[i]
        {
          vga[y * COLS + x] := vga[(y + 1) * COLS + x];
        }
      }
      for x := 0 to COLS
        invariant color == old(color) && cursorX == old(cursorX)
        invariant forall i :: 0 <= i < CELLS - COLS ==> vga[i] == was[i + COLS]
        invariant forall i :: CELLS - COLS <= i < CELLS - COLS + x ==> vga[i] == Blank(color)
      {
        VgaEntryCell(0x20, color);
        vga[(ROWS - 1) * COLS + x] := VgaEntry(0x20, color);
      }
      cursorY := ROWS - 1;
      assert vga[..] == was[COLS..] + BlankRow(color);
    }

    method PutChar(c: byte)
      requires InRange(State())
      modifies this, vga
      ensures State() == Terminal.PutChar(old(State()), c)
    {
      hide VgaEntry;
      if c == 10 {
        cursorX := 0;
        cursorY := cursorY + 1;
      } else if c == 13 {
        cursorX := 0;
      } else if c == 9 {
        cursorX := (cursorX + 4) / 4 * 4;
      } else {
        VgaEntryCell(c, color);
        vga[cursorY * COLS + cursorX] := VgaEntry(c, color);
        cursorX := cursorX + 1;
      }
      if cursorX >= COLS {
        cursorX := 0;
        cursorY := cursorY + 1;
      }
      if cursorY >= ROWS {
        ScrollUp();
      }
    }

    /** vga_print of a string whose characters before the NUL are s. */
    method Print(s: seq<byte>)
      requires InRange(State())
      modifies this, vga
      ensures State() == DoAll(old(State()), Chars(s))
    {
      hide Terminal.PutChar;
      ghost var s0 := State();
      ghost var rest := Chars(s);
      for i := 0 to |s|
        invariant InRange(State())
        invariant rest == Chars(s)[i..] && forall j :: 0 <= j < |rest| ==> Proper(rest[j])
        invariant DoAll(State(), rest) == DoAll(s0, Chars(s))
      {
        assert rest[0] == Char(s[i]);
        PutChar(s[i]);
        rest := rest[1..];
      }
    }

    /** vga_print_at inside the screen. */
    method PrintAt(s: seq<byte>, x: nat, y: nat)
      requires InRange(State()) && x < COLS && y < ROWS
      modifies this, vga
      ensures State() == DoAll(Do(old(State()), MoveTo(x, y)), Chars(s))
    {
      cursorX := x;
      cursorY := y;
      Print(s);
    }
  }
}
