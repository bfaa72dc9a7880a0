/**
  The text console of `kernel/kernel_main64.cpp`: an 80 by 25 screen buffer
  that is written and scrolled in place.  The reference is the text laid out
  in rows, of which the screen should show the last 25.
 */
module Console {
  import opened CText

  const WIDTH := 80
  const HEIGHT := 25
  const SCREEN := 2000
  const WINDOW := 16384   // cells of the memory-mapped text buffer behind the screen

  type Byte = b: nat | b < 256

  const NEWLINE: CChar := 10
  const RETURN: CChar := 13
  const TAB: CChar := 9
  const SPACE: CChar := 32

  type Window = s: seq<int> | |s| == WINDOW ghost witness seq(WINDOW, _ => 0)

  datatype Screen = Screen(cells: Window, x: nat, y: nat, color: Byte)

  predicate Printable(c: CChar)
  {
    c >= 32
  }

  /** `(color << 8) | c`, for a printable character. */
  function Glyph(color: Byte, c: CChar): nat
    requires Printable(c)
  {
    color * 256 + c
  }

  lemma GlyphReadsBack(color: Byte, c: CChar)
    requires Printable(c)
    ensures Glyph(color, c) < 0x1_0000 && Glyph(color, c) / 256 == color && Glyph(color, c) % 256 == c
  {
  }

  function Blank(color: Byte): nat
  {
    Glyph(color, SPACE)
  }

  // ----------------------------------------------------------- operations ---

  function ClearScreen(s: Screen): Screen
  {
    Screen(seq(WINDOW, i requires 0 <= i < WINDOW => if i < SCREEN then Blank(s.color) else s.cells[i]), 0, 0, s.color)
  }

  /** Every row moves up by one, the last becomes blank. */
  function ScrollUp(s: Screen): Screen
  {
    s.(cells := seq(WINDOW, i requires 0 <= i < WINDOW =>
                  if i < SCREEN - WIDTH then s.cells[i + WIDTH]
                  else if i < SCREEN then Blank(s.color) else s.cells[i]),
       y := HEIGHT - 1)
  }

  /** `(x + 8) & ~7` on a 64-bit `size_t`. */
  function TabStop(x: nat): nat
  {
    ((x + 8) / 8 * 8) % 0x1_0000_0000_0000_0000
  }

  function Wrapped(s: Screen): Screen
  {
    if s.x >= WIDTH then s.(x := 0, y := s.y + 1) else s
  }

  /** The cell a character is written to, once the cursor has wrapped. */
  function Target(s: Screen): nat
  {
    Wrapped(s).y * WIDTH + Wrapped(s).x
  }

  function Write(s: Screen, c: CChar): Screen
    requires s.y < HEIGHT && Printable(c)
  {
    Wrapped(s).(cells := s.cells[Target(s) := Glyph(s.color, c)], x := Wrapped(s).x + 1)
  }

  function PutChar(s: Screen, c: CChar): Screen
    requires s.y < HEIGHT
  {
    var s1 :=
      if c == NEWLINE then s.(x := 0, y := s.y + 1)
      else if c == RETURN then s.(x := 0)
      else if c == TAB then s.(x := TabStop(s.x))
      else if Printable(c) then Write(s, c)
      else s;
    if s1.y >= HEIGHT then ScrollUp(s1) else s1
  }

  /** Characters printed one after the other; the cursor's row stays below 25 throughout. */
  function Print(s: Screen, text: seq<CChar>): (s': Screen)
    requires s.y < HEIGHT
    ensures s'.y < HEIGHT && s'.color == s.color
  {
    if text == [] then s else PutChar(Print(s, text[..|text| - 1]), text[|text| - 1])
  }

  /** Carriage return, tab and the other control characters only move the column; a tab goes to the next stop. */
  lemma ControlCharactersMoveColumn(s: Screen, c: CChar)
    requires s.y < HEIGHT && c != NEWLINE && !Printable(c)
    ensures PutChar(s, c) == s.(x := PutChar(s, c).x)
    ensures c == RETURN ==> PutChar(s, c).x == 0
    ensures c == TAB && s.x + 8 < 0x1_0000_0000_0000_0000 ==>
      s.x < PutChar(s, c).x <= s.x + 8 && PutChar(s, c).x % 8 == 0
    ensures c != RETURN && c != TAB ==> PutChar(s, c).x == s.x
  {
    if c == TAB && s.x + 8 < 0x1_0000_0000_0000_0000 {
      var stop := (s.x + 8) / 8 * 8;
      assert stop % 8 == 0 && s.x < stop <= s.x + 8;
    }
  }

  /** The rows from 1 on move up whole, colors included; the last becomes blank; the rest is kept. */
  ghost predicate MovedUp(before: Window, after: Window, color: Byte)
  {
    && (forall i :: 0 <= i < 1920 ==> after[i] == before[i + 80])
    && (forall i :: 1920 <= i < 2000 ==> after[i] == color * 256 + 32)
    && (forall i :: 2000 <= i < WINDOW ==> after[i] == before[i])
  }

  /** Scrolling moves the rows up, whatever colors they are in. */
  lemma ScrollUpMoves(s: Screen)
    ensures ScrollUp(s) == s.(cells := ScrollUp(s).cells, y := 24) && MovedUp(s.cells, ScrollUp(s).cells, s.color)
  {
    assert Blank(s.color) == s.color * 256 + 32;
  }

  /** Cell by cell, what one printable character does from any state. */
  lemma PrintableEffect(s: Screen, c: CChar)
    requires s.y < 25 && c >= 32
    ensures var s' := PutChar(s, c);
      var x, y := if s.x >= 80 then 0 else s.x, if s.x >= 80 then s.y + 1 else s.y;
      if y < 25 then
        s' == Screen(s.cells[y * 80 + x := s.color * 256 + c], x + 1, y, s.color)
      else
        s' == Screen(s'.cells, 1, 24, s.color) && MovedUp(s.cells[2000 := s.color * 256 + c], s'.cells, s.color)
  {
    if s.x >= 80 && s.y == 24 {
      assert Write(s, c).cells == s.cells[2000 := s.color * 256 + c];
      ScrollUpMoves(Write(s, c));
      assert PutChar(s, c) == ScrollUp(Write(s, c));
    }
  }

  /** And what a newline, a return, a tab or another control character does. */
  lemma ControlEffect(s: Screen, c: CChar)
    requires s.y < 25 && c < 32
    ensures var s' := PutChar(s, c);
      && (c == 10 && s.y < 24 ==> s' == s.(x := 0, y := s.y + 1))
      && (c == 10 && s.y == 24 ==> s' == Screen(s'.cells, 0, 24, s.color) && MovedUp(s.cells, s'.cells, s.color))
      && (c == 13 ==> s' == s.(x := 0))
      && (c == 9 && s.x < 0x1_0000_0000_0000_0000 - 8 ==> s' == s.(x := s.x - s.x % 8 + 8))
      && (c == 9 && 0x1_0000_0000_0000_0000 - 8 <= s.x < 0x1_0000_0000_0000_0000 ==> s' == s.(x := 0))
      && (c != 9 && c != 10 && c != 13 ==> s' == s)
  {
    if c == 10 && s.y == 24 {
      ScrollUpMoves(s.(x := 0, y := 25));
    }
    assert (s.x + 8) / 8 * 8 == s.x - s.x % 8 + 8;
  }

  // --------------------------------------------------------- off the screen ---

  /** A character arrives at the bottom row with the cursor at or past column 80. */
  predicate Spills(s: Screen, c: CChar)
  {
    s.y == HEIGHT - 1 && s.x >= WIDTH && Printable(c)
  }

  /** Exactly then is a cell outside the 2000 of the screen written. */
  lemma WritesOffScreenIff(s: Screen, c: CChar)
    requires s.y < HEIGHT
    ensures Spills(s, c) <==> Printable(c) && Target(s) >= SCREEN
    ensures Spills(s, c) ==> Target(s) == SCREEN
    ensures forall i :: SCREEN <= i < WINDOW ==>
      PutChar(s, c).cells[i] == if Spills(s, c) && i == SCREEN then Glyph(s.color, c) else s.cells[i]
  {
  }

  predicate NeverSpills(s: Screen, text: seq<CChar>)
    requires s.y < HEIGHT
  {
    text == [] ||
    (NeverSpills(s, text[..|text| - 1]) && !Spills(Print(s, text[..|text| - 1]), text[|text| - 1]))
  }

  /** Over every run, tabs and control characters included, memory behind the screen is safe without spills. */
  lemma {:induction false} NothingBehindScreenChanges(s: Screen, text: seq<CChar>, i: nat)
    requires s.y < HEIGHT && SCREEN <= i < WINDOW
    requires i > SCREEN || NeverSpills(s, text)
    ensures Print(s, text).cells[i] == s.cells[i]
  {
    if text != [] {
      NothingBehindScreenChanges(s, text[..|text| - 1], i);
      WritesOffScreenIff(Print(s, text[..|text| - 1]), text[|text| - 1]);
    }
  }

  // ---------------------------------------------------------- output in rows ---

  /** What the kernel sends to the console: characters, and changes of color. */
  datatype Out = Char(c: CChar) | Color(color: Byte)

  function Emit(s: Screen, out: Out): (s': Screen)
    requires s.y < HEIGHT
    ensures s'.y < HEIGHT
  {
    match out
    case Char(c) => PutChar(s, c)
    case Color(color) => s.(color := color)
  }

  function EmitAll(s: Screen, outs: seq<Out>): (s': Screen)
    requires s.y < HEIGHT
    ensures s'.y < HEIGHT
  {
    if outs == [] then s else Emit(EmitAll(s, outs[..|outs| - 1]), outs[|outs| - 1])
  }

  function Chars(text: seq<CChar>): seq<Out>
  {
    seq(|text|, i requires 0 <= i < |text| => Char(text[i]))
  }

  /** Printing is sending the characters. */
  lemma {:induction false} PrintIsEmitAll(s: Screen, text: seq<CChar>)
    requires s.y < HEIGHT
    ensures EmitAll(s, Chars(text)) == Print(s, text)
  {
    if text != [] {
      var n := |text| - 1;
      PrintIsEmitAll(s, text[..n]);
      assert Chars(text)[..n] == Chars(text[..n]);
    }
  }

  /** A character in the color it was printed in. */
  datatype Ink = Ink(c: CChar, color: Byte)

  /** A row was blank in one color before it was written in. */
  datatype Row = Row(ground: Byte, inks: seq<Ink>)

  /**
    Output laid out in rows, with the column at which it goes on in the last
    one, the color in force, and the color the screen was cleared in.
   */
  datatype Sheet = Sheet(rows: seq<Row>, x: nat, color: Byte, ground: Byte)

  ghost predicate AreRows(rows: seq<Row>)
  {
    && rows != []
    && (forall r :: 0 <= r < |rows| ==> |rows[r].inks| <= WIDTH)
    && (forall r, k :: 0 <= r < |rows| && 0 <= k < |rows[r].inks| ==> Printable(rows[r].inks[k].c))
  }

  /** A character put into a row at column `x`, over what is there or after as much blank as it takes. */
  function PutAt(row: Row, x: nat, ink: Ink): (row': Row)
    ensures row'.ground == row.ground
    ensures |row'.inks| == if x < |row.inks| then |row.inks| else x + 1
    ensures forall k :: 0 <= k < |row'.inks| ==>
      row'.inks[k] == if k == x then ink else if k < |row.inks| then row.inks[k] else Ink(SPACE, row.ground)
  {
    if x < |row.inks| then row.(inks := row.inks[x := ink])
    else row.(inks := row.inks + seq(x - |row.inks|, _ => Ink(SPACE, row.ground)) + [ink])
  }

  function LastRow(rows: seq<Row>): Row
    requires rows != []
  {
    rows[|rows| - 1]
  }

  function PutInLast(rows: seq<Row>, x: nat, ink: Ink): seq<Row>
    requires rows != []
  {
    rows[|rows| - 1 := PutAt(LastRow(rows), x, ink)]
  }

  /** The row that comes after the last: one of the 25 that were cleared, or one that scrolling makes blank. */
  function NewRow(p: Sheet, inks: seq<Ink>): Row
  {
    Row(if |p.rows| < HEIGHT then p.ground else p.color, inks)
  }

  /** The reference: rows end at newlines and at column 80, returns and tabs move in the last row. */
  function Place(p: Sheet, c: CChar): (p': Sheet)
    requires p.rows != []
    ensures p'.rows != []
  {
    if c == NEWLINE then p.(rows := p.rows + [NewRow(p, [])], x := 0)
    else if c == RETURN then p.(x := 0)
    else if c == TAB then p.(x := TabStop(p.x))
    else if !Printable(c) then p
    else if p.x >= WIDTH then p.(rows := p.rows + [NewRow(p, [Ink(c, p.color)])], x := 1)
    else p.(rows := PutInLast(p.rows, p.x, Ink(c, p.color)), x := p.x + 1)
  }

  function Blanked(ground: Byte): (p: Sheet)
    ensures p.rows != []
  {
    Sheet([Row(ground, [])], 0, ground, ground)
  }

  function LayOne(p: Sheet, out: Out): (p': Sheet)
    requires p.rows != []
    ensures p'.rows != []
  {
    match out
    case Char(c) => Place(p, c)
    case Color(color) => p.(color := color)
  }

  /** The output laid out on a screen cleared in color `ground`. */
  function Layout(ground: Byte, outs: seq<Out>): (p: Sheet)
    ensures p.rows != []
  {
    if outs == [] then Blanked(ground) else LayOne(Layout(ground, outs[..|outs| - 1]), outs[|outs| - 1])
  }

  /** What the code does instead: a character that wraps on the bottom row comes out blank. */
  predicate Lost(p: Sheet, out: Out)
  {
    out.Char? && Printable(out.c) && p.x >= WIDTH && |p.rows| >= HEIGHT
  }

  function LossyOne(p: Sheet, out: Out): (p': Sheet)
    requires p.rows != []
    ensures p'.rows != []
  {
    LayOne(p, if Lost(p, out) then Char(SPACE) else out)
  }

  function LossyLayout(ground: Byte, outs: seq<Out>): (p: Sheet)
    ensures p.rows != []
  {
    if outs == [] then Blanked(ground) else LossyOne(LossyLayout(ground, outs[..|outs| - 1]), outs[|outs| - 1])
  }

  lemma AddedRowKeepsRows(rows: seq<Row>, row: Row)
    requires AreRows(rows) && |row.inks| <= WIDTH && forall k :: 0 <= k < |row.inks| ==> Printable(row.inks[k].c)
    ensures AreRows(rows + [row])
  {
    forall r, k | 0 <= r < |rows + [row]| && 0 <= k < |(rows + [row])[r].inks|
      ensures Printable((rows + [row])[r].inks[k].c)
    {
      if r < |rows| {
        assert (rows + [row])[r] == rows[r];
      }
    }
  }

  lemma PutKeepsRows(rows: seq<Row>, x: nat, ink: Ink)
    requires AreRows(rows) && x < WIDTH && Printable(ink.c)
    ensures AreRows(PutInLast(rows, x, ink))
  {
    var rows' := PutInLast(rows, x, ink);
    forall r, k | 0 <= r < |rows'| && 0 <= k < |rows'[r].inks|
      ensures Printable(rows'[r].inks[k].c)
    {
      if r < |rows| - 1 {
        assert rows'[r] == rows[r];
      }
    }
  }

  lemma LayKeepsRows(p: Sheet, out: Out)
    requires AreRows(p.rows)
    ensures AreRows(LayOne(p, out).rows)
  {
    if out.Char? {
      if out.c == NEWLINE {
        AddedRowKeepsRows(p.rows, NewRow(p, []));
      } else if Printable(out.c) && p.x >= WIDTH {
        AddedRowKeepsRows(p.rows, NewRow(p, [Ink(out.c, p.color)]));
      } else if Printable(out.c) {
        PutKeepsRows(p.rows, p.x, Ink(out.c, p.color));
      }
    }
  }

  // ------------------------------------------------- what the screen shows ---

  /** The row that screen row `r` should show: the last 25 are visible. */
  function Visible(rows: seq<Row>, r: nat): nat
  {
    if |rows| > HEIGHT then |rows| - HEIGHT + r else r
  }

  function CellOf(rows: seq<Row>, ground: Byte, r: nat, c: nat): nat
    requires AreRows(rows)
  {
    var v := Visible(rows, r);
    if v >= |rows| then Blank(ground)
    else if c < |rows[v].inks| then Glyph(rows[v].inks[c].color, rows[v].inks[c].c)
    else Blank(rows[v].ground)
  }

  /** The screen holds exactly the last 25 rows, each character in its own color, blank padded. */
  ghost predicate Displays(s: Screen, rows: seq<Row>, ground: Byte)
  {
    && AreRows(rows)
    && forall r: nat, c: nat :: r < HEIGHT && c < WIDTH ==> s.cells[r * WIDTH + c] == CellOf(rows, ground, r, c)
  }

  /** The screen shows the sheet, and goes on where and in the color that the sheet does. */
  ghost predicate Shows(s: Screen, p: Sheet)
  {
    && Displays(s, p.rows, p.ground)
    && s.x == p.x && s.color == p.color
    && s.y == (if |p.rows| > HEIGHT then HEIGHT else |p.rows|) - 1
  }

  lemma CellsDiffer(r: nat, c: nat, r': nat, c': nat)
    requires c < WIDTH && c' < WIDTH
    ensures r * WIDTH + c == r' * WIDTH + c' <==> r == r' && c == c'
  {
  }

  function WithRow(p: Sheet, inks: seq<Ink>): seq<Row>
  {
    p.rows + [NewRow(p, inks)]
  }

  /** Scrolling shows the same rows, in their own colors, with one added that is blank in the current color. */
  lemma ScrollShowsNewRow(s: Screen, s1: Screen, p: Sheet)
    requires Displays(s, p.rows, p.ground) && |p.rows| >= HEIGHT
    requires s1.color == p.color && s1.cells[..SCREEN] == s.cells[..SCREEN]
    ensures Displays(ScrollUp(s1), WithRow(p, []), p.ground)
  {
    AddedRowKeepsRows(p.rows, NewRow(p, []));
    forall r: nat, c: nat | r < HEIGHT && c < WIDTH
      ensures ScrollUp(s1).cells[r * WIDTH + c] == CellOf(WithRow(p, []), p.ground, r, c)
    {
      if r < HEIGHT - 1 {
        assert s1.cells[..SCREEN][(r + 1) * WIDTH + c] == s.cells[..SCREEN][(r + 1) * WIDTH + c];
        assert s.cells[(r + 1) * WIDTH + c] == CellOf(p.rows, p.ground, r + 1, c);
      }
    }
  }

  lemma EmptyRowBelow(s: Screen, p: Sheet)
    requires Displays(s, p.rows, p.ground) && |p.rows| < HEIGHT
    ensures Displays(s, WithRow(p, []), p.ground)
  {
    AddedRowKeepsRows(p.rows, NewRow(p, []));
    forall r: nat, c: nat | r < HEIGHT && c < WIDTH
      ensures s.cells[r * WIDTH + c] == CellOf(WithRow(p, []), p.ground, r, c)
    {
      assert s.cells[r * WIDTH + c] == CellOf(p.rows, p.ground, r, c);
    }
  }

  /** Writing before column 80 shows the character in its row, in the current color. */
  lemma WriteShowsChar(s: Screen, p: Sheet, ch: CChar)
    requires Shows(s, p) && p.x < WIDTH && Printable(ch)
    ensures Shows(Write(s, ch), p.(rows := PutInLast(p.rows, p.x, Ink(ch, p.color)), x := p.x + 1))
  {
    var p' := p.(rows := PutInLast(p.rows, p.x, Ink(ch, p.color)), x := p.x + 1);
    PutKeepsRows(p.rows, p.x, Ink(ch, p.color));
    forall r: nat, c: nat | r < HEIGHT && c < WIDTH
      ensures Write(s, ch).cells[r * WIDTH + c] == CellOf(p'.rows, p'.ground, r, c)
    {
      CellsDiffer(r, c, s.y, s.x);
      assert s.cells[r * WIDTH + c] == CellOf(p.rows, p.ground, r, c);
    }
  }

  /** A row holding one space in the color of its ground looks like an empty row. */
  lemma SpaceLooksEmpty(s: Screen, p: Sheet)
    requires AreRows(p.rows) && |p.rows| >= HEIGHT && Displays(s, WithRow(p, []), p.ground)
    ensures Displays(s, WithRow(p, [Ink(SPACE, p.color)]), p.ground)
  {
    AddedRowKeepsRows(p.rows, NewRow(p, [Ink(SPACE, p.color)]));
    forall r: nat, c: nat | r < HEIGHT && c < WIDTH
      ensures s.cells[r * WIDTH + c] == CellOf(WithRow(p, [Ink(SPACE, p.color)]), p.ground, r, c)
    {
      assert s.cells[r * WIDTH + c] == CellOf(WithRow(p, []), p.ground, r, c);
    }
  }

  lemma NewlineShows(s: Screen, p: Sheet)
    requires Shows(s, p)
    ensures Shows(PutChar(s, NEWLINE), p.(rows := WithRow(p, []), x := 0))
  {
    if |p.rows| < HEIGHT {
      EmptyRowBelow(s, p);
    } else {
      ScrollShowsNewRow(s, s.(x := 0, y := s.y + 1), p);
    }
  }

  /** Wrapping above the bottom row. */
  lemma WrapShows(s: Screen, p: Sheet, ch: CChar)
    requires Shows(s, p) && p.x >= WIDTH && |p.rows| < HEIGHT && Printable(ch)
    ensures Shows(PutChar(s, ch), p.(rows := WithRow(p, [Ink(ch, p.color)]), x := 1))
  {
    EmptyRowBelow(s, p);
    var below, p1 := s.(x := 0, y := s.y + 1), p.(rows := WithRow(p, []), x := 0);
    assert Shows(below, p1);
    WriteShowsChar(below, p1, ch);
    assert PutAt(NewRow(p, []), 0, Ink(ch, p.color)) == NewRow(p, [Ink(ch, p.color)]);
    assert PutInLast(p1.rows, 0, Ink(ch, p.color)) == WithRow(p, [Ink(ch, p.color)]);
  }

  /** Wrapping on the bottom row: the character lands behind the screen and its row stays blank. */
  lemma SpillShows(s: Screen, p: Sheet, ch: CChar)
    requires Shows(s, p) && p.x >= WIDTH && |p.rows| >= HEIGHT && Printable(ch)
    ensures Shows(PutChar(s, ch), p.(rows := WithRow(p, [Ink(SPACE, p.color)]), x := 1))
  {
    var s1 := Write(s, ch);
    assert s1.cells[..SCREEN] == s.cells[..SCREEN];
    ScrollShowsNewRow(s, s1, p);
    SpaceLooksEmpty(PutChar(s, ch), p);
  }

  lemma EmitShows(s: Screen, p: Sheet, out: Out)
    requires Shows(s, p)
    ensures Shows(Emit(s, out), LossyOne(p, out))
  {
    if out.Char? {
      if out.c == NEWLINE {
        NewlineShows(s, p);
      } else if Printable(out.c) {
        if p.x < WIDTH {
          WriteShowsChar(s, p, out.c);
        } else if |p.rows| < HEIGHT {
          WrapShows(s, p, out.c);
        } else {
          SpillShows(s, p, out.c);
        }
      }
    }
  }

  /** What the screen shows after any output: control characters, tabs, returns and changes of color included. */
  lemma {:induction false} PrintShowsLossy(s: Screen, outs: seq<Out>)
    ensures Shows(EmitAll(ClearScreen(s), outs), LossyLayout(s.color, outs))
  {
    if outs != [] {
      var n := |outs| - 1;
      PrintShowsLossy(s, outs[..n]);
      EmitShows(EmitAll(ClearScreen(s), outs[..n]), LossyLayout(s.color, outs[..n]), outs[n]);
    }
  }

  // ------------------------------------------------------ what is lost, and when ---

  /**
    The rows whose first character is missing: wrapped beyond the 25th row,
    not begun by a space, and not written over after a return.
   */
  function LostRows(outs: seq<Out>): set<nat>
  {
    if outs == [] then {}
    else LostAfter(LostRows(outs[..|outs| - 1]), Layout(0, outs[..|outs| - 1]), outs[|outs| - 1])
  }

  function LostAfter(lost: set<nat>, p: Sheet, out: Out): set<nat>
    requires p.rows != []
  {
    if Lost(p, out) && out.c != SPACE then lost + {|p.rows|}
    else if out.Char? && Printable(out.c) && p.x == 0 then lost - {|p.rows| - 1}
    else lost
  }

  /** Where the rows break does not depend on the color the screen was cleared in. */
  lemma {:induction false} GroundIsColorOnly(ground: Byte, outs: seq<Out>)
    ensures |Layout(ground, outs).rows| == |Layout(0, outs).rows| && Layout(ground, outs).x == Layout(0, outs).x
    ensures Layout(ground, outs).ground == ground
  {
    if outs != [] {
      GroundIsColorOnly(ground, outs[..|outs| - 1]);
    }
  }

  /** `rows` and `shown` have the same shape and differ exactly in the first characters of the lost rows. */
  ghost predicate DifferIn(rows: seq<Row>, shown: seq<Row>, lost: set<nat>)
  {
    && |shown| == |rows|
    && (forall r :: 0 <= r < |rows| ==> |shown[r].inks| == |rows[r].inks| && shown[r].ground == rows[r].ground)
    && (forall r, k :: 0 <= r < |rows| && 0 <= k < |rows[r].inks| ==>
          (shown[r].inks[k].c != rows[r].inks[k].c <==> k == 0 && r in lost)
          && shown[r].inks[k].color == rows[r].inks[k].color)
    && (forall r :: r in lost ==> HEIGHT <= r < |rows| && rows[r].inks != [])
  }

  ghost predicate SheetsDiffer(p: Sheet, q: Sheet, lost: set<nat>)
  {
    p.x == q.x && p.color == q.color && p.ground == q.ground && DifferIn(p.rows, q.rows, lost)
  }

  lemma PutDiffers(rows: seq<Row>, shown: seq<Row>, lost: set<nat>, x: nat, ink: Ink)
    requires rows != [] && shown != [] && DifferIn(rows, shown, lost)
    ensures DifferIn(PutInLast(rows, x, ink), PutInLast(shown, x, ink), if x == 0 then lost - {|rows| - 1} else lost)
  {
    var n := |rows| - 1;
    assert |shown[n].inks| == |rows[n].inks| && shown[n].ground == rows[n].ground;
  }

  lemma AddedRowDiffers(rows: seq<Row>, shown: seq<Row>, lost: set<nat>, row: Row, c: CChar)
    requires DifferIn(rows, shown, lost) && |row.inks| <= 1 && (row.inks != [] && c != row.inks[0].c ==> |rows| >= HEIGHT)
    ensures var row' := if row.inks == [] then row else row.(inks := [row.inks[0].(c := c)]);
      DifferIn(rows + [row], shown + [row'], if row' != row then lost + {|rows|} else lost)
  {
  }

  lemma LayDiffers(p: Sheet, q: Sheet, lost: set<nat>, out: Out)
    requires p.rows != [] && q.rows != [] && SheetsDiffer(p, q, lost)
    ensures SheetsDiffer(LayOne(p, out), LossyOne(q, out), LostAfter(lost, p, out))
  {
    if out.Char? && out.c == NEWLINE {
      AddedRowDiffers(p.rows, q.rows, lost, NewRow(p, []), SPACE);
    } else if out.Char? && Printable(out.c) && p.x < WIDTH {
      PutDiffers(p.rows, q.rows, lost, p.x, Ink(out.c, p.color));
    } else if out.Char? && Printable(out.c) {
      AddedRowDiffers(p.rows, q.rows, lost, NewRow(p, [Ink(out.c, p.color)]), if Lost(q, out) then SPACE else out.c);
    }
  }

  lemma {:induction false} LossyDiffers(ground: Byte, outs: seq<Out>)
    ensures SheetsDiffer(Layout(ground, outs), LossyLayout(ground, outs), LostRows(outs))
  {
    if outs != [] {
      var n := |outs| - 1;
      LossyDiffers(ground, outs[..n]);
      GroundIsColorOnly(ground, outs[..n]);
      LayDiffers(Layout(ground, outs[..n]), LossyLayout(ground, outs[..n]), LostRows(outs[..n]), outs[n]);
    }
  }

  lemma {:induction false} LayoutAreRows(ground: Byte, outs: seq<Out>)
    ensures AreRows(Layout(ground, outs).rows)
  {
    if outs != [] {
      LayoutAreRows(ground, outs[..|outs| - 1]);
      LayKeepsRows(Layout(ground, outs[..|outs| - 1]), outs[|outs| - 1]);
    }
  }

  /** Every lost row has scrolled off a screen that ends with row `n - 1`. */
  ghost predicate ScrolledOff(lost: set<nat>, n: nat)
  {
    forall r :: r in lost ==> r + HEIGHT < n
  }

  lemma SameRowsShown(s: Screen, p: Sheet, q: Sheet, lost: set<nat>)
    requires AreRows(p.rows) && Displays(s, q.rows, q.ground) && SheetsDiffer(p, q, lost) && ScrolledOff(lost, |p.rows|)
    ensures Displays(s, p.rows, p.ground)
  {
    forall r: nat, c: nat | r < HEIGHT && c < WIDTH
      ensures s.cells[r * WIDTH + c] == CellOf(p.rows, p.ground, r, c)
    {
      assert s.cells[r * WIDTH + c] == CellOf(q.rows, q.ground, r, c);
      var v := Visible(p.rows, r);
      assert v !in lost;
    }
  }

  lemma LostRowShows(s: Screen, p: Sheet, q: Sheet, lost: set<nat>, r: nat)
    requires AreRows(p.rows) && Displays(s, q.rows, q.ground) && SheetsDiffer(p, q, lost)
    requires r in lost && r + HEIGHT >= |p.rows|
    ensures !Displays(s, p.rows, p.ground)
  {
    var y: nat, x: nat := r + HEIGHT - |p.rows|, 0;
    var ink, shown := p.rows[r].inks[0], q.rows[r].inks[0];
    assert shown.c != ink.c && shown.color == ink.color;
    assert s.cells[y * WIDTH + x] == CellOf(q.rows, q.ground, y, x);
    assert CellOf(p.rows, p.ground, y, x) == Glyph(ink.color, ink.c) && CellOf(q.rows, q.ground, y, x) == Glyph(shown.color, shown.c);
    assert CellOf(p.rows, p.ground, y, x) != CellOf(q.rows, q.ground, y, x);
  }

  /** The final screen shows the last 25 rows of any output exactly if every lost row has scrolled off. */
  lemma FinalScreenIff(s: Screen, outs: seq<Out>)
    ensures Displays(EmitAll(ClearScreen(s), outs), Layout(s.color, outs).rows, s.color)
       <==> ScrolledOff(LostRows(outs), |Layout(s.color, outs).rows|)
  {
    LossyDiffers(s.color, outs);
    GroundIsColorOnly(s.color, outs);
    LayoutAreRows(s.color, outs);
    PrintShowsLossy(s, outs);
    var s1, p, q := EmitAll(ClearScreen(s), outs), Layout(s.color, outs), LossyLayout(s.color, outs);
    if ScrolledOff(LostRows(outs), |p.rows|) {
      SameRowsShown(s1, p, q, LostRows(outs));
    } else {
      var r :| r in LostRows(outs) && r + HEIGHT >= |p.rows|;
      LostRowShows(s1, p, q, LostRows(outs), r);
    }
  }

  ghost predicate ShownThroughout(s: Screen, outs: seq<Out>)
  {
    forall n :: 0 <= n <= |outs| ==> Displays(EmitAll(ClearScreen(s), outs[..n]), Layout(s.color, outs[..n]).rows, s.color)
  }

  /** Sending `out` on the sheet `p` loses a visible character. */
  predicate Loses(p: Sheet, out: Out)
  {
    Lost(p, out) && out.c != SPACE
  }

  /** No visible character has to start a wrapped row beyond the 25th. */
  predicate NeverLoses(outs: seq<Out>)
  {
    outs == [] || (NeverLoses(outs[..|outs| - 1]) && !Loses(Layout(0, outs[..|outs| - 1]), outs[|outs| - 1]))
  }

  lemma {:induction false} NothingLost(outs: seq<Out>, n: nat)
    requires NeverLoses(outs) && n <= |outs|
    ensures LostRows(outs[..n]) == {}
    decreases |outs|
  {
    if n < |outs| {
      NothingLost(outs[..|outs| - 1], n);
      assert outs[..|outs| - 1][..n] == outs[..n];
    } else if outs != [] {
      NothingLost(outs[..|outs| - 1], n - 1);
      assert outs[..|outs| - 1][..n - 1] == outs[..|outs| - 1] && outs[..n] == outs;
    }
  }

  /** A row is lost the moment it is begun. */
  lemma {:induction false} LostWhenBegun(ground: Byte, outs: seq<Out>) returns (n: nat)
    requires !NeverLoses(outs)
    ensures n <= |outs| && !ScrolledOff(LostRows(outs[..n]), |Layout(ground, outs[..n]).rows|)
  {
    var init := outs[..|outs| - 1];
    if !NeverLoses(init) {
      n := LostWhenBegun(ground, init);
      assert init[..n] == outs[..n];
    } else {
      n := |outs|;
      assert outs[..n] == outs;
      GroundIsColorOnly(ground, outs);
      assert |Layout(0, init).rows| in LostRows(outs);
    }
  }

  /**
    The screen shows the last 25 rows after every step of the output exactly
    when no visible character has to start a wrapped row beyond the 25th:
    wrapping is done before scrolling, so such a character is lost.
   */
  lemma ShownThroughoutIff(s: Screen, outs: seq<Out>)
    ensures ShownThroughout(s, outs) <==> NeverLoses(outs)
  {
    if NeverLoses(outs) {
      forall n | 0 <= n <= |outs|
        ensures Displays(EmitAll(ClearScreen(s), outs[..n]), Layout(s.color, outs[..n]).rows, s.color)
      {
        NothingLost(outs, n);
        FinalScreenIff(s, outs[..n]);
      }
    } else {
      var n := LostWhenBegun(s.color, outs);
      FinalScreenIff(s, outs[..n]);
    }
  }

  // ------------------------------------------------------------ short lines ---

  /** Printable characters, newlines and changes of color. */
  ghost predicate IsText(outs: seq<Out>)
  {
    forall i :: 0 <= i < |outs| && outs[i].Char? ==> outs[i].c == NEWLINE || Printable(outs[i].c)
  }

  /** The color in force after the output. */
  function ColorAfter(ground: Byte, outs: seq<Out>): Byte
  {
    if outs == [] then ground
    else if outs[|outs| - 1].Color? then outs[|outs| - 1].color
    else ColorAfter(ground, outs[..|outs| - 1])
  }

  /** The output split at its newlines, each character with the color in force. */
  function Lines(ground: Byte, outs: seq<Out>): (lines: seq<seq<Ink>>)
    ensures lines != []
  {
    if outs == [] then [[]]
    else
      var init, out := outs[..|outs| - 1], outs[|outs| - 1];
      var lines := Lines(ground, init);
      if out.Color? then lines
      else if out.c == NEWLINE then lines + [[]]
      else lines[|lines| - 1 := lines[|lines| - 1] + [Ink(out.c, ColorAfter(ground, init))]]
  }

  ghost predicate ShortLines(ground: Byte, outs: seq<Out>)
  {
    forall i :: 0 <= i < |Lines(ground, outs)| ==> |Lines(ground, outs)[i]| <= WIDTH
  }

  lemma ShortLinesPrefix(ground: Byte, outs: seq<Out>)
    requires outs != [] && ShortLines(ground, outs)
    ensures ShortLines(ground, outs[..|outs| - 1])
  {
    var lines, all := Lines(ground, outs[..|outs| - 1]), Lines(ground, outs);
    forall i | 0 <= i < |lines|
      ensures |lines[i]| <= WIDTH
    {
      assert |lines[i]| <= |all[i]|;
    }
  }

  /** The rows are the lines. */
  ghost predicate RowsAreLines(p: Sheet, lines: seq<seq<Ink>>)
  {
    && |p.rows| == |lines|
    && (forall i :: 0 <= i < |lines| ==> p.rows[i].inks == lines[i])
    && lines != [] && p.x == |lines[|lines| - 1]|
  }

  lemma {:induction false} ShortLinesNeverWrap(ground: Byte, outs: seq<Out>)
    requires IsText(outs) && ShortLines(ground, outs)
    ensures RowsAreLines(Layout(ground, outs), Lines(ground, outs)) && LostRows(outs) == {}
    ensures Layout(ground, outs).color == ColorAfter(ground, outs)
  {
    if outs != [] {
      var init, out := outs[..|outs| - 1], outs[|outs| - 1];
      ShortLinesPrefix(ground, outs);
      ShortLinesNeverWrap(ground, init);
      GroundIsColorOnly(ground, init);
      var p, lines := Layout(ground, init), Lines(ground, init);
      if out.Char? && out.c != NEWLINE {
        assert |Lines(ground, outs)[|lines| - 1]| == |lines[|lines| - 1]| + 1;
        assert PutAt(LastRow(p.rows), p.x, Ink(out.c, p.color)).inks == lines[|lines| - 1] + [Ink(out.c, p.color)];
      }
    }
  }

  /**
    Lines of at most 80 characters: the screen shows exactly the last 25 of
    them, each character in the color it was printed in, and spaces after them.
   */
  lemma LastLinesAreShown(s: Screen, outs: seq<Out>, r: nat, c: nat)
    requires IsText(outs) && ShortLines(s.color, outs) && r < 25 && c < 80
    ensures var lines := Lines(s.color, outs);
      var v := if |lines| > 25 then |lines| - 25 + r else r;
      var cell := EmitAll(ClearScreen(s), outs).cells[r * 80 + c];
      if v < |lines| && c < |lines[v]| then
        cell == lines[v][c].color * 256 + lines[v][c].c
      else
        cell % 256 == 32
  {
    ShortLinesNeverWrap(s.color, outs);
    FinalScreenIff(s, outs);
    CellIsOfLine(Layout(s.color, outs), Lines(s.color, outs), s.color, r, c);
  }

  lemma CellIsOfLine(p: Sheet, lines: seq<seq<Ink>>, ground: Byte, r: nat, c: nat)
    requires AreRows(p.rows) && RowsAreLines(p, lines) && r < 25 && c < 80
    ensures var v := if |lines| > 25 then |lines| - 25 + r else r;
      if v < |lines| && c < |lines[v]| then
        CellOf(p.rows, ground, r, c) == lines[v][c].color * 256 + lines[v][c].c
      else
        CellOf(p.rows, ground, r, c) % 256 == 32
  {
  }
}
