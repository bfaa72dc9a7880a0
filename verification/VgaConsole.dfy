/**
  The console of `kernel/kernel_main64.cpp` as it runs: the text buffer and
  the cursor are changed in place, and every method is one of `Console`'s
  operations on the view of the screen.
 */
module VgaConsole {
  import opened CText
  import opened Console
  import opened Numbers
  import opened Words

  class Vga {
    const buffer: array<int>
    var cursorX: nat
    var cursorY: nat
    var color: Byte

    ghost predicate Valid()
      reads this
    {
      buffer.Length == WINDOW && cursorY < HEIGHT
    }

    ghost function View(): Screen
      requires buffer.Length == WINDOW
      reads this, buffer
    {
      Screen(buffer[..], cursorX, cursorY, color)
    }

    constructor (buffer: array<int>)
      requires buffer.Length == WINDOW
      ensures Valid() && this.buffer == buffer
      ensures cursorX == 0 && cursorY == 0 && color == 0x07
    {
      this.buffer := buffer;
      cursorX, cursorY, color := 0, 0, 0x07;
    }

    method SetColor(c: Byte)
      requires Valid()
      modifies this`color
      ensures Valid() && View() == old(View()).(color := c)
    {
      color := c;
    }

    method ClearScreen()
      requires buffer.Length == WINDOW
      modifies this`cursorX, this`cursorY, buffer
      ensures Valid() && View() == Console.ClearScreen(old(View()))
      ensures forall j :: 0 <= j < WINDOW ==> buffer[j] == if j < 2000 then color * 256 + 32 else old(buffer[j])
      ensures cursorX == 0 && cursorY == 0
    {
      var blank := Blank(color);
      for i := 0 to SCREEN
        invariant forall j :: 0 <= j < WINDOW ==> buffer[j] == if j < i then blank else old(buffer[j])
      {
        buffer[i] := blank;
      }
      cursorX, cursorY := 0, 0;
      assert buffer[..] == Console.ClearScreen(old(View())).cells;
    }

    /** The copy runs upwards within one buffer: each cell is read before it is overwritten. */
    method MoveRowsUp()
      requires buffer.Length == WINDOW
      modifies buffer
      ensures forall j :: 0 <= j < WINDOW ==>
        buffer[j] == if j < SCREEN - WIDTH then old(buffer[j + WIDTH]) else old(buffer[j])
    {
      for y := 1 to HEIGHT
        invariant forall j :: 0 <= j < WINDOW ==>
          buffer[j] == if j < (y - 1) * WIDTH then old(buffer[j + WIDTH]) else old(buffer[j])
      {
        for x := 0 to WIDTH
          invariant forall j :: 0 <= j < WINDOW ==>
            buffer[j] == if j < (y - 1) * WIDTH + x then old(buffer[j + WIDTH]) else old(buffer[j])
        {
          var src := y * WIDTH + x;
          var dst := (y - 1) * WIDTH + x;
          buffer[dst] := buffer[src];
        }
      }
    }

    method ScrollUp()
      requires buffer.Length == WINDOW
      modifies this`cursorY, buffer
      ensures Valid() && View() == Console.ScrollUp(old(View()))
      ensures forall j :: 0 <= j < 1920 ==> buffer[j] == old(buffer[j + 80])
      ensures forall j :: 1920 <= j < 2000 ==> buffer[j] == color * 256 + 32
      ensures forall j :: 2000 <= j < WINDOW ==> buffer[j] == old(buffer[j])
      ensures cursorY == 24
    {
      MoveRowsUp();
      ghost var moved := buffer[..];
      var blank := Blank(color);
      var lastLineStart := (HEIGHT - 1) * WIDTH;
      for x := 0 to WIDTH
        invariant forall j :: 0 <= j < WINDOW ==>
          buffer[j] == if lastLineStart <= j < lastLineStart + x then blank else moved[j]
      {
        buffer[lastLineStart + x] := blank;
      }
      cursorY := HEIGHT - 1;
      assert buffer[..] == Console.ScrollUp(old(View())).cells;
    }

    method PutChar(c: CChar)
      requires Valid()
      modifies this`cursorX, this`cursorY, buffer
      ensures Valid() && View() == Console.PutChar(old(View()), c)
    {
      if c == NEWLINE {
        cursorX := 0;
        cursorY := cursorY + 1;
      } else if c == RETURN {
        cursorX := 0;
      } else if c == TAB {
        cursorX := TabStop(cursorX);
      } else if c >= 32 {
        if cursorX >= WIDTH {
          cursorX := 0;
          cursorY := cursorY + 1;
        }
        var index := cursorY * WIDTH + cursorX;
        buffer[index] := Glyph(color, c);
        cursorX := cursorX + 1;
        assert View() == Write(old(View()), c);
      }
      if cursorY >= HEIGHT {
        ScrollUp();
      }
    }

    method Print(text: seq<CChar>)
      requires Valid()
      modifies this`cursorX, this`cursorY, buffer
      ensures Valid() && View() == Console.Print(old(View()), text)
    {
      for i := 0 to |text|
        invariant Valid() && View() == Console.Print(old(View()), text[..i])
      {
        assert text[..i + 1][..i] == text[..i];
        PutChar(text[i]);
      }
      assert text[..|text|] == text;
    }

    method PrintDec(value: Word64)
      requires Valid()
      modifies this`cursorX, this`cursorY, buffer
      ensures Valid() && View() == Console.Print(old(View()), Dec(value))
    {
      var text := FormatDec(value);
      Print(text);
    }

    method PrintHex(value: Word64)
      requires Valid()
      modifies this`cursorX, this`cursorY, buffer
      ensures Valid() && View() == Console.Print(old(View()), HexText(value))
    {
      var text := FormatHex(value);
      Print(text);
    }
  }
}
