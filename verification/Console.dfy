/** The console as the kernel keeps it: one cell buffer and a cursor, updated in place. */
module Console {
  import opened ConsoleSpec

  class Terminal {
    const buffer: array<Cell>
    var x: nat
    var y: nat
    var attr: nat

    /** The cursor's row may be off the screen. */
    ghost predicate Shaped()
      reads this, buffer
    {
      buffer.Length == CELLS && ConsoleSpec.Shaped(View())
    }

    ghost predicate Ok()
      reads this, buffer
    {
      buffer.Length == CELLS && Valid(View())
    }

    ghost function View(): Screen
      reads this, buffer
    {
      Screen(buffer[..], x, y, attr)
    }

    constructor (attr: nat)
      ensures Ok() && fresh(buffer) && View() == Cleared(attr)
    {
      buffer := new Cell[2000](_ => Cell(' ', attr));
      x, y, this.attr := 0, 1, attr;
    }

    method SetColor(color: nat)
      requires Ok()
      modifies this`attr
      ensures Ok() && View() == old(View()).(attr := color)
    {
      attr := color;
    }

    /** Takes any row, on the screen or not. */
    method SetCursor(cx: nat, cy: nat)
      requires Shaped() && cx <= 80
      modifies this`x, this`y
      ensures Shaped() && View() == old(View()).(x := cx, y := cy)
    {
      x, y := cx, cy;
    }

    /** Blanks the whole screen, row 0 included, and homes the cursor below it. */
    method Clear()
      requires Ok()
      modifies this`x, this`y, buffer
      ensures Ok() && View() == Cleared(attr)
    {
      var blank := Cell(' ', attr);
      for i := 0 to 2000
        invariant forall k :: 0 <= k < i ==> buffer[k] == blank
      {
        buffer[i] := blank;
      }
      x, y := 0, 1;
    }

    method Newline()
      requires Shaped()
      modifies this`x, this`y, buffer
      ensures Ok() && View() == ConsoleSpec.Newline(old(View()))
    {
      x := 0;
      if y < 24 {
        y := y + 1;
      } else {
        ScrollUp();
        y := 24;
      }
    }

    method ScrollUp()
      requires buffer.Length == CELLS
      modifies buffer
      ensures buffer[..] == Scrolled(old(buffer[..]), attr)
    {
      for row := 1 to 24
        invariant forall k :: 0 <= k < 80 ==> buffer[k] == old(buffer[k])
        invariant forall k :: 80 <= k < row * 80 ==> buffer[k] == old(buffer[k + 80])
        invariant forall k :: row * 80 <= k < 2000 ==> buffer[k] == old(buffer[k])
      {
        for col := 0 to 80
          invariant forall k :: 0 <= k < 80 ==> buffer[k] == old(buffer[k])
          invariant forall k :: 80 <= k < row * 80 + col ==> buffer[k] == old(buffer[k + 80])
          invariant forall k :: row * 80 + col <= k < 2000 ==> buffer[k] == old(buffer[k])
        {
          buffer[row * 80 + col] := buffer[(row + 1) * 80 + col];
        }
      }
      var blank := Cell(' ', attr);
      for col := 0 to 80
        invariant forall k :: 0 <= k < 80 ==> buffer[k] == old(buffer[k])
        invariant forall k :: 80 <= k < 1920 ==> buffer[k] == old(buffer[k + 80])
        invariant forall k :: 1920 <= k < 1920 + col ==> buffer[k] == blank
      {
        buffer[24 * 80 + col] := blank;
      }
      ghost var was := old(buffer[..]);
      forall k | 0 <= k < CELLS ensures buffer[..][k] == Scrolled(was, attr)[k] {
        ScrolledIndex(was, attr, k);
        if 80 <= k < 1920 { assert was[k + 80] == old(buffer[k + 80]); }
      }
    }

    method Putc(c: char)
      requires Shaped() && (y <= 24 || c == '\n')
      modifies this`x, this`y, buffer
      ensures Ok() && View() == ConsoleSpec.Putc(old(View()), c)
    {
      if c == '\n' {
        Newline();
        return;
      }
      if x >= 80 {
        Newline();
      }
      buffer[y * 80 + x] := Cell(c, attr);
      x := x + 1;
    }

    /** Prints a string in the current colour. */
    method Puts(s: string)
      requires Ok()
      modifies this`x, this`y, buffer
      ensures Ok() && View() == Print(old(View()), Coloured(s, attr))
    {
      ghost var text := Coloured(s, attr);
      for i := 0 to |s|
        invariant Ok() && attr == old(attr) && View() == Print(old(View()), text[..i])
      {
        Putc(s[i]);
        assert text[..i + 1][..i] == text[..i];
        PrintColour(old(View()), text[..i]);
      }
      assert text[..|s|] == text;
    }
  }

  /** Printing in one colour leaves the colour alone. */
  lemma {:induction false} PrintColour(s: Screen, text: seq<Cell>)
    requires Valid(s) && forall k :: 0 <= k < |text| ==> text[k].attr == s.attr
    ensures Print(s, text).attr == s.attr
    decreases |text|
  {
  }
}
