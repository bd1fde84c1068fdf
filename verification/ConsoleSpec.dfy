/** The 80 by 25 text console: what printing does to the screen, and the unbounded wrapped text it shows. */
module ConsoleSpec {

  /** A character with its colour attribute. */
  datatype Cell = Cell(ch: char, attr: nat)

  const CELLS: nat := 2000

  datatype Screen = Screen(cells: seq<Cell>, x: nat, y: nat, attr: nat)

  /** The cursor's row may lie below the screen: placing the cursor does not check it. */
  ghost predicate Shaped(s: Screen) {
    |s.cells| == CELLS && s.x <= 80
  }

  /** The cursor is on the screen. It may stand just past the end of a line. */
  ghost predicate Valid(s: Screen) {
    Shaped(s) && s.y <= 24
  }

  function Blank(attr: nat): Cell {
    Cell(' ', attr)
  }

  // ---- the operations ----

  function Cleared(attr: nat): (s: Screen)
    ensures |s.cells| == CELLS
  {
    Screen(seq(CELLS, _ => Blank(attr)), 0, 1, attr)
  }

  /** Rows 1 to 24 move up by one; the bottom row becomes blank; row 0 stays. */
  function Scrolled(cells: seq<Cell>, attr: nat): (r: seq<Cell>)
    requires |cells| == CELLS
    ensures |r| == CELLS
  {
    seq(CELLS, i requires 0 <= i < CELLS =>
      if i < 80 then cells[i] else if i < 1920 then cells[i + 80] else Blank(attr))
  }

  function Newline(s: Screen): Screen
    requires |s.cells| == CELLS
  {
    if s.y < 24 then s.(x := 0, y := s.y + 1)
    else s.(cells := Scrolled(s.cells, s.attr), x := 0, y := 24)
  }

  function Write(s: Screen, c: char): Screen
    requires |s.cells| == CELLS && s.x < 80 && s.y <= 24
  {
    s.(cells := s.cells[s.y * 80 + s.x := Cell(c, s.attr)], x := s.x + 1)
  }

  /** A line break brings the cursor back onto the screen wherever it was; anything else must be on it. */
  ghost function Putc(s: Screen, c: char): (t: Screen)
    requires Shaped(s) && (s.y <= 24 || c == '\n')
    ensures Valid(t)
  {
    if c == '\n' then Newline(s)
    else if s.x >= 80 then Write(Newline(s), c)
    else Write(s, c)
  }

  /** Printing characters, each in its own colour. */
  ghost function Print(s: Screen, text: seq<Cell>): (t: Screen)
    requires Valid(s)
    ensures Valid(t)
    decreases |text|
  {
    if text == [] then s
    else var n := |text| - 1; Putc(Print(s, text[..n]).(attr := text[n].attr), text[n].ch)
  }

  /** A string in one colour. */
  ghost function Coloured(t: string, attr: nat): seq<Cell> {
    seq(|t|, i requires 0 <= i < |t| => Cell(t[i], attr))
  }

  // ---- the text, wrapped at 80 columns ----

  ghost function FirstBreak(text: seq<Cell>, i: nat): (b: nat)
    requires i <= |text|
    ensures i <= b <= |text|
    ensures b < |text| ==> text[b].ch == '\n'
    ensures forall k :: i <= k < b ==> text[k].ch != '\n'
    decreases |text| - i
  {
    if i == |text| || text[i].ch == '\n' then i else FirstBreak(text, i + 1)
  }

  /** A paragraph cut into lines of 80; a full line is not followed by an empty one. */
  ghost function Chunks(p: seq<Cell>): (ls: seq<seq<Cell>>)
    ensures |ls| > 0 && forall k :: 0 <= k < |ls| ==> |ls[k]| <= 80
    decreases |p|
  {
    if |p| <= 80 then [p] else [p[..80]] + Chunks(p[80..])
  }

  /** All lines of a text: its paragraphs, each cut into lines. */
  ghost function Lines(text: seq<Cell>): (ls: seq<seq<Cell>>)
    ensures |ls| > 0 && forall k :: 0 <= k < |ls| ==> |ls[k]| <= 80
    decreases |text|
  {
    var b := FirstBreak(text, 0);
    if b == |text| then Chunks(text) else Chunks(text[..b]) + Lines(text[b + 1..])
  }

  ghost function Last(ls: seq<seq<Cell>>): seq<Cell>
    requires ls != []
  {
    ls[|ls| - 1]
  }

  /** One more character at the end of the text. */
  ghost function Extended(ls: seq<seq<Cell>>, g: Cell): seq<seq<Cell>>
    requires ls != []
  {
    if g.ch == '\n' then ls + [[]]
    else if |Last(ls)| >= 80 then ls + [[g]]
    else ls[|ls| - 1 := Last(ls) + [g]]
  }

  lemma ExtendedConcat(a: seq<seq<Cell>>, ls: seq<seq<Cell>>, g: Cell)
    requires ls != []
    ensures Extended(a + ls, g) == a + Extended(ls, g)
  {
  }

  lemma {:induction false} ChunksSnoc(p: seq<Cell>, g: Cell)
    requires g.ch != '\n'
    ensures Chunks(p + [g]) == Extended(Chunks(p), g)
    decreases |p|
  {
    if |p| == 80 {
      assert (p + [g])[..80] == p && (p + [g])[80..] == [g];
    } else if |p| > 80 {
      assert (p + [g])[..80] == p[..80] && (p + [g])[80..] == p[80..] + [g];
      ChunksSnoc(p[80..], g);
      ExtendedConcat([p[..80]], Chunks(p[80..]), g);
    }
  }

  lemma {:induction false} BreakSnoc(text: seq<Cell>, g: Cell, i: nat)
    requires i <= |text|
    ensures FirstBreak(text, i) < |text| ==> FirstBreak(text + [g], i) == FirstBreak(text, i)
    ensures FirstBreak(text, i) == |text| ==>
      FirstBreak(text + [g], i) == if g.ch == '\n' then |text| else |text| + 1
    decreases |text| - i
  {
    if i < |text| && text[i].ch != '\n' { BreakSnoc(text, g, i + 1); }
  }

  /** The lines of a longer text, from the lines of the shorter one. */
  lemma {:induction false} LinesSnoc(text: seq<Cell>, g: Cell)
    ensures Lines(text + [g]) == Extended(Lines(text), g)
    decreases |text|
  {
    var b := FirstBreak(text, 0);
    BreakSnoc(text, g, 0);
    if b < |text| {
      assert (text + [g])[..b] == text[..b] && (text + [g])[b + 1..] == text[b + 1..] + [g];
      LinesSnoc(text[b + 1..], g);
      ExtendedConcat(Chunks(text[..b]), Lines(text[b + 1..]), g);
    } else if g.ch == '\n' {
      assert (text + [g])[..b] == text && (text + [g])[b + 1..] == [];
      assert Lines([]) == [[]];
    } else {
      ChunksSnoc(text, g);
    }
  }

  // ---- what the screen shows ----

  ghost function At(cells: seq<Cell>, k: nat, i: nat): Cell
    requires |cells| == CELLS && k <= 24 && i < 80
  {
    cells[80 * k + i]
  }

  ghost predicate RowShows(cells: seq<Cell>, k: nat, line: seq<Cell>)
    requires |cells| == CELLS && k <= 24
  {
    && |line| <= 80
    && (forall i: nat :: i < |line| ==> At(cells, k, i) == line[i])
    && (forall i: nat :: |line| <= i < 80 ==> At(cells, k, i).ch == ' ')
  }

  /** The line that row k shows when the cursor is in row y, at the end of the last line. */
  ghost function LineFor(ls: seq<seq<Cell>>, y: nat, k: nat): seq<Cell>
    requires y <= |ls|
  {
    if 1 <= k <= y then ls[|ls| - y + k - 1] else []
  }

  /** Rows 1 to 24 show the last 24 lines (or all of them, from the top), padded with blanks, and the cursor
      stands at the end of the last line. */
  ghost predicate Shows(s: Screen, ls: seq<seq<Cell>>)
    requires Valid(s)
  {
    && ls != [] && s.y == (if |ls| < 24 then |ls| else 24) && s.x == |Last(ls)|
    && forall k: nat :: 1 <= k <= 24 ==> RowShows(s.cells, k, LineFor(ls, s.y, k))
  }

  lemma ClearedShows(attr: nat)
    ensures Valid(Cleared(attr)) && Shows(Cleared(attr), Lines([]))
  {
  }

  lemma ScrolledIndex(cells: seq<Cell>, attr: nat, i: nat)
    requires |cells| == CELLS && i < CELLS
    ensures Scrolled(cells, attr)[i] ==
      if i < 80 then cells[i] else if i < 1920 then cells[i + 80] else Blank(attr)
  {
  }

  lemma ScrolledAt(cells: seq<Cell>, attr: nat, k: nat, i: nat)
    requires |cells| == CELLS && k <= 24 && i < 80
    ensures At(Scrolled(cells, attr), k, i) ==
      if k == 0 then At(cells, 0, i) else if k < 24 then At(cells, k + 1, i) else Blank(attr)
  {
  }

  /** Starting a new line, at the end of the text. */
  lemma NewlineShows(s: Screen, ls: seq<seq<Cell>>)
    requires Valid(s) && Shows(s, ls)
    ensures Shows(Newline(s), ls + [[]])
  {
    var t, ms := Newline(s), ls + [[]];
    forall k: nat | 1 <= k <= 24 ensures RowShows(t.cells, k, LineFor(ms, t.y, k)) {
      if s.y < 24 {
        assert LineFor(ms, t.y, k) == LineFor(ls, s.y, k);
        assert RowShows(s.cells, k, LineFor(ls, s.y, k));
      } else {
        forall i: nat | i < 80 ensures At(t.cells, k, i) == if k < 24 then At(s.cells, k + 1, i) else Blank(s.attr) {
          ScrolledAt(s.cells, s.attr, k, i);
        }
        if k < 24 {
          assert LineFor(ms, 24, k) == LineFor(ls, 24, k + 1);
          assert RowShows(s.cells, k + 1, LineFor(ls, 24, k + 1));
        } else {
          assert LineFor(ms, 24, 24) == [];
        }
      }
    }
  }

  lemma WriteAt(s: Screen, c: char, k: nat, i: nat)
    requires |s.cells| == CELLS && s.x < 80 && s.y <= 24 && k <= 24 && i < 80
    ensures At(Write(s, c).cells, k, i) == if k == s.y && i == s.x then Cell(c, s.attr) else At(s.cells, k, i)
  {
  }

  /** Writing one character at the end of the last line. */
  lemma WriteShows(s: Screen, c: char, ls: seq<seq<Cell>>)
    requires Valid(s) && Shows(s, ls) && s.x < 80
    ensures Valid(Write(s, c)) && Shows(Write(s, c), ls[|ls| - 1 := Last(ls) + [Cell(c, s.attr)]])
  {
    var g, t := Cell(c, s.attr), Write(s, c);
    var ms := ls[|ls| - 1 := Last(ls) + [g]];
    forall k: nat | 1 <= k <= 24 ensures RowShows(t.cells, k, LineFor(ms, t.y, k)) {
      forall i: nat | i < 80 ensures At(t.cells, k, i) == if k == s.y && i == s.x then g else At(s.cells, k, i) {
        WriteAt(s, c, k, i);
      }
      assert RowShows(s.cells, k, LineFor(ls, s.y, k));
      assert LineFor(ms, t.y, k) == if k == s.y then Last(ls) + [g] else LineFor(ls, s.y, k);
    }
  }

  lemma PutcShows(s: Screen, g: Cell, ls: seq<seq<Cell>>)
    requires Valid(s) && Shows(s, ls) && s.attr == g.attr
    ensures Shows(Putc(s, g.ch), Extended(ls, g))
  {
    if g.ch == '\n' || s.x >= 80 { NewlineShows(s, ls); }
    if g.ch != '\n' {
      if s.x >= 80 {
        WriteShows(Newline(s), g.ch, ls + [[]]);
        assert Last(ls + [[]]) + [g] == [g];
        assert (ls + [[]])[|ls| := [g]] == ls + [[g]];
      } else {
        WriteShows(s, g.ch, ls);
      }
    }
  }

  /** From a cleared screen on, whatever is printed and in whatever colours: rows 1 to 24 are the last 24
      lines of the text wrapped at 80 columns, and the cursor is at its end. */
  lemma {:induction false} PrintShows(attr: nat, text: seq<Cell>)
    ensures Valid(Cleared(attr)) && Shows(Print(Cleared(attr), text), Lines(text))
    decreases |text|
  {
    ClearedShows(attr);
    if text != [] {
      var n := |text| - 1;
      PrintShows(attr, text[..n]);
      var s := Print(Cleared(attr), text[..n]);
      PutcShows(s.(attr := text[n].attr), text[n], Lines(text[..n]));
      LinesSnoc(text[..n], text[n]);
      assert text[..n] + [text[n]] == text;
    }
  }

  /** Row 0 belongs to the status bar: printing never touches it, from any screen whose cursor is below it. */
  lemma {:induction false} RowZeroKept(s: Screen, text: seq<Cell>)
    requires Valid(s) && s.y >= 1
    ensures Print(s, text).cells[..80] == s.cells[..80] && Print(s, text).y >= 1
    decreases |text|
  {
    if text != [] { RowZeroKept(s, text[..|text| - 1]); }
  }

  /** Clearing the screen spares row 0 if and only if there is nothing on it, in the current colour. */
  lemma ClearSparesRowZeroExactly(s: Screen)
    requires Shaped(s)
    ensures Cleared(s.attr).cells[..80] == s.cells[..80] <==> forall i :: 0 <= i < 80 ==> s.cells[i] == Blank(s.attr)
  {
    var was, now := s.cells[..80], Cleared(s.attr).cells[..80];
    assert forall i :: 0 <= i < 80 ==> was[i] == s.cells[i] && now[i] == Blank(s.attr);
  }
}
