/** The shell's line editor as two strings around a cursor, and what redrawing the line does to the screen. */
module EditorSpec {
  import opened ConsoleSpec

  const PROMPT: string := "valen >> "
  const MAX_TEXT: nat := 255

  /** The text before and after the cursor. */
  datatype Zipper = Zipper(left: string, right: string)

  function Text(z: Zipper): string {
    z.left + z.right
  }

  predicate Printable(c: int) {
    32 <= c <= 126
  }

  ghost predicate IsText(t: string) {
    |t| <= MAX_TEXT && forall i :: 0 <= i < |t| ==> Printable(t[i] as int)
  }

  /** One key other than Enter: 8 is backspace, -1 and -2 are the arrows; what does not apply is ignored. */
  function Press(z: Zipper, c: int): Zipper {
    var n := |z.left|;
    if c == 8 && n > 0 then z.(left := z.left[..n - 1])
    else if c == -1 && n > 0 then Zipper(z.left[..n - 1], [z.left[n - 1]] + z.right)
    else if c == -2 && z.right != [] then Zipper(z.left + [z.right[0]], z.right[1..])
    else if Printable(c) && |Text(z)| < MAX_TEXT then z.(left := z.left + [c as char])
    else z
  }

  /** The guards of the key branches. */
  predicate Applies(z: Zipper, c: int) {
    || (c == 8 && z.left != []) || (c == -1 && z.left != []) || (c == -2 && z.right != [])
    || (Printable(c) && |Text(z)| < MAX_TEXT)
  }

  /** A key that is not ignored always changes the text or the cursor. */
  lemma AppliesExactly(z: Zipper, c: int)
    ensures Press(z, c) != z <==> Applies(z, c)
  {
    if Applies(z, c) { assert |Press(z, c).left| != |z.left|; }
  }

  /** Every key by its number: blank to tilde are inserted while there are fewer than 255 characters, 8 deletes, -1 and
      -2 move, and nothing else does anything. */
  lemma KeysExactly(z: Zipper, c: int)
    ensures var n, full := |z.left|, |z.left| + |z.right| >= 255;
      && (32 <= c <= 126 && !full ==> Press(z, c) == Zipper(z.left + [c as char], z.right))
      && (32 <= c <= 126 && full ==> Press(z, c) == z)
      && (c == 8 && n > 0 ==> Press(z, c) == Zipper(z.left[..n - 1], z.right))
      && (c == -1 && n > 0 ==> Press(z, c) == Zipper(z.left[..n - 1], z.left[n - 1..] + z.right))
      && (c == -2 && z.right != "" ==> Press(z, c) == Zipper(z.left + z.right[..1], z.right[1..]))
      && (c in {8, -1} && n == 0 ==> Press(z, c) == z) && (c == -2 && z.right == "" ==> Press(z, c) == z)
      && (c < -2 || 0 <= c < 8 || 8 < c < 32 || c > 126 ==> Press(z, c) == z)
  {
    var n := |z.left|;
    if c == -1 && n > 0 { assert z.left[n - 1..] == [z.left[n - 1]]; }
    if c == -2 && z.right != "" { assert z.right[..1] == [z.right[0]]; }
  }

  function PressAll(z: Zipper, cs: seq<int>): Zipper
    decreases |cs|
  {
    if cs == [] then z else Press(PressAll(z, cs[..|cs| - 1]), cs[|cs| - 1])
  }

  /** Whatever is typed, the text stays printable and within 255 characters. */
  lemma {:induction false} PressAllIsText(z: Zipper, cs: seq<int>)
    requires IsText(Text(z))
    ensures IsText(Text(PressAll(z, cs)))
    decreases |cs|
  {
    if cs != [] {
      PressAllIsText(z, cs[..|cs| - 1]);
      PressIsText(PressAll(z, cs[..|cs| - 1]), cs[|cs| - 1]);
    }
  }

  lemma PressIsText(z: Zipper, c: int)
    requires IsText(Text(z))
    ensures IsText(Text(Press(z, c)))
  {
    var t, u := Text(z), Text(Press(z, c));
    var n := |z.left|;
    forall i | 0 <= i < |u| ensures Printable(u[i] as int) {
      if c == 8 && n > 0 {
        assert u[i] == if i < n - 1 then t[i] else t[i + 1];
      } else if c == -1 || c == -2 {
        assert u == t;
      } else if Printable(c) && |t| < MAX_TEXT {
        assert u[i] == if i < n then t[i] else if i == n then c as char else t[i - 1];
      }
    }
  }

  /** Backspace undoes a typed character; the arrows undo each other. */
  lemma Undo(z: Zipper, c: int)
    ensures Printable(c) && |Text(z)| < MAX_TEXT ==> Press(Press(z, c), 8) == z
    ensures z.left != [] ==> Press(Press(z, -1), -2) == z
    ensures z.right != [] ==> Press(Press(z, -2), -1) == z
  {
    if Printable(c) && |Text(z)| < MAX_TEXT {
      assert (z.left + [c as char])[..|z.left|] == z.left;
    }
    if z.left != [] {
      assert z.left[..|z.left| - 1] + [z.left[|z.left| - 1]] == z.left;
      assert ([z.left[|z.left| - 1]] + z.right)[1..] == z.right;
    }
    if z.right != [] {
      assert (z.left + [z.right[0]])[..|z.left|] == z.left;
      assert [z.right[0]] + z.right[1..] == z.right;
    }
  }

  // ---- whole sessions, Enter included ----

  const ENTER: int := 10

  /** Any keys: the line being edited, and the commands that Enter has submitted so far. */
  function Session(z: Zipper, keys: seq<int>): (Zipper, seq<string>)
    decreases |keys|
  {
    if keys == [] then (z, []) else
    var n := |keys| - 1;
    var before := Session(z, keys[..n]);
    if keys[n] == ENTER then (Zipper("", ""), before.1 + [Text(before.0)])
    else (Press(before.0, keys[n]), before.1)
  }

  /** Between two Enters nothing is submitted and the line is edited key by key. */
  lemma {:induction false} NoEnter(z: Zipper, keys: seq<int>)
    requires ENTER !in keys
    ensures Session(z, keys) == (PressAll(z, keys), [])
    decreases |keys|
  {
    if keys != [] { NoEnter(z, keys[..|keys| - 1]); }
  }

  /** A session is its lines: the first Enter submits the text typed up to it, and what follows is a session
      from an empty line. */
  lemma {:induction false} SessionSplits(z: Zipper, line: seq<int>, rest: seq<int>)
    requires ENTER !in line
    ensures var after := Session(Zipper("", ""), rest);
      Session(z, line + [ENTER] + rest) == (after.0, [Text(PressAll(z, line))] + after.1)
    decreases |rest|
  {
    var first := [Text(PressAll(z, line))];
    if rest == [] {
      assert line + [ENTER] + rest == line + [ENTER];
      SessionSnoc(z, line, ENTER);
      NoEnter(z, line);
      assert [] + first == first + [];
    } else {
      var m := |rest| - 1;
      var early := line + [ENTER] + rest[..m];
      assert line + [ENTER] + rest == early + [rest[m]];
      SessionSplits(z, line, rest[..m]);
      SessionSnoc(z, early, rest[m]);
      var later := Session(Zipper("", ""), rest[..m]);
      assert first + later.1 + [Text(later.0)] == first + (later.1 + [Text(later.0)]);
    }
  }

  lemma SessionSnoc(z: Zipper, keys: seq<int>, c: int)
    ensures var before := Session(z, keys);
      Session(z, keys + [c]) ==
        if c == ENTER then (Zipper("", ""), before.1 + [Text(before.0)]) else (Press(before.0, c), before.1)
  {
    assert (keys + [c])[..|keys|] == keys;
  }

  /** The keys that type a text. */
  function KeysOf(t: string): (cs: seq<int>)
    ensures |cs| == |t| && forall i :: 0 <= i < |t| ==> cs[i] == t[i] as int
  {
    seq(|t|, i requires 0 <= i < |t| => t[i] as int)
  }

  /** Any text from blank to tilde that is typed on an empty line is there, up to 255 characters of it. */
  lemma {:induction false} TypedText(t: string)
    requires forall i :: 0 <= i < |t| ==> 32 <= t[i] as int <= 126
    ensures PressAll(Zipper("", ""), KeysOf(t)) == Zipper(if |t| <= 255 then t else t[..255], "")
    decreases |t|
  {
    if t != "" {
      var n := |t| - 1;
      assert KeysOf(t)[..n] == KeysOf(t[..n]);
      TypedText(t[..n]);
      KeysExactly(PressAll(Zipper("", ""), KeysOf(t[..n])), t[n] as int);
      assert t[..n] + [t[n]] == t;
      if n >= 255 { assert t[..n][..255] == t[..255]; }
    }
  }

  /** And Enter, key 10, submits it. */
  lemma TypedAndEntered(t: string)
    requires |t| <= 255 && forall i :: 0 <= i < |t| ==> 32 <= t[i] as int <= 126
    ensures Session(Zipper("", ""), KeysOf(t) + [10]) == (Zipper("", ""), [t])
  {
    assert 10 !in KeysOf(t);
    TypedText(t);
    NoEnter(Zipper("", ""), KeysOf(t));
    SessionSnoc(Zipper("", ""), KeysOf(t), 10);
    assert Text(Zipper(t, "")) == t;
    assert [] + [t] == [t];
  }

  function CountEnters(keys: seq<int>): nat {
    if keys == [] then 0 else CountEnters(keys[..|keys| - 1]) + if keys[|keys| - 1] == ENTER then 1 else 0
  }

  /** One command for each Enter; each of them, and the line being edited, is a printable text that fits. */
  lemma {:induction false} SessionIsText(z: Zipper, keys: seq<int>)
    requires IsText(Text(z))
    ensures var s := Session(z, keys);
      IsText(Text(s.0)) && |s.1| == CountEnters(keys) && forall k :: 0 <= k < |s.1| ==> IsText(s.1[k])
    decreases |keys|
  {
    if keys != [] {
      var n := |keys| - 1;
      SessionIsText(z, keys[..n]);
      PressIsText(Session(z, keys[..n]).0, keys[n]);
    }
  }

  // ---- positions counted through the whole screen ----

  ghost function Linear(s: Screen): nat {
    s.y * 80 + s.x
  }

  ghost predicate OneLine(text: seq<Cell>) {
    forall i :: 0 <= i < |text| ==> text[i].ch != '\n'
  }

  lemma PutcLinear(s: Screen, c: char)
    requires Valid(s) && Linear(s) < CELLS && c != '\n'
    ensures Putc(s, c).cells == s.cells[Linear(s) := Cell(c, s.attr)]
    ensures Linear(Putc(s, c)) == Linear(s) + 1 && Putc(s, c).attr == s.attr
  {
  }

  /** As long as the screen is not full, printing without line breaks overwrites the cells in order. */
  lemma {:induction false} PrintLinear(s: Screen, text: seq<Cell>)
    requires Valid(s) && OneLine(text) && Linear(s) + |text| <= CELLS
    requires forall i :: 0 <= i < |text| ==> text[i].attr == s.attr
    ensures var t := Print(s, text);
      && Linear(t) == Linear(s) + |text| && t.attr == s.attr
      && t.cells == s.cells[..Linear(s)] + text + s.cells[Linear(s) + |text|..]
    decreases |text|
  {
    var a := Linear(s);
    if text == [] {
      assert s.cells[..a] + text + s.cells[a..] == s.cells;
    } else {
      var n := |text| - 1;
      PrintLinear(s, text[..n]);
      PutcLinear(Print(s, text[..n]), text[n].ch);
      var was := s.cells[..a] + text[..n] + s.cells[a + n..];
      assert was[a + n := text[n]] == s.cells[..a] + text + s.cells[a + n + 1..];
    }
  }

  // ---- the redrawn line ----

  /** Where the text starts. */
  function TextStart(row: nat): nat {
    row * 80 + 9
  }

  /** The text and one blank, printed over the line from behind the prompt. */
  ghost function Redrawn(s: Screen, row: nat, t: string): Screen
    requires Shaped(s) && row <= 24
  {
    Print(s.(x := 9, y := row), Coloured(t + [' '], s.attr))
  }

  /** The character that position q of the screen should show. */
  ghost function Wanted(row: nat, t: string, q: nat): char
    requires q >= row * 80
  {
    if q < TextStart(row) then PROMPT[q - row * 80]
    else if q < TextStart(row) + |t| then t[q - TextStart(row)]
    else ' '
  }

  /** Prompt, text, then blanks to the end of the screen. */
  ghost predicate Displayed(cells: seq<Cell>, row: nat, t: string) {
    && |cells| == CELLS && row <= 24 && TextStart(row) + |t| <= CELLS
    && forall q: nat :: row * 80 <= q < CELLS ==> cells[q].ch == Wanted(row, t, q)
  }

  /** Redrawing with the text u after it was t shows u, provided u leaves room for one more cell and is at
      most one shorter than t. */
  lemma RedrawShows(s: Screen, row: nat, t: string, u: string)
    requires Shaped(s) && Displayed(s.cells, row, t) && IsText(u)
    requires |t| <= |u| + 1 && TextStart(row) + |u| < CELLS
    ensures Displayed(Redrawn(s, row, u).cells, row, u)
    ensures Redrawn(s, row, u).cells[..row * 80] == s.cells[..row * 80]
  {
    RedrawCells(s, row, u);
    var a, ink := TextStart(row), Coloured(u + [' '], s.attr);
    var cells := Redrawn(s, row, u).cells;
    forall q: nat | row * 80 <= q < CELLS ensures cells[q].ch == Wanted(row, u, q) {
      if a <= q < a + |ink| { assert cells[q] == ink[q - a]; } else { assert cells[q] == s.cells[q]; }
    }
  }

  lemma RedrawCells(s: Screen, row: nat, u: string)
    requires Shaped(s) && row <= 24 && IsText(u) && TextStart(row) + |u| < CELLS
    ensures var a, ink := TextStart(row), Coloured(u + [' '], s.attr);
      Redrawn(s, row, u).cells == s.cells[..a] + ink + s.cells[a + |ink|..]
  {
    ColouredOneLine(u, s.attr);
    PrintLinear(s.(x := 9, y := row), Coloured(u + [' '], s.attr));
  }

  /** A text that ends in the very last cell: the blank after it scrolls the screen. */
  lemma OverflowCells(s: Screen, row: nat, t: string, u: string)
    requires Shaped(s) && Displayed(s.cells, row, t) && IsText(u) && 1 <= row && TextStart(row) + |u| == CELLS
    ensures var cells := Redrawn(s, row, u).cells;
      && (forall q: nat :: row * 80 <= q < 1920 ==> cells[q].ch == Wanted(row, u, q + 80))
      && (forall q: nat :: 1920 <= q < CELLS ==> cells[q].ch == ' ')
  {
    var ink, all, s0 := Coloured(u, s.attr), Coloured(u + [' '], s.attr), s.(x := 9, y := row);
    ColouredOneLine(u, s.attr);
    assert all[..|u|] == ink && all[|u|] == Cell(' ', s.attr);
    assert OneLine(ink) by { assert forall i :: 0 <= i < |ink| ==> ink[i] == all[i]; }
    PrintLinear(s0, ink);
    var m := Print(s0, ink);
    assert m.y == 24 && m.x == 80;
    FullCells(s, row, t, u, m);
    var cells := Redrawn(s, row, u).cells;
    assert cells == Scrolled(m.cells, s.attr)[1920 := Cell(' ', s.attr)];
    forall q: nat | row * 80 <= q < 1920 ensures cells[q].ch == Wanted(row, u, q + 80) { ScrolledIndex(m.cells, s.attr, q); }
    forall q: nat | 1920 <= q < CELLS ensures cells[q].ch == ' ' { ScrolledIndex(m.cells, s.attr, q); }
  }

  lemma FullCells(s: Screen, row: nat, t: string, u: string, m: Screen)
    requires Shaped(s) && Displayed(s.cells, row, t) && TextStart(row) + |u| == CELLS
    requires m.cells == s.cells[..TextStart(row)] + Coloured(u, s.attr) + s.cells[CELLS..]
    ensures |m.cells| == CELLS && forall q: nat :: row * 80 <= q < CELLS ==> m.cells[q].ch == Wanted(row, u, q)
  {
  }

  /** On a screen that has scrolled, every row shows the one below it; the last is blank, so all would be. */
  lemma {:induction false} BlankUpwards(cells: seq<Cell>, row: nat, u: string, k: nat)
    requires Displayed(cells, row, u) && row <= k <= 24
    requires forall q: nat :: row * 80 <= q < 1920 ==> cells[q].ch == Wanted(row, u, q + 80)
    requires forall q: nat :: 1920 <= q < CELLS ==> cells[q].ch == ' '
    ensures Wanted(row, u, k * 80) == ' '
    decreases 24 - k
  {
    assert cells[k * 80].ch == Wanted(row, u, k * 80);
    if k < 24 {
      BlankUpwards(cells, row, u, k + 1);
      assert (k + 1) * 80 == k * 80 + 80;
    }
  }

  /** Redrawing shows the edited text if and only if the text and the blank after it fit on the screen; the
      prompt's row is fixed when the line is begun, so a line that scrolls the screen is drawn in the wrong
      place from then on. */
  lemma RedrawShowsExactly(s: Screen, row: nat, t: string, u: string)
    requires Shaped(s) && Displayed(s.cells, row, t) && IsText(u) && 1 <= row && |t| <= |u| + 1
    ensures Displayed(Redrawn(s, row, u).cells, row, u) <==> TextStart(row) + |u| < CELLS
  {
    if TextStart(row) + |u| < CELLS {
      RedrawShows(s, row, t, u);
    } else if TextStart(row) + |u| == CELLS {
      OverflowCells(s, row, t, u);
      if Displayed(Redrawn(s, row, u).cells, row, u) {
        BlankUpwards(Redrawn(s, row, u).cells, row, u, row);
      }
    }
  }

  // ---- the display after a key ----

  /** What a key does to the screen: an edit redraws the line, a key that does not apply leaves it alone. */
  ghost function Draw(s: Screen, row: nat, z: Zipper, c: int): (cells: seq<Cell>)
    requires Shaped(s) && row <= 24
    ensures |cells| == CELLS
  {
    if Press(z, c) == z then s.cells else Redrawn(s, row, Text(Press(z, c))).cells
  }

  /** The text, and the blank after it, fit between the prompt and the end of the screen. */
  predicate Fits(row: nat, z: Zipper) {
    TextStart(row) + |Text(z)| < CELLS
  }

  lemma DrawShowsExactly(s: Screen, row: nat, z: Zipper, c: int)
    requires Shaped(s) && 1 <= row <= 24 && IsText(Text(z)) && Displayed(s.cells, row, Text(z)) && Fits(row, z)
    ensures Displayed(Draw(s, row, z, c), row, Text(Press(z, c))) <==> Fits(row, Press(z, c))
  {
    PressIsText(z, c);
    if Press(z, c) != z {
      RedrawShowsExactly(s, row, Text(z), Text(Press(z, c)));
    }
  }

  /** Where the redrawn line puts the cursor. */
  function CursorRow(row: nat, index: nat): nat {
    row + (9 + index) / 80
  }

  /** That row is on the screen if and only if the cursor's place in the text is. */
  lemma CursorOnScreenExactly(row: nat, index: nat)
    ensures CursorRow(row, index) * 80 + (9 + index) % 80 == TextStart(row) + index
    ensures CursorRow(row, index) <= 24 <==> TextStart(row) + index < CELLS
  {
  }

  lemma ColouredOneLine(u: string, attr: nat)
    requires IsText(u)
    ensures OneLine(Coloured(u + [' '], attr))
  {
  }
}
