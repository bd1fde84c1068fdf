/** The shell's line on the screen over whole sessions: every key, Enter included, with whatever the commands print. */
module ShellSpec {
  import opened ConsoleSpec
  import opened EditorSpec

  /** What a command does to the console: it may clear it, and it prints a text. */
  datatype Reply = Reply(clear: bool, text: string)

  /** The edited line, the screen, and the row its prompt was printed on. */
  datatype Shell = Shell(z: Zipper, screen: Screen, row: nat)

  ghost predicate Sane(sh: Shell) {
    IsText(Text(sh.z)) && Shaped(sh.screen) && 1 <= sh.row <= 24
  }

  /** The cursor is kept off row 0 before a prompt. */
  ghost function AtLine(s: Screen): Screen {
    if s.y < 1 then s.(x := 0, y := 1) else s
  }

  /** A fresh line: the prompt, wherever the cursor is. */
  ghost function Fresh(s: Screen): (sh: Shell)
    requires Valid(s)
    ensures Sane(sh)
  {
    Shell(Zipper("", ""), Print(AtLine(s), Coloured(PROMPT, s.attr)), AtLine(s).y)
  }

  ghost function Answered(s: Screen, r: Reply): (t: Screen)
    requires Valid(s)
    ensures Valid(t)
  {
    Print(if r.clear then Cleared(s.attr) else s, Coloured(r.text, s.attr))
  }

  /** The line redrawn, with the cursor in its place. */
  ghost function Redone(sh: Shell, z: Zipper): (t: Shell)
    requires Shaped(sh.screen) && 1 <= sh.row <= 24
    ensures Shaped(t.screen) && t.row == sh.row
  {
    var s := Redrawn(sh.screen, sh.row, Text(z));
    Shell(z, s.(x := (9 + |z.left|) % 80, y := CursorRow(sh.row, |z.left|)), sh.row)
  }

  /** A key other than Enter. */
  ghost function Edited(sh: Shell, c: int): (t: Shell)
    requires Sane(sh)
    ensures Sane(t) && t.z == Press(sh.z, c)
  {
    PressIsText(sh.z, c);
    if Press(sh.z, c) == sh.z then sh else Redone(sh, Press(sh.z, c))
  }

  /** The screen on which the next line is begun. */
  ghost function AfterEnter(sh: Shell, reply: string -> Reply): (s: Screen)
    requires Sane(sh)
    ensures Valid(s)
  {
    Answered(Putc(sh.screen, '\n'), reply(Text(sh.z)))
  }

  ghost function KeyStep(sh: Shell, c: int, reply: string -> Reply): (t: Shell)
    requires Sane(sh)
    ensures Sane(t)
  {
    if c == ENTER then Fresh(AfterEnter(sh, reply)) else Edited(sh, c)
  }

  ghost function ShellRun(sh: Shell, keys: seq<int>, reply: string -> Reply): (t: Shell)
    requires Sane(sh)
    ensures Sane(t)
    decreases |keys|
  {
    if keys == [] then sh else KeyStep(ShellRun(sh, keys[..|keys| - 1], reply), keys[|keys| - 1], reply)
  }

  /** The line that a run edits is that of the session. */
  lemma {:induction false} ShellRunSession(sh: Shell, keys: seq<int>, reply: string -> Reply)
    requires Sane(sh)
    ensures ShellRun(sh, keys, reply).z == Session(sh.z, keys).0
    decreases |keys|
  {
    if keys != [] { ShellRunSession(sh, keys[..|keys| - 1], reply); }
  }

  // ---- a right display ----

  /** The screen shows prompt, text and blanks, with room for one more, and the cursor in its place. */
  ghost predicate Right(sh: Shell) {
    && Displayed(sh.screen.cells, sh.row, Text(sh.z)) && Fits(sh.row, sh.z)
    && sh.screen.x == (9 + |sh.z.left|) % 80 && sh.screen.y == CursorRow(sh.row, |sh.z.left|)
  }

  ghost predicate BlankFrom(cells: seq<Cell>, start: nat) {
    |cells| == CELLS && forall q: nat :: start <= q < CELLS ==> cells[q].ch == ' '
  }

  /** Where a prompt starts a right line: at the start of a row with nothing behind the prompt's place, or just past
      the end of the last row, where it scrolls. */
  ghost predicate Starts(s: Screen) {
    var t := AtLine(s);
    (t.x == 0 && BlankFrom(t.cells, TextStart(t.y))) || (t.x == 80 && t.y == 24)
  }

  /** Printing less than a line: where the cursor ends up. */
  lemma {:induction false} CursorAfter(s: Screen, text: seq<Cell>)
    requires Valid(s) && OneLine(text) && |text| <= 80
    ensures var t := Print(s, text);
      if s.x + |text| <= 80 then t.x == s.x + |text| && t.y == s.y
      else t.x == s.x + |text| - 80 && t.y == if s.y < 24 then s.y + 1 else 24
    decreases |text|
  {
    if text != [] { CursorAfter(s, text[..|text| - 1]); }
  }

  /** Past the end of a row, printing goes on as on the next. */
  lemma {:induction false} PrintWraps(s: Screen, text: seq<Cell>)
    requires Valid(s) && s.x == 80 && OneLine(text) && text != [] && text[0].attr == s.attr
    ensures Print(s, text) == Print(Newline(s), text)
    decreases |text|
  {
    var n := |text| - 1;
    if n == 0 {
      assert text[..0] == [];
    } else {
      PrintWraps(s, text[..n]);
    }
  }

  lemma PromptOneLine(attr: nat)
    ensures OneLine(Coloured(PROMPT, attr)) && |Coloured(PROMPT, attr)| == 9
  {
  }

  /** The prompt, printed at the start of a row: right if and only if nothing follows it. */
  lemma PromptAtStart(s: Screen)
    requires Valid(s) && 1 <= s.y && s.x == 0
    ensures Right(Fresh(s)) <==> BlankFrom(s.cells, TextStart(s.y))
  {
    var ink, t := Coloured(PROMPT, s.attr), Fresh(s).screen;
    PromptOneLine(s.attr);
    PrintLinear(s, ink);
    CursorAfter(s, ink);
    PromptCells(s, t);
  }

  lemma PromptCells(s: Screen, t: Screen)
    requires Valid(s) && 1 <= s.y && Shaped(t)
    requires t.cells == s.cells[..s.y * 80] + Coloured(PROMPT, s.attr) + s.cells[s.y * 80 + 9..]
    ensures Displayed(t.cells, s.y, "") <==> BlankFrom(s.cells, TextStart(s.y))
  {
    var ink, a := Coloured(PROMPT, s.attr), TextStart(s.y);
    forall q: nat | s.y * 80 <= q < a ensures t.cells[q].ch == Wanted(s.y, "", q) {
      assert t.cells[q] == ink[q - s.y * 80];
    }
    forall q: nat | a <= q < CELLS ensures t.cells[q] == s.cells[q] && Wanted(s.y, "", q) == ' ' {
    }
    if Displayed(t.cells, s.y, "") {
      forall q: nat | a <= q < CELLS ensures s.cells[q].ch == ' ' { assert t.cells[q].ch == Wanted(s.y, "", q); }
    }
  }

  lemma LastRowBlank(s: Screen)
    requires Valid(s) && s.y == 24
    ensures BlankFrom(Newline(s).cells, 1920) && Newline(s).y == 24 && Newline(s).x == 0
  {
    forall q: nat | 1920 <= q < CELLS ensures Newline(s).cells[q].ch == ' ' { ScrolledIndex(s.cells, s.attr, q); }
  }

  /** A fresh line is right if and only if it is started in such a place. */
  lemma StartsExactly(s: Screen)
    requires Valid(s)
    ensures Right(Fresh(s)) <==> Starts(s)
  {
    var t, ink := AtLine(s), Coloured(PROMPT, s.attr);
    PromptOneLine(s.attr);
    CursorAfter(t, ink);
    if t.x == 0 {
      PromptAtStart(t);
      assert Fresh(s) == Fresh(t);
    } else if t.x == 80 && t.y == 24 {
      PrintWraps(t, ink);
      LastRowBlank(t);
      PromptAtStart(Newline(t));
      assert Fresh(t) == Fresh(Newline(t));
    }
  }

  // ---- every key ----

  /** What a key has to meet for the display to stay right: the text fits, or the next line is started well. */
  ghost predicate Good(sh: Shell, c: int, reply: string -> Reply)
    requires Sane(sh)
  {
    if c == ENTER then Starts(AfterEnter(sh, reply)) else Fits(sh.row, Press(sh.z, c))
  }

  lemma KeyShowsExactly(sh: Shell, c: int, reply: string -> Reply)
    requires Sane(sh) && Right(sh)
    ensures Right(KeyStep(sh, c, reply)) <==> Good(sh, c, reply)
  {
    if c == ENTER {
      StartsExactly(AfterEnter(sh, reply));
    } else {
      DrawShowsExactly(sh.screen, sh.row, sh.z, c);
    }
  }

  ghost predicate RightAfter(sh: Shell, keys: seq<int>, reply: string -> Reply, k: nat)
    requires Sane(sh)
  {
    k <= |keys| && Right(ShellRun(sh, keys[..k], reply))
  }

  ghost predicate GoodAt(sh: Shell, keys: seq<int>, reply: string -> Reply, k: nat)
    requires Sane(sh)
  {
    k < |keys| && Good(ShellRun(sh, keys[..k], reply), keys[k], reply)
  }

  lemma ShellRunSnoc(sh: Shell, keys: seq<int>, reply: string -> Reply, k: nat)
    requires Sane(sh) && k < |keys|
    ensures ShellRun(sh, keys[..k + 1], reply) == KeyStep(ShellRun(sh, keys[..k], reply), keys[k], reply)
  {
    assert keys[..k + 1][..k] == keys[..k];
  }

  /** Over any sequence of keys, Enter included, the screen is right at every moment if and only if the text fits after
      every edit and every Enter leaves the cursor where a line can be started. */
  lemma ShownThroughoutExactly(sh: Shell, keys: seq<int>, reply: string -> Reply, n: nat)
    requires Sane(sh) && Right(sh) && n <= |keys|
    ensures (forall k: nat :: k <= n ==> RightAfter(sh, keys, reply, k)) <==>
      (forall k: nat :: k < n ==> GoodAt(sh, keys, reply, k))
  {
    var right, good := (k: nat) => RightAfter(sh, keys, reply, k), (k: nat) => GoodAt(sh, keys, reply, k);
    assert keys[..0] == [];
    forall k: nat | k < n && right(k) ensures right(k + 1) <==> good(k) { NextExactly(sh, keys, reply, k); }
    StepByStep(right, good, n);
    assert forall k: nat :: right(k) <==> RightAfter(sh, keys, reply, k);
    assert forall k: nat :: good(k) <==> GoodAt(sh, keys, reply, k);
  }

  /** What holds at first, and goes on holding exactly under a condition on each step, holds all the time exactly if
      every step meets the condition. */
  lemma {:induction false} StepByStep(right: nat -> bool, good: nat -> bool, n: nat)
    requires right(0) && forall k: nat :: k < n && right(k) ==> (right(k + 1) <==> good(k))
    ensures (forall k: nat :: k <= n ==> right(k)) <==> (forall k: nat :: k < n ==> good(k))
    decreases n
  {
    if n > 0 {
      StepByStep(right, good, n - 1);
      assert right(n - 1) ==> (right(n - 1 + 1) <==> good(n - 1));
    }
  }

  lemma NextExactly(sh: Shell, keys: seq<int>, reply: string -> Reply, k: nat)
    requires Sane(sh) && k < |keys| && RightAfter(sh, keys, reply, k)
    ensures RightAfter(sh, keys, reply, k + 1) <==> GoodAt(sh, keys, reply, k)
  {
    ShellRunSnoc(sh, keys, reply, k);
    KeyShowsExactly(ShellRun(sh, keys[..k], reply), keys[k], reply);
  }

  // ---- Enter ----

  /** The first character of the text that stands behind the prompt's place on the row after the cursor's. */
  ghost function PastCursorRow(sh: Shell): nat {
    ((9 + |sh.z.left|) / 80 + 1) * 80
  }

  ghost predicate BlankTail(t: string, start: nat) {
    forall k :: start <= k < |t| ==> t[k] == ' '
  }

  /** Enter breaks the line at the cursor, not at the end of the text. After a command that prints nothing the next
      line is right if and only if the old text has nothing but blanks past the cursor's row. */
  lemma EnterExactly(sh: Shell, reply: string -> Reply)
    requires Sane(sh) && Right(sh) && reply(Text(sh.z)) == Reply(false, "")
    ensures Right(KeyStep(sh, ENTER, reply)) <==> BlankTail(Text(sh.z), PastCursorRow(sh))
  {
    var s := Newline(sh.screen);
    KeyShowsExactly(sh, ENTER, reply);
    assert Coloured("", sh.screen.attr) == [];
    assert AfterEnter(sh, reply) == s;
    CursorOnScreenExactly(sh.row, |sh.z.left|);
    if sh.screen.y == 24 {
      LastRowBlank(sh.screen);
      NothingPast(sh);
    } else {
      NextRowBlank(sh);
    }
  }

  lemma NothingPast(sh: Shell)
    requires Right(sh) && sh.screen.y == 24
    ensures |Text(sh.z)| <= PastCursorRow(sh)
  {
  }

  lemma NextRowBlank(sh: Shell)
    requires Sane(sh) && Right(sh) && sh.screen.y < 24
    ensures BlankFrom(sh.screen.cells, TextStart(sh.screen.y + 1)) <==> BlankTail(Text(sh.z), PastCursorRow(sh))
  {
    var t, a, p := Text(sh.z), TextStart(sh.row), PastCursorRow(sh);
    assert TextStart(sh.screen.y + 1) == a + p;
    forall q: nat | a + p <= q < CELLS
      ensures sh.screen.cells[q].ch == if q - a < |t| then t[q - a] else ' '
    {
      assert sh.screen.cells[q].ch == Wanted(sh.row, t, q);
    }
    if BlankFrom(sh.screen.cells, a + p) {
      forall k | p <= k < |t| ensures t[k] == ' ' { assert sh.screen.cells[a + k].ch == ' '; }
    }
  }

  /** A command that clears the screen and prints nothing always starts the next line right. */
  lemma ClearStarts(sh: Shell, reply: string -> Reply)
    requires Sane(sh) && reply(Text(sh.z)) == Reply(true, "")
    ensures Right(KeyStep(sh, ENTER, reply))
  {
    assert Coloured("", sh.screen.attr) == [];
    StartsExactly(AfterEnter(sh, reply));
  }

  // ---- what a command prints ----

  lemma {:induction false} PrintConcat(s: Screen, a: seq<Cell>, b: seq<Cell>)
    requires Valid(s)
    ensures Print(s, a + b) == Print(Print(s, a), b)
    decreases |b|
  {
    if b == [] {
      assert a + b == a;
    } else {
      var n := |b| - 1;
      assert (a + b)[..|a| + n] == a + b[..n];
      PrintConcat(s, a, b[..n]);
    }
  }

  /** The colour of what has been printed last. */
  lemma {:induction false} KeepsColour(s: Screen, t: string)
    requires Valid(s)
    ensures Print(s, Coloured(t, s.attr)).attr == s.attr
  {
    if t != "" {
      var n := |t| - 1;
      assert Coloured(t, s.attr)[..n] == Coloured(t[..n], s.attr);
      KeepsColour(s, t[..n]);
    }
  }

  /** A reply and the prompt after it, printed below row 0. */
  lemma ReplyThenPrompt(s: Screen, t: string)
    requires Valid(s) && s.y >= 1
    ensures Fresh(Print(s, Coloured(t, s.attr))).screen == Print(s, Coloured(t + "valen >> ", s.attr))
  {
    var ink := Coloured(t, s.attr);
    KeepsColour(s, t);
    RowZeroKept(s, ink);
    PrintConcat(s, ink, Coloured(PROMPT, s.attr));
    ColouredConcat(t, PROMPT, s.attr);
  }

  lemma ColouredConcat(a: string, b: string, attr: nat)
    ensures Coloured(a + b, attr) == Coloured(a, attr) + Coloured(b, attr)
  {
  }

  /** After a command that clears the screen, it shows what the command printed and the prompt, and nothing else. */
  lemma ReplyShown(sh: Shell, reply: string -> Reply)
    requires Sane(sh) && reply(Text(sh.z)).clear
    ensures Shows(KeyStep(sh, 10, reply).screen, Lines(Coloured(reply(Text(sh.z)).text + "valen >> ", sh.screen.attr)))
  {
    var t, attr := reply(Text(sh.z)).text, sh.screen.attr;
    ReplyThenPrompt(Cleared(attr), t);
    PrintShows(attr, Coloured(t + "valen >> ", attr));
  }

  /** After any other command, on a screen that shows a text: the line break, what the command printed and the prompt
      come after it. */
  lemma ReplyAppended(sh: Shell, attr: nat, text: seq<Cell>, reply: string -> Reply)
    requires Sane(sh) && sh.screen == Print(Cleared(attr), text) && !reply(Text(sh.z)).clear
    ensures var more := Coloured("\n" + reply(Text(sh.z)).text + "valen >> ", sh.screen.attr);
      && KeyStep(sh, 10, reply).screen == Print(Cleared(attr), text + more)
      && Shows(KeyStep(sh, 10, reply).screen, Lines(text + more))
  {
    var t, a := reply(Text(sh.z)).text, sh.screen.attr;
    var more, s := Coloured("\n" + t + "valen >> ", a), Putc(sh.screen, '\n');
    assert Coloured("\n", a)[..0] == [] && Print(sh.screen, Coloured("\n", a)) == s;
    ReplyThenPrompt(s, t);
    PrintConcat(sh.screen, Coloured("\n", a), Coloured(t + "valen >> ", a));
    ColouredConcat("\n", t + "valen >> ", a);
    assert "\n" + (t + "valen >> ") == "\n" + t + "valen >> ";
    PrintConcat(Cleared(attr), text, more);
    PrintShows(attr, text + more);
  }

  // ---- a run on which the next line is wrong ----

  function Xs(n: nat): seq<int> {
    seq(n, _ => 'x' as int)
  }

  function Lefts(n: nat): seq<int> {
    seq(n, _ => -1)
  }

  lemma {:induction false} TypedXs(n: nat)
    requires n <= MAX_TEXT
    ensures PressAll(Zipper("", ""), Xs(n)) == Zipper(seq(n, _ => 'x'), "")
  {
    if n == 0 {
      assert Xs(0) == [] && seq(0, _ => 'x') == "";
    } else {
      assert Xs(n)[..n - 1] == Xs(n - 1);
      TypedXs(n - 1);
      assert seq(n - 1, _ => 'x') + ['x'] == seq(n, _ => 'x');
    }
  }

  lemma {:induction false} WentLeft(t: string, m: nat)
    requires m <= |t|
    ensures PressAll(Zipper(t, ""), Lefts(m)) == Zipper(t[..|t| - m], t[|t| - m..])
    decreases m
  {
    if m == 0 {
      assert Lefts(0) == [] && t[..|t|] == t && t[|t|..] == "";
    } else {
      assert Lefts(m)[..m - 1] == Lefts(m - 1);
      WentLeft(t, m - 1);
      var k := |t| - m;
      assert t[..k + 1][..k] == t[..k] && [t[k]] + t[k + 1..] == t[k..];
    }
  }

  lemma {:induction false} PressAllConcat(z: Zipper, a: seq<int>, b: seq<int>)
    ensures PressAll(z, a + b) == PressAll(PressAll(z, a), b)
    decreases |b|
  {
    if b == [] {
      assert a + b == a;
    } else {
      var n := |b| - 1;
      assert (a + b)[..|a| + n] == a + b[..n];
      PressAllConcat(z, a, b[..n]);
    }
  }

  /** Without Enter the line stays on its row, and every key adds at most one character. */
  lemma {:induction false} SameRow(sh: Shell, keys: seq<int>, reply: string -> Reply)
    requires Sane(sh) && ENTER !in keys
    ensures var t := ShellRun(sh, keys, reply);
      t.row == sh.row && t.z == PressAll(sh.z, keys) && |Text(t.z)| <= |Text(sh.z)| + |keys|
    decreases |keys|
  {
    if keys != [] { SameRow(sh, keys[..|keys| - 1], reply); }
  }

  /** On a cleared screen: 90 characters, the cursor moved back to the first of them, and Enter. Nothing has scrolled
      and the text has fitted all the time; still the next prompt is followed by the rest of the old line. */
  lemma OldTextRun(attr: nat, reply: string -> Reply)
    requires reply(seq(90, _ => 'x')) == Reply(false, "")
    ensures var sh, keys := Fresh(Cleared(attr)), Xs(90) + Lefts(90);
      Right(ShellRun(sh, keys, reply)) && !Right(ShellRun(sh, keys + [ENTER], reply))
  {
    var sh, keys, t := Fresh(Cleared(attr)), Xs(90) + Lefts(90), seq(90, _ => 'x');
    RightSoFar(attr, reply);
    BackToStart(sh, reply);
    var end := ShellRun(sh, keys, reply);
    assert Text(end.z) == t && Text(end.z)[80] == 'x' && PastCursorRow(end) == 80;
    EnterExactly(end, reply);
    assert (keys + [ENTER])[..180] == keys;
  }

  lemma RightSoFar(attr: nat, reply: string -> Reply)
    ensures Right(ShellRun(Fresh(Cleared(attr)), Xs(90) + Lefts(90), reply))
  {
    var sh, keys := Fresh(Cleared(attr)), Xs(90) + Lefts(90);
    StartsExactly(Cleared(attr));
    forall k: nat | k < 180 ensures GoodAt(sh, keys, reply, k) {
      SameRow(sh, keys[..k], reply);
      assert keys[k] != ENTER;
    }
    ShownThroughoutExactly(sh, keys, reply, 180);
    assert keys[..180] == keys && RightAfter(sh, keys, reply, 180);
  }

  lemma BackToStart(sh: Shell, reply: string -> Reply)
    requires Sane(sh) && sh.z == Zipper("", "")
    ensures ShellRun(sh, Xs(90) + Lefts(90), reply).z == Zipper("", seq(90, _ => 'x'))
  {
    var t := seq(90, _ => 'x');
    SameRow(sh, Xs(90) + Lefts(90), reply);
    PressAllConcat(Zipper("", ""), Xs(90), Lefts(90));
    TypedXs(90);
    WentLeft(t, 90);
    assert t[..0] == "" && t[0..] == t;
  }
}
