/** The shell's input line as the kernel keeps it: a 256-byte buffer shifted in place, a cursor index, and the
    redrawing of the line on the console. */
module Editor {
  import opened ConsoleSpec
  import opened Console
  import opened EditorSpec
  import opened ShellSpec

  class LineEditor {
    const buffer: array<char>
    const term: Terminal
    var len: nat
    var cursor: nat
    var promptY: nat

    ghost predicate Ok()
      reads this, buffer, term, term.buffer
    {
      && buffer.Length == 256 && cursor <= len <= MAX_TEXT && IsText(buffer[..len])
      && term.Shaped() && 1 <= promptY <= 24
    }

    ghost function View(): Zipper
      reads this, buffer
      requires buffer.Length == 256 && cursor <= len <= MAX_TEXT
    {
      Zipper(buffer[..cursor], buffer[cursor..len])
    }

    /** Line, screen and prompt row together. */
    ghost function State(): Shell
      reads this, buffer, term, term.buffer
      requires buffer.Length == 256 && cursor <= len <= MAX_TEXT
    {
      Shell(View(), term.View(), promptY)
    }

    constructor (term: Terminal)
      requires term.Ok()
      ensures Ok() && fresh(buffer) && this.term == term && View() == Zipper("", "") && promptY == 1
    {
      buffer := new char[256](_ => '\0');
      this.term := term;
      len, cursor, promptY := 0, 0, 1;
    }

    /** Removes the character before the cursor: everything after it moves left. */
    method DeleteBack()
      requires Ok() && cursor > 0
      modifies this`len, this`cursor, buffer
      ensures Ok() && View() == Press(old(View()), 8) && term.View() == old(term.View()) && len == old(len) - 1
    {
      ghost var b, z := buffer[..], View();
      DeleteZipper(b, cursor, len);
      JoinText(b, cursor, len);
      PressIsText(z, 8);
      ShiftLeft(buffer, cursor - 1, len - 1);
      len := len - 1;
      cursor := cursor - 1;
      JoinText(buffer[..], cursor, len);
    }

    /** Inserts a character at the cursor: everything after it moves right. The buffer is never full here,
        so the two overflow guards that follow the insertion are never entered. */
    method Insert(c: int)
      requires Ok() && Printable(c) && len < 255
      modifies this`len, this`cursor, buffer
      ensures Ok() && View() == Press(old(View()), c) && term.View() == old(term.View()) && len == old(len) + 1
    {
      ghost var b, z := buffer[..], View();
      InsertZipper(b, cursor, len, c as char);
      JoinText(b, cursor, len);
      PressIsText(z, c);
      ShiftRight(buffer, cursor, len);
      buffer[cursor] := c as char;
      InsertedFrom(b, buffer[..], cursor, len, c as char);
      len := len + 1;
      cursor := cursor + 1;
      if len >= 256 {
        assert false;
      }
      if cursor >= 256 {
        assert false;
      }
      JoinText(buffer[..], cursor, len);
    }

    /** Prints the text and one blank over the line, then puts the cursor where it belongs, on the screen or not. */
    method Redraw()
      requires Ok()
      modifies term`x, term`y, term.buffer
      ensures Ok() && term.View() == Redrawn(old(term.View()), promptY, buffer[..len])
        .(x := (9 + cursor) % 80, y := CursorRow(promptY, cursor))
    {
      var total := 9 + cursor;
      ghost var text := buffer[..len];
      ghost var s0, ink := old(term.View()).(x := 9, y := promptY), Coloured(buffer[..len] + [' '], term.attr);
      term.SetCursor(9, promptY);
      for i := 0 to len
        invariant term.Ok() && term.attr == old(term.attr) && buffer[..len] == text
        invariant term.View() == Print(s0, ink[..i])
      {
        term.Putc(buffer[i]);
        assert ink[..i + 1][..i] == ink[..i] && ink[i] == Cell(text[i], term.attr);
      }
      term.Putc(' ');
      assert ink[..len] + [ink[len]] == ink && ink[len] == Cell(' ', term.attr);
      assert term.View() == Print(s0, ink);
      term.SetCursor(total % 80, promptY + total / 80);
    }

    method StepLeft()
      requires Ok() && cursor > 0
      modifies this`cursor
      ensures Ok() && View() == Press(old(View()), -1)
    {
      MoveLeft(buffer[..], cursor, len);
      cursor := cursor - 1;
    }

    method StepRight()
      requires Ok() && cursor < len
      modifies this`cursor
      ensures Ok() && View() == Press(old(View()), -2)
    {
      MoveRight(buffer[..], cursor, len);
      cursor := cursor + 1;
    }

    /** What a key other than Enter does to the buffer; tells whether it applied. */
    method Edit(c: int) returns (applied: bool)
      requires Ok() && c != 10
      modifies this`len, this`cursor, buffer
      ensures Ok() && View() == Press(old(View()), c) && term.View() == old(term.View())
      ensures applied <==> Applies(old(View()), c)
      ensures len == old(len) + 1 <==> 32 <= c <= 126 && old(len) < 255
      ensures len == old(len) - 1 <==> c == 8 && old(cursor) > 0
    {
      applied := true;
      JoinText(buffer[..], cursor, len);
      if c == 8 && cursor > 0 {
        DeleteBack();
      } else if c == -1 && cursor > 0 {
        StepLeft();
      } else if c == -2 && cursor < len {
        StepRight();
      } else if c >= 32 && c <= 126 && len < 255 {
        Insert(c);
      } else {
        applied := false;
      }
    }

    /** One key other than Enter: line, screen and cursor, wherever on or off the screen the line runs. */
    method Input(c: int)
      requires Ok() && c != ENTER
      modifies this`len, this`cursor, buffer, term`x, term`y, term.buffer
      ensures Ok() && Sane(old(State())) && State() == Edited(old(State()), c)
      ensures View() == old(View()) ==> term.View() == old(term.View())
    {
      ghost var z := View();
      JoinText(buffer[..], cursor, len);
      assert buffer[..len] == Text(z);
      AppliesExactly(z, c);
      var applied := Edit(c);
      JoinText(buffer[..], cursor, len);
      assert buffer[..len] == Text(Press(z, c));
      if applied {
        Redraw();
      }
    }

    /** Enter: a line break on the screen, and the text handed to the command interpreter. The buffer is
        emptied before the command runs. */
    method Submit() returns (cmd: string)
      requires Ok()
      modifies this`len, this`cursor, buffer, term`x, term`y, term.buffer
      ensures Ok() && term.Ok() && cmd == Text(old(View())) && View() == Zipper("", "")
      ensures term.View() == Putc(old(term.View()), '\n')
    {
      JoinText(buffer[..], cursor, len);
      ghost var text := buffer[..len];
      buffer[len] := '\0';
      assert buffer[..len] == text;
      term.Putc('\n');
      cmd := CopyString(buffer, len);
      Zero(buffer);
      len, cursor := 0, 0;
    }

    /** Starts a fresh line: remembers the cursor's row and prints the prompt there. */
    method Init()
      requires Ok() && term.Ok()
      modifies this, buffer, term`x, term`y, term.buffer
      ensures Ok() && term.Ok() && State() == Fresh(old(term.View()))
      ensures promptY == if old(term.y) < 1 then 1 else old(term.y)
    {
      Zero(buffer);
      len, cursor := 0, 0;
      if term.y < 1 {
        term.SetCursor(0, 1);
      }
      promptY := term.y;
      term.Puts(PROMPT);
    }

    /** Any key. Enter submits the line, runs the command and starts a fresh line. */
    method Key(c: int, reply: string -> Reply) returns (cmds: seq<string>)
      requires Ok()
      modifies this, buffer, term`x, term`y, term.buffer
      ensures Ok() && Sane(old(State())) && State() == KeyStep(old(State()), c, reply)
      ensures cmds == if c == ENTER then [Text(old(View()))] else []
    {
      JoinText(buffer[..], cursor, len);
      if c == ENTER {
        var cmd := Submit();
        Answer(reply(cmd));
        Init();
        cmds := [cmd];
      } else {
        Input(c);
        cmds := [];
      }
    }

    /** What a command does to the console. */
    method Answer(r: Reply)
      requires Ok() && term.Ok()
      modifies term`x, term`y, term.buffer
      ensures Ok() && term.Ok() && term.View() == Answered(old(term.View()), r)
    {
      if r.clear { term.Clear(); }
      term.Puts(r.text);
    }

    /** The shell's main loop over any sequence of keys at all: however long the lines and whatever the commands
        print, line and screen go the way of the session, and each Enter has submitted exactly its text. */
    method Serve(keys: seq<int>, reply: string -> Reply) returns (cmds: seq<string>)
      requires Ok()
      modifies this, buffer, term`x, term`y, term.buffer
      ensures Ok() && (View(), cmds) == Session(old(View()), keys)
      ensures Sane(old(State())) && State() == ShellRun(old(State()), keys, reply)
    {
      ghost var sh := State();
      JoinText(buffer[..], cursor, len);
      cmds := [];
      for i := 0 to |keys|
        invariant Ok() && cmds == Session(sh.z, keys[..i]).1 && State() == ShellRun(sh, keys[..i], reply)
      {
        assert keys[..i + 1][..i] == keys[..i] && keys[..i + 1][i] == keys[i];
        ShellRunSession(sh, keys[..i], reply);
        var more := Key(keys[i], reply);
        assert keys[i] != ENTER ==> cmds + more == cmds;
        cmds := cmds + more;
      }
      assert keys[..|keys|] == keys;
      ShellRunSession(sh, keys, reply);
    }
  }

  method Zero(a: array<char>)
    modifies a
    ensures forall k :: 0 <= k < a.Length ==> a[k] == '\0'
  {
    for i := 0 to a.Length
      invariant forall k :: 0 <= k < i ==> a[k] == '\0'
    {
      a[i] := '\0';
    }
  }

  /** Copies up to, not including, the first zero. */
  method CopyString(a: array<char>, ghost n: nat) returns (s: string)
    requires n < a.Length && a[n] == '\0' && forall k :: 0 <= k < n ==> a[k] != '\0'
    ensures s == a[..n]
  {
    s := "";
    var i := 0;
    while a[i] != '\0'
      invariant 0 <= i <= n && s == a[..i]
      decreases n - i
    {
      s := s + [a[i]];
      i := i + 1;
    }
  }

  ghost function Deleted(b: seq<char>, cursor: nat, len: nat): seq<char>
    requires 0 < cursor <= len <= |b|
  {
    b[..cursor - 1] + b[cursor..len] + b[len - 1..]
  }

  ghost function Inserted(b: seq<char>, cursor: nat, len: nat, c: char): seq<char>
    requires cursor <= len < |b|
  {
    b[..cursor] + [c] + b[cursor..len] + b[len + 1..]
  }

  lemma InsertedFrom(b: seq<char>, d: seq<char>, cursor: nat, len: nat, c: char)
    requires |d| == |b| && cursor <= len < |b| && d[cursor] == c
    requires forall k :: 0 <= k < cursor || len < k < |b| ==> d[k] == b[k]
    requires forall k :: cursor < k <= len ==> d[k] == b[k - 1]
    ensures d == Inserted(b, cursor, len, c)
  {
  }

  lemma DeleteZipper(b: seq<char>, cursor: nat, len: nat)
    requires 0 < cursor <= len <= |b|
    ensures var d := Deleted(b, cursor, len);
      && |d| == |b|
      && Press(Zipper(b[..cursor], b[cursor..len]), 8) == Zipper(d[..cursor - 1], d[cursor - 1..len - 1])
  {
  }

  lemma InsertZipper(b: seq<char>, cursor: nat, len: nat, c: char)
    requires cursor <= len < |b| && len < MAX_TEXT && Printable(c as int)
    ensures var d := Inserted(b, cursor, len, c);
      && |d| == |b|
      && Press(Zipper(b[..cursor], b[cursor..len]), c as int) == Zipper(d[..cursor + 1], d[cursor + 1..len + 1])
  {
  }

  /** The deletion loop: cells lo+1 to hi move one place left. */
  method ShiftLeft(a: array<char>, lo: nat, hi: nat)
    requires lo <= hi < a.Length
    modifies a
    ensures a[..] == Deleted(old(a[..]), lo + 1, hi + 1)
  {
    var i := lo;
    while i < hi
      invariant lo <= i <= hi
      invariant forall k :: 0 <= k < lo ==> a[k] == old(a[k])
      invariant forall k :: lo <= k < i ==> a[k] == old(a[k + 1])
      invariant forall k :: i <= k < a.Length ==> a[k] == old(a[k])
    {
      a[i] := a[i + 1];
      i := i + 1;
    }
    ghost var was := old(a[..]);
    forall k | 0 <= k < a.Length ensures a[k] == Deleted(was, lo + 1, hi + 1)[k] {
      if lo <= k < hi { assert was[k + 1] == old(a[k + 1]); }
    }
  }

  /** The insertion loop: cells lo to hi-1 move one place right. */
  method ShiftRight(a: array<char>, lo: nat, hi: nat)
    requires lo <= hi < a.Length
    modifies a
    ensures forall k :: 0 <= k < lo || hi < k < a.Length ==> a[k] == old(a[k])
    ensures forall k :: lo < k <= hi ==> a[k] == old(a[k - 1])
  {
    var i := hi;
    while i > lo
      invariant lo <= i <= hi
      invariant forall k :: 0 <= k <= i || hi < k < a.Length ==> a[k] == old(a[k])
      invariant forall k :: i < k <= hi ==> a[k] == old(a[k - 1])
    {
      a[i] := a[i - 1];
      i := i - 1;
    }
  }

  /** The two halves of the buffer make up the text. */
  lemma JoinText(b: seq<char>, cursor: nat, len: nat)
    requires cursor <= len <= |b|
    ensures b[..cursor] + b[cursor..len] == b[..len]
  {
  }

  lemma MoveLeft(b: seq<char>, cursor: nat, len: nat)
    requires 0 < cursor <= len <= |b|
    ensures Press(Zipper(b[..cursor], b[cursor..len]), -1) == Zipper(b[..cursor - 1], b[cursor - 1..len])
  {
  }

  lemma MoveRight(b: seq<char>, cursor: nat, len: nat)
    requires cursor < len <= |b|
    ensures Press(Zipper(b[..cursor], b[cursor..len]), -2) == Zipper(b[..cursor + 1], b[cursor + 1..len])
  {
  }
}
