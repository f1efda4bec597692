/**
  The editor state machine of `src/state.rs`.

  A `State` holds the document as a sequence of lines, the cursor, the mode,
  the command line being typed and a status text.  Key events are routed by
  mode: Insert mode edits the document, Command mode edits the command line
  and commits it on a newline, Normal mode moves the cursor and switches mode.

  The source indexes a Rust `String` by byte; the model assumes ASCII text,
  so that a byte index is a character index and a line is a `seq<char>`.
*/
module EditorState {
  import opened Wrappers

  type Line = seq<char>

  datatype Mode = Insert | Normal | Command

  /** The key events the state machine looks at; every other key is `OtherKey`. */
  datatype Key = Esc | Char(c: char) | OtherKey

  /** An input event; mouse and other non-key events are `OtherEvent`. */
  datatype Event = KeyEvent(key: Key) | OtherEvent

  datatype EditorAction = Quit | NoAction

  datatype CursorPos = CursorPos(lineNumber: nat, column: nat)

  /** The lines and cursor an Insert-mode edit produces. */
  datatype TextEdit = TextEdit(lines: seq<Line>, cursor: CursorPos)

  /** The operation `dispatch` selects for a key in a mode. */
  datatype Op = ShiftTo(target: Mode) | InsertChar(c: char) | Commit | Move(lineDelta: int, columnDelta: int) | Ignore

  function Max(a: nat, b: nat): nat { if a < b then b else a }

  /** `Vec::get` on the lines. */
  function LineOf(lines: seq<Line>, n: nat): (r: Option<Line>)
    ensures r.Some? <==> n < |lines|
    ensures r.Some? ==> r.value == lines[n]
  {
    if n < |lines| then Some(lines[n]) else None
  }

  /** No line holds a newline character. */
  ghost predicate NoNewlines(lines: seq<Line>)
  {
    forall i :: 0 <= i < |lines| ==> '\n' !in lines[i]
  }

  /**
    The cursor names a place in the document: with no lines it is at (0, 0);
    otherwise its line exists and its column is at most that line's length.
  */
  ghost predicate CursorValid(lines: seq<Line>, cur: CursorPos)
  {
    if |lines| == 0 then cur == CursorPos(0, 0)
    else cur.lineNumber < |lines| && cur.column <= |lines[cur.lineNumber]|
  }

  /** The first padding loop of `insert`: empty lines are appended until line `ln` exists. */
  function PadLines(lines: seq<Line>, ln: nat): (r: seq<Line>)
    ensures |r| == Max(|lines|, ln + 1)
    ensures forall i :: 0 <= i < |lines| ==> r[i] == lines[i]
    ensures forall i :: |lines| <= i < |r| ==> r[i] == []
  {
    if ln < |lines| then lines else lines + seq(ln + 1 - |lines|, _ => [])
  }

  /** The second padding loop of `insert`: spaces are appended until the line is `col` long. */
  function PadLine(l: Line, col: nat): (r: Line)
    ensures |r| == Max(|l|, col)
    ensures r[..|l|] == l
    ensures forall i :: |l| <= i < |r| ==> r[i] == ' '
  {
    if col <= |l| then l else l + seq(col - |l|, _ => ' ')
  }

  /**
    Insert-mode `insert` of `c` at `cur`: pad the buffer and the cursor line,
    then either split the line at the cursor (newline) or put `c` there.
  */
  function InsertAt(lines: seq<Line>, cur: CursorPos, c: char): (r: TextEdit)
    ensures |r.lines| == Max(|lines|, cur.lineNumber + 1) + (if c == '\n' then 1 else 0)
    ensures r.cursor == if c == '\n' then CursorPos(cur.lineNumber + 1, 0)
                        else CursorPos(cur.lineNumber, cur.column + 1)
  {
    var ln, col := cur.lineNumber, cur.column;
    var padded := PadLines(lines, ln);
    var l := PadLine(padded[ln], col);
    if c == '\n' then
      TextEdit(padded[..ln] + [l[..col], l[col..]] + padded[ln + 1..], CursorPos(ln + 1, 0))
    else
      TextEdit(padded[ln := l[..col] + [c] + l[col..]], CursorPos(ln, col + 1))
  }

  /** The line at `n` before an insert at line `n`, or the empty line the padding creates. */
  function OldLine(lines: seq<Line>, n: nat): Line
  {
    if n < |lines| then lines[n] else []
  }

  /**
    Inserting a character other than a newline: the buffer grows to hold the
    cursor line, that line is padded to the cursor column and holds `c` there,
    every other line is unchanged (or a new empty line) and the cursor moves
    one column right.
  */
  lemma InsertCharEffect(lines: seq<Line>, cur: CursorPos, c: char)
    requires c != '\n'
    ensures var r, ln, col := InsertAt(lines, cur, c), cur.lineNumber, cur.column;
            var p := PadLine(OldLine(lines, ln), col);
            && |r.lines| == Max(|lines|, ln + 1)
            && r.lines[ln] == p[..col] + [c] + p[col..]
            && |r.lines[ln]| == Max(|OldLine(lines, ln)|, col) + 1
            && r.lines[ln][col] == c
            && r.lines[ln][..col] == PadLine(OldLine(lines, ln), col)[..col]
            && (forall i :: 0 <= i < |r.lines| && i != ln ==> r.lines[i] == OldLine(lines, i))
            && r.cursor == CursorPos(ln, col + 1)
  {
    var ln, col := cur.lineNumber, cur.column;
    assert PadLines(lines, ln)[ln] == OldLine(lines, ln);
  }

  /**
    Inserting a newline splits the padded cursor line at the cursor column:
    the line keeps the prefix, a new line right after it holds the suffix,
    the lines before are unchanged, the lines after move down by one, and the
    cursor goes to the start of the new line.
  */
  lemma InsertNewlineEffect(lines: seq<Line>, cur: CursorPos)
    ensures var r, ln, col := InsertAt(lines, cur, '\n'), cur.lineNumber, cur.column;
            var p := PadLine(OldLine(lines, ln), col);
            && |r.lines| == Max(|lines|, ln + 1) + 1
            && r.lines[ln] + r.lines[ln + 1] == p
            && |r.lines[ln]| == col
            && (forall i :: 0 <= i < ln ==> r.lines[i] == OldLine(lines, i))
            && (forall i :: ln + 1 < i < |r.lines| ==> r.lines[i] == OldLine(lines, i - 1))
            && r.cursor == CursorPos(ln + 1, 0)
  {
    var ln, col := cur.lineNumber, cur.column;
    var padded := PadLines(lines, ln);
    var p := PadLine(padded[ln], col);
    assert padded[ln] == OldLine(lines, ln);
    assert p[..col] + p[col..] == p;
    var r := InsertAt(lines, cur, '\n');
    assert r.lines == padded[..ln] + [p[..col], p[col..]] + padded[ln + 1..];
    forall i | ln + 1 < i < |r.lines| ensures r.lines[i] == OldLine(lines, i - 1) {
      assert r.lines[i] == padded[i - 1];
    }
  }

  /** After any Insert-mode insert the cursor is inside the document (the source's `assert!`). */
  lemma InsertKeepsCursorValid(lines: seq<Line>, cur: CursorPos, c: char)
    ensures CursorValid(InsertAt(lines, cur, c).lines, InsertAt(lines, cur, c).cursor)
  {
    if c == '\n' {
      InsertNewlineEffect(lines, cur);
    } else {
      InsertCharEffect(lines, cur, c);
    }
  }

  /** An insert never puts a newline inside a line. */
  lemma InsertKeepsNoNewlines(lines: seq<Line>, cur: CursorPos, c: char)
    requires NoNewlines(lines)
    ensures NoNewlines(InsertAt(lines, cur, c).lines)
  {
    var ln, col := cur.lineNumber, cur.column;
    var padded := PadLines(lines, ln);
    var p := PadLine(padded[ln], col);
    assert NoNewlines(padded);
    assert '\n' !in p by {
      forall i | 0 <= i < |p| ensures p[i] != '\n' {
        if i < |padded[ln]| { assert p[i] == p[..|padded[ln]|][i]; }
      }
    }
    assert '\n' !in p[..col] && '\n' !in p[col..] by {
      forall i | 0 <= i < col ensures p[..col][i] != '\n' { assert p[..col][i] == p[i]; }
      forall i | 0 <= i < |p| - col ensures p[col..][i] != '\n' { assert p[col..][i] == p[col + i]; }
    }
    if c != '\n' {
      var l' := p[..col] + [c] + p[col..];
      forall i | 0 <= i < |l'| ensures l'[i] != '\n' {
        if i < col { assert l'[i] == p[..col][i]; }
        else if i > col { assert l'[i] == p[col..][i - col - 1]; }
      }
    }
  }

  /** `saturating_add` / `saturating_sub` of a signed step on an index. */
  function Saturating(x: nat, d: int): (r: nat)
    ensures x + d >= 0 ==> r == x + d
    ensures x + d < 0 ==> r == 0
  {
    if d >= 0 then x + d else if -d <= x then x + d else 0
  }

  /**
    `move_cursor`: both coordinates move by the step, saturating at 0; the
    line is clamped to the last line (0 when there are none) and then the
    column to the length of the new cursor line (0 when it does not exist).
  */
  function MovedCursor(lines: seq<Line>, cur: CursorPos, lineDelta: int, columnDelta: int): (r: CursorPos)
    ensures CursorValid(lines, r)
  {
    var ln := Min(Saturating(cur.lineNumber, lineDelta), Max(|lines|, 1) - 1);
    var lineLen := match LineOf(lines, ln) case Some(t) => |t| case None => 0;
    CursorPos(ln, Min(Saturating(cur.column, columnDelta), lineLen))
  }

  /** The bounds `move_cursor` guarantees: the cursor ends inside the document. */
  lemma MoveBounds(lines: seq<Line>, cur: CursorPos, lineDelta: int, columnDelta: int)
    ensures var r := MovedCursor(lines, cur, lineDelta, columnDelta);
            && r.lineNumber <= Max(|lines|, 1) - 1
            && r.column <= (if r.lineNumber < |lines| then |lines[r.lineNumber]| else 0)
            && CursorValid(lines, r)
  {
  }

  /**
    Inside the document a move is exact; a move past the top or past the
    start of the line saturates at 0.
  */
  lemma MoveExactOrSaturated(lines: seq<Line>, cur: CursorPos, lineDelta: int, columnDelta: int)
    ensures var r := MovedCursor(lines, cur, lineDelta, columnDelta);
            && (0 <= cur.lineNumber + lineDelta < |lines| ==> r.lineNumber == cur.lineNumber + lineDelta)
            && (cur.lineNumber + lineDelta < 0 ==> r.lineNumber == 0)
            && (cur.column + columnDelta < 0 ==> r.column == 0)
            && (cur.lineNumber + lineDelta >= |lines| > 0 ==> r.lineNumber == |lines| - 1)
            && (r.lineNumber < |lines| && cur.column + columnDelta > |lines[r.lineNumber]| ==>
                  r.column == |lines[r.lineNumber]|)
            && (r.lineNumber < |lines| && 0 <= cur.column + columnDelta <= |lines[r.lineNumber]| ==>
                  r.column == cur.column + columnDelta)
  {
  }

  /** The routing table of `dispatch`. */
  function Route(mode: Mode, e: Event): (r: Op)
    ensures r.Move? ==> mode == Normal && e.KeyEvent? && e.key.Char?
    ensures r == Commit ==> mode == Command
    ensures !e.KeyEvent? ==> r == Ignore
  {
    match mode
    case Insert =>
      (match e
       case KeyEvent(Esc) => ShiftTo(Normal)
       case KeyEvent(Char(c)) => InsertChar(c)
       case _ => Ignore)
    case Command =>
      (match e
       case KeyEvent(Esc) => ShiftTo(Normal)
       case KeyEvent(Char(c)) => if c == '\n' then Commit else InsertChar(c)
       case _ => Ignore)
    case Normal =>
      (match e
       case KeyEvent(Char(c)) =>
         if c == 'u' then Move(-1, 0)
         else if c == 'o' then Move(0, 1)
         else if c == 'e' then Move(1, 0)
         else if c == 'n' then Move(0, -1)
         else if c == ':' then ShiftTo(Command)
         else if c == 'i' then ShiftTo(Insert)
         else Ignore
       case _ => Ignore)
  }

  /**
    Esc leaves Insert and Command mode; in Normal mode ':' and 'i' enter
    Command and Insert mode and 'u', 'e', 'n', 'o' move up, down, left and
    right; the command line is committed only by a newline in Command mode.
  */
  lemma RouteTable(mode: Mode, e: Event)
    ensures mode != Normal && e == KeyEvent(Esc) ==> Route(mode, e) == ShiftTo(Normal)
    ensures mode == Normal && e == KeyEvent(Char(':')) ==> Route(mode, e) == ShiftTo(Command)
    ensures mode == Normal && e == KeyEvent(Char('i')) ==> Route(mode, e) == ShiftTo(Insert)
    ensures mode == Normal && e == KeyEvent(Char('u')) ==> Route(mode, e) == Move(-1, 0)
    ensures mode == Normal && e == KeyEvent(Char('e')) ==> Route(mode, e) == Move(1, 0)
    ensures mode == Normal && e == KeyEvent(Char('n')) ==> Route(mode, e) == Move(0, -1)
    ensures mode == Normal && e == KeyEvent(Char('o')) ==> Route(mode, e) == Move(0, 1)
    ensures Route(mode, e) == Commit <==> mode == Command && e == KeyEvent(Char('\n'))
    ensures Route(mode, e).InsertChar? <==>
              (mode != Normal && e.KeyEvent? && e.key.Char? && !(mode == Command && e.key.c == '\n'))
    ensures Route(mode, e).Move? ==> mode == Normal
  {
  }

  /** The bytes `write` puts at the start of the file: the lines joined by newlines, none trailing. */
  function FileImage(lines: seq<Line>): (r: string)
    ensures |lines| == 0 ==> r == []
    ensures |lines| > 0 ==> |lines[0]| <= |r| && r[..|lines[0]|] == lines[0]
    ensures |lines| > 1 ==> |lines[0]| < |r| && r[|lines[0]|] == '\n'
    ensures |lines| == 1 ==> r == lines[0]
  {
    if |lines| == 0 then []
    else if |lines| == 1 then lines[0]
    else lines[0] + "\n" + FileImage(lines[1..])
  }

  /** Appending a line to the image adds a separator and the line. */
  lemma {:induction false} FileImageSnoc(lines: seq<Line>, l: Line)
    requires |lines| > 0
    ensures FileImage(lines + [l]) == FileImage(lines) + "\n" + l
    decreases |lines|
  {
    if |lines| > 1 {
      assert (lines + [l])[1..] == lines[1..] + [l];
      FileImageSnoc(lines[1..], l);
    }
  }

  /** The text split at every newline (not `BufRead::lines`, which drops a trailing empty line). */
  function SplitAtNewlines(s: string): (r: seq<Line>)
    ensures |r| >= 1
    decreases |s|
  {
    if '\n' !in s then [s]
    else
      var k := FirstNewline(s);
      [s[..k]] + SplitAtNewlines(s[k + 1..])
  }

  function FirstNewline(s: string): (k: nat)
    requires '\n' in s
    ensures k < |s| && s[k] == '\n' && '\n' !in s[..k]
  {
    if s[0] == '\n' then 0
    else
      var k := FirstNewline(s[1..]);
      assert s[..k + 1] == [s[0]] + s[1..][..k];
      k + 1
  }

  /** A newline with none before it is the first newline. */
  lemma {:induction false} FirstNewlineAt(s: string, k: nat)
    requires k < |s| && s[k] == '\n' && '\n' !in s[..k]
    ensures FirstNewline(s) == k
    decreases k
  {
    if k > 0 {
      assert s[0] == s[..k][0];
      assert s[1..][..k - 1] == s[..k][1..];
      FirstNewlineAt(s[1..], k - 1);
    }
  }

  /**
    For a non-empty buffer of newline-free lines, splitting the file image at
    newlines gives the lines back. An empty buffer and a single empty line
    both write nothing, so the image does not tell those two apart.
  */
  lemma {:induction false} FileImageSplits(lines: seq<Line>)
    requires |lines| > 0 && NoNewlines(lines)
    ensures SplitAtNewlines(FileImage(lines)) == lines
    decreases |lines|
  {
    if |lines| == 1 {
    } else {
      var s := FileImage(lines);
      assert s == lines[0] + "\n" + FileImage(lines[1..]);
      var k := |lines[0]|;
      assert s[k] == '\n' && s[..k] == lines[0];
      FirstNewlineAt(s, k);
      assert s[k + 1..] == FileImage(lines[1..]);
      FileImageSplits(lines[1..]);
    }
  }

  /** The status text `insert` leaves in Insert mode (a newline is shown as NUL). */
  function InsertedStatus(c: char): (r: string)
    ensures |r| == 16 && r[..15] == "inserted char: " && r[15] != '\n'
    ensures c != '\n' ==> r[15] == c
    ensures c == '\n' ==> r[15] == '\0'
  {
    "inserted char: " + [if c != '\n' then c else '\0']
  }

  class State {
    var cursorPos: CursorPos
    var lines: seq<Line>
    var statusText: string
    var mode: Mode
    var commandLine: string
    /** Whether the `file` field holds a file; the file itself is not modelled. */
    var hasFile: bool

    /** The cursor is inside the document and no line holds a newline. */
    ghost predicate Valid()
      reads this
    {
      CursorValid(lines, cursorPos) && NoNewlines(lines)
    }

    /** `empty`: no lines, cursor (0, 0), Normal mode, no command, no file. */
    constructor Empty()
      ensures Valid()
      ensures cursorPos == CursorPos(0, 0) && lines == [] && statusText == []
      ensures mode == Normal && commandLine == [] && !hasFile
    {
      cursorPos := CursorPos(0, 0);
      lines := [];
      statusText := [];
      mode := Normal;
      commandLine := [];
      hasFile := false;
    }

    /**
      The state `from_file` builds once the file has been opened and read:
      `read` are the lines `BufRead::lines` returned, which hold no newline.
    */
    constructor FromFile(read: seq<Line>)
      requires NoNewlines(read)
      ensures Valid()
      ensures cursorPos == CursorPos(0, 0) && lines == read && statusText == []
      ensures mode == Normal && commandLine == [] && hasFile
    {
      cursorPos := CursorPos(0, 0);
      lines := read;
      statusText := [];
      mode := Normal;
      commandLine := [];
      hasFile := true;
    }

    /** `line_text`: the line at `n`, or None past the end. */
    function LineText(n: nat): (r: Option<Line>)
      reads this
      ensures r.Some? <==> n < |lines|
      ensures r.Some? ==> r.value == lines[n]
    {
      LineOf(lines, n)
    }

    /** The effect of `shift_mode(m)`: only the mode and the command line change. */
    twostate predicate ShiftedTo(m: Mode)
      reads this
    {
      && mode == m && commandLine == []
      && lines == old(lines) && cursorPos == old(cursorPos)
      && statusText == old(statusText) && hasFile == old(hasFile)
    }

    /** The effect of `insert(c)` in each mode. */
    twostate predicate Inserted(c: char)
      reads this
    {
      && mode == old(mode) && hasFile == old(hasFile)
      && match old(mode)
         case Insert =>
           && TextEdit(lines, cursorPos) == InsertAt(old(lines), old(cursorPos), c)
           && statusText == InsertedStatus(c)
           && commandLine == old(commandLine)
         case Command =>
           && commandLine == (if c == '\n' then old(commandLine) else old(commandLine) + [c])
           && lines == old(lines) && cursorPos == old(cursorPos) && statusText == old(statusText)
         case Normal =>
           && commandLine == old(commandLine)
           && lines == old(lines) && cursorPos == old(cursorPos) && statusText == old(statusText)
    }

    /** The effect of `move_cursor`: only the cursor changes. */
    twostate predicate Moved(lineDelta: int, columnDelta: int)
      reads this
    {
      && cursorPos == MovedCursor(old(lines), old(cursorPos), lineDelta, columnDelta)
      && lines == old(lines) && mode == old(mode) && commandLine == old(commandLine)
      && statusText == old(statusText) && hasFile == old(hasFile)
    }

    /** The effect of `commit_command`: Normal mode, empty command line, Quit exactly for "q". */
    twostate predicate Committed(new action: EditorAction, new written: Option<string>)
      reads this
    {
      && ShiftedTo(Normal)
      && (action == Quit <==> old(commandLine) == "q")
      && (written.Some? <==> old(commandLine) == "w" && old(hasFile))
      && (written.Some? ==> written.value == FileImage(old(lines)))
    }

    /** `shift_mode`: set the mode and clear the command line. */
    method ShiftMode(m: Mode)
      modifies this`mode, this`commandLine
      ensures ShiftedTo(m)
    {
      mode := m;
      commandLine := [];
    }

    /** `insert`: edit the document in Insert mode, the command line in Command mode. */
    method InsertKey(c: char)
      modifies this`lines, this`cursorPos, this`statusText, this`commandLine
      ensures Inserted(c)
      ensures old(mode) == Insert ==> CursorValid(lines, cursorPos)
      ensures old(Valid()) ==> Valid()
    {
      match mode
      case Insert =>
        InsertIntoText(c);
      case Command =>
        if c != '\n' {
          commandLine := commandLine + [c];
        }
      case Normal =>
    }

    /** The Insert-mode branch of `insert`. */
    method InsertIntoText(c: char)
      modifies this`lines, this`cursorPos, this`statusText
      ensures TextEdit(lines, cursorPos) == InsertAt(old(lines), old(cursorPos), c)
      ensures statusText == InsertedStatus(c)
      ensures CursorValid(lines, cursorPos)
      ensures old(NoNewlines(lines)) ==> NoNewlines(lines)
    {
      ghost var before, cur := lines, cursorPos;
      var ln, col := cursorPos.lineNumber, cursorPos.column;
      PadBuffer(ln);
      PadCursorLine(ln, col);
      assert col <= |lines[ln]|;
      if c == '\n' {
        var restOfLine := lines[ln][col..];
        lines := lines[ln := lines[ln][..col]];
        lines := lines[..ln + 1] + [restOfLine] + lines[ln + 1..];
        cursorPos := CursorPos(ln + 1, 0);
      } else {
        var at := Min(col, |lines[ln]|);
        lines := lines[ln := lines[ln][..at] + [c] + lines[ln][at..]];
        cursorPos := cursorPos.(column := col + 1);
      }
      statusText := InsertedStatus(c);
      InsertKeepsCursorValid(before, cur, c);
      if NoNewlines(before) { InsertKeepsNoNewlines(before, cur, c); }
    }

    /** The first loop of `insert`: push empty lines until line `ln` exists. */
    method PadBuffer(ln: nat)
      modifies this`lines
      ensures lines == PadLines(old(lines), ln)
    {
      while |lines| <= ln
        invariant |old(lines)| <= |lines| <= Max(|old(lines)|, ln + 1)
        invariant forall i :: 0 <= i < |old(lines)| ==> lines[i] == old(lines)[i]
        invariant forall i :: |old(lines)| <= i < |lines| ==> lines[i] == []
        decreases ln + 1 - |lines|
      {
        lines := lines + [[]];
      }
    }

    /** The second loop of `insert`: push spaces until line `ln` is `col` long. */
    method PadCursorLine(ln: nat, col: nat)
      requires ln < |lines|
      modifies this`lines
      ensures lines == old(lines)[ln := PadLine(old(lines)[ln], col)]
    {
      ghost var l0 := lines[ln];
      while |lines[ln]| < col
        invariant |lines| == |old(lines)|
        invariant forall i :: 0 <= i < |lines| && i != ln ==> lines[i] == old(lines)[i]
        invariant |l0| <= |lines[ln]| <= Max(|l0|, col)
        invariant lines[ln][..|l0|] == l0
        invariant forall i :: |l0| <= i < |lines[ln]| ==> lines[ln][i] == ' '
        decreases col - |lines[ln]|
      {
        lines := lines[ln := lines[ln] + [' ']];
      }
      assert lines[ln] == PadLine(l0, col);
    }

    /** `write`: the bytes written from the start of the file, if there is one. */
    method Write() returns (written: Option<string>)
      ensures written.Some? <==> hasFile
      ensures written.Some? ==> written.value == FileImage(lines)
    {
      if !hasFile {
        return None;
      }
      var n := |lines|;
      var out: string := [];
      for i := 0 to n
        invariant out == FileImage(lines[..i]) + (if 0 < i < n then "\n" else "")
      {
        if i > 0 {
          FileImageSnoc(lines[..i], lines[i]);
          assert lines[..i + 1] == lines[..i] + [lines[i]];
        }
        out := out + lines[i];
        if i + 1 < n {
          out := out + "\n";
        }
      }
      assert lines[..n] == lines;
      written := Some(out);
    }

    /** `commit_command`: back to Normal mode, then "q" quits and "w" writes. */
    method CommitCommand() returns (action: EditorAction, written: Option<string>)
      modifies this`mode, this`commandLine
      ensures Committed(action, written)
    {
      var command := commandLine;
      ShiftMode(Normal);
      written := None;
      if command == "q" {
        action := Quit;
      } else if command == "w" {
        written := Write();
        action := NoAction;
      } else {
        action := NoAction;
      }
    }

    /** `move_cursor`: saturating, clamped movement of the cursor. */
    method MoveCursor(lineDelta: int, columnDelta: int)
      modifies this`cursorPos
      ensures Moved(lineDelta, columnDelta)
      ensures Valid() <==> NoNewlines(lines)
    {
      var ln := Min(Saturating(cursorPos.lineNumber, lineDelta), Max(|lines|, 1) - 1);
      cursorPos := cursorPos.(lineNumber := ln);
      var lineLen := match LineText(cursorPos.lineNumber) case Some(t) => |t| case None => 0;
      cursorPos := cursorPos.(column := Min(Saturating(cursorPos.column, columnDelta), lineLen));
      MoveBounds(lines, old(cursorPos), lineDelta, columnDelta);
    }

    /**
      `dispatch`: route the event by mode and run the chosen operation.
      Quit comes back only from committing "q" in Command mode.
    */
    method Dispatch(e: Event) returns (action: EditorAction, written: Option<string>)
      modifies this
      ensures match Route(old(mode), e)
              case ShiftTo(m) => ShiftedTo(m) && action == NoAction && written == None
              case InsertChar(c) => Inserted(c) && action == NoAction && written == None
              case Commit => Committed(action, written)
              case Move(dl, dc) => Moved(dl, dc) && action == NoAction && written == None
              case Ignore => unchanged(this) && action == NoAction && written == None
      ensures action == Quit <==> old(mode) == Command && e == KeyEvent(Char('\n')) && old(commandLine) == "q"
      ensures old(Valid()) ==> Valid()
    {
      action, written := NoAction, None;
      match Route(mode, e)
      case ShiftTo(m) => ShiftMode(m);
      case InsertChar(c) => InsertKey(c);
      case Commit => action, written := CommitCommand();
      case Move(dl, dc) => MoveCursor(dl, dc);
      case Ignore =>
    }
  }

  /**
    An Insert-mode typing session: in Insert mode on an empty buffer, typing
    'a', 'b', newline, 'c' gives the lines "ab" and "c" with the cursor at (1, 1).
  */
  lemma TypingSession()
    ensures var e1 := InsertAt([], CursorPos(0, 0), 'a');
            var e2 := InsertAt(e1.lines, e1.cursor, 'b');
            var e3 := InsertAt(e2.lines, e2.cursor, '\n');
            var e4 := InsertAt(e3.lines, e3.cursor, 'c');
            e4 == TextEdit(["ab", "c"], CursorPos(1, 1))
  {
    var e1 := InsertAt([], CursorPos(0, 0), 'a');
    InsertCharEffect([], CursorPos(0, 0), 'a');
    assert PadLine([], 0) == [];
    assert e1.lines[0] == "a";
    assert e1 == TextEdit(["a"], CursorPos(0, 1));
    var e2 := InsertAt(e1.lines, e1.cursor, 'b');
    InsertCharEffect(e1.lines, e1.cursor, 'b');
    assert PadLine("a", 1) == "a";
    assert e2.lines[0] == "ab";
    assert e2 == TextEdit(["ab"], CursorPos(0, 2));
    var e3 := InsertAt(e2.lines, e2.cursor, '\n');
    InsertNewlineEffect(e2.lines, e2.cursor);
    assert e3 == TextEdit(["ab", ""], CursorPos(1, 0));
    var e4 := InsertAt(e3.lines, e3.cursor, 'c');
    InsertCharEffect(e3.lines, e3.cursor, 'c');
    assert e4.lines[1] == "c";
  }

  /** Then Esc, ':', 'q', newline quits and leaves the document as it was. */
  method QuitSession(s: State) returns (a: EditorAction)
    modifies s
    ensures a == Quit && s.lines == old(s.lines)
  {
    var w;
    a, w := s.Dispatch(KeyEvent(Esc));
    a, w := s.Dispatch(KeyEvent(Char(':')));
    a, w := s.Dispatch(KeyEvent(Char('q')));
    assert s.commandLine == "q";
    a, w := s.Dispatch(KeyEvent(Char('\n')));
    assert a == Quit;
  }
}
