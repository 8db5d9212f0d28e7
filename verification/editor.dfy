/**
 * The Editor class of vi.py: its five fields updated in place by one handler
 * per mode, each handler proved to leave the fields as the matching step
 * function of EditorState says; and the two width conversions the screen
 * painter uses, proved against Width.
 */
module Vi {
  import opened Options
  import opened Lines
  import opened EditorState
  import Keys
  import Utf8
  import Cursor
  import Width

  class Editor {
    var buffer: seq<string>
    var pos: Pos
    var mode: Mode
    var visualStart: Option<Pos>
    var utf8buffer: seq<Utf8.byte>

    /** The fields as one value, what the screen painter reads after every key. */
    function Snapshot(): State
      reads this
    {
      State(buffer, pos, mode, visualStart, utf8buffer)
    }

    ghost predicate Valid()
      reads this
    {
      EditorState.Valid(Snapshot())
    }

    /** A new editor; `loaded` is what load_file read from the file, [] when there is none. */
    constructor (loaded: seq<string>)
      ensures Valid() && Snapshot() == Initial(loaded)
    {
      buffer := [""];
      pos := Pos(0, 0);
      mode := Command;
      visualStart := None;
      utf8buffer := [];
      if loaded != [] {
        buffer := loaded;
      }
    }

    /** One key code: dispatch on the mode; the session always continues. */
    method HandleInput(ch: int) returns (cont: bool)
      requires Valid() && (mode == Insert ==> ch >= 0)
      modifies this
      ensures Valid() && cont
      ensures Snapshot() == Input(old(Snapshot()), ch)
    {
      match mode
      case Command =>
        cont := HandleCommand(ch);
      case Insert =>
        cont := HandleInsert(ch);
      case Visual =>
        cont := HandleVisual(ch);
    }

    method HandleCommand(ch: int) returns (cont: bool)
      requires InBounds(buffer, pos)
      modifies this
      ensures cont
      ensures Snapshot() == CommandKey(old(Snapshot()), ch)
    {
      if ch == Keys.KeyI {
        mode := Insert;
      } else if ch == Keys.KeyA {
        if pos.col < |buffer[pos.line]| {
          pos := Pos(pos.line, pos.col + 1);
        }
        mode := Insert;
      } else if ch == Keys.KeyV {
        mode := Visual;
        visualStart := Some(pos);
      } else if ch == Keys.KeyH {
        if pos.col > 0 {
          pos := Pos(pos.line, pos.col - 1);
        }
      } else if ch == Keys.KeyL {
        if pos.col < |buffer[pos.line]| {
          pos := Pos(pos.line, pos.col + 1);
        }
      } else if ch == Keys.KeyJ {
        if pos.line < |buffer| - 1 {
          var nextLineLen := |buffer[pos.line + 1]|;
          pos := Pos(pos.line + 1, Cursor.Min(pos.col, nextLineLen));
        }
      } else if ch == Keys.KeyK {
        if pos.line > 0 {
          var prevLineLen := |buffer[pos.line - 1]|;
          pos := Pos(pos.line - 1, Cursor.Min(pos.col, prevLineLen));
        }
      }
      // ':' starts an ex command; its verdict is dropped here, so the session goes on
      cont := true;
    }

    method HandleInsert(ch: int) returns (cont: bool)
      requires InBounds(buffer, pos) && ch >= 0
      modifies this
      ensures cont
      ensures Snapshot() == InsertKey(old(Snapshot()), ch)
    {
      // decode the pending bytes plus this key code (Utf8.Feed is that step)
      var fed := Utf8.Feed(utf8buffer, ch);
      var s := fed.1;
      utf8buffer := fed.0;

      var lines, line, col := buffer, pos.line, pos.col;
      if ch == Keys.Escape {
        mode := Command;
        if col > 0 {
          col := col - 1;
        }
      } else if ch == Keys.Enter {
        var text := lines[line];
        lines := lines[line := text[..col]];
        lines := lines[..line + 1] + [text[col..]] + lines[line + 1..];
        SplitInTwoSteps(buffer, pos);
        line, col := line + 1, 0;
      } else if ch == Keys.KeyBackspace || ch == Keys.Delete {
        if col > 0 {
          var text := lines[line];
          lines := lines[line := text[..col - 1] + text[col..]];
          col := col - 1;
        }
      } else if s.Some? && s.value != [] && !Keys.IsCtrl(ch) {
        var text := lines[line];
        lines := lines[line := text[..col] + s.value + text[col..]];
        col := col + |s.value|;
      }
      buffer, pos := lines, Pos(line, col);
      cont := true;
    }

    method HandleVisual(ch: int) returns (cont: bool)
      requires InBounds(buffer, pos) && visualStart.Some? && InBounds(buffer, visualStart.value)
      modifies this
      ensures cont
      ensures Snapshot() == VisualKey(old(Snapshot()), ch)
    {
      ghost var before := Snapshot();
      if ch == Keys.Escape {
        mode := Command;
        visualStart := None;
      } else if ch == Keys.KeyD {
        var startLine, startCol := visualStart.value.line, visualStart.value.col;
        var endLine, endCol := pos.line, pos.col;
        if startLine > endLine || (startLine == endLine && startCol > endCol) {
          startLine, endLine := endLine, startLine;
          startCol, endCol := endCol, startCol;
        }
        var lines := buffer;
        if startLine == endLine {
          var line := lines[startLine];
          lines := lines[startLine := line[..startCol] + line[endCol..]];
        } else {
          // multi-line delete: join the two ends, then drop the lines after the start through the end
          lines := lines[startLine := lines[startLine][..startCol] + lines[endLine][endCol..]];
          lines := lines[..startLine + 1] + lines[endLine + 1..];
        }
        assert lines == DeleteSelection(buffer, visualStart.value, pos) by {
          var ends := Ordered(visualStart.value, pos);
          assert ends == (Pos(startLine, startCol), Pos(endLine, endCol));
          if startLine == endLine {
            DeleteWithinLine(buffer, ends.0, ends.1);
          } else {
            DeleteAcrossLines(buffer, ends.0, ends.1);
          }
        }
        buffer, pos, mode, visualStart := lines, Pos(startLine, startCol), Command, None;
        assert Snapshot() == VisualKey(before, ch);
      } else if ch == Keys.KeyY {
        // yank keeps no copy: it only leaves visual mode
        mode := Command;
        visualStart := None;
      } else if Keys.IsMotion(ch) {
        var _ := HandleCommand(ch);
        assert Snapshot() == CommandKey(before, ch);
      }
      cont := true;
    }

    /** buffer2x: the screen column of codepoint column p on line y (p beyond the line counts as its end). */
    method Buffer2X(y: nat, p: nat) returns (x: nat)
      requires y < |buffer|
      ensures x == Width.DisplayWidth(buffer[y][..Cursor.Min(p, |buffer[y]|)])
      ensures Cursor.Min(p, |buffer[y]|) <= x <= 2 * Cursor.Min(p, |buffer[y]|)
    {
      var text := buffer[y][..Cursor.Min(p, |buffer[y]|)];
      x := 0;
      var i := 0;
      while i < |text|
        invariant 0 <= i <= |text|
        invariant x == Width.DisplayWidth(text[..i])
      {
        Width.PrefixWidthStep(text, i);
        x := x + Width.CharWidth(text[i]);
        i := i + 1;
      }
      assert text[..i] == text;
      Width.WidthBounds(text);
    }

    /** pos2buffer: the codepoint column for screen column x on line y. */
    method Pos2Buffer(y: nat, x: int) returns (col: int)
      requires y < |buffer|
      ensures col == Width.ScreenToColumn(buffer[y], x)
    {
      var line := buffer[y];
      var p := 0;
      var i := 0;  // the enumerate index, left at the last character (0 on an empty line)
      var k := 0;
      while k < |line|
        invariant 0 <= k <= |line|
        invariant i == if k == 0 then 0 else k - 1
        invariant p == Width.DisplayWidth(line[..k])
        invariant line != [] ==> Width.ColumnFrom(line, x, 0) == Width.ColumnFrom(line, x, k)
      {
        i := k;
        if p >= x {
          return i;
        }
        Width.PrefixWidthStep(line, k);
        p := p + Width.CharWidth(line[k]);
        k := k + 1;
      }
      assert line[..k] == line;
      col := i + (x - p) + 1;
    }
  }
}
