/**
 * The editor's state machine as functions on a snapshot of its five fields:
 * one function per mode handler, each giving the state after one key code,
 * and the invariant every handler keeps.
 */
module EditorState {
  import opened Options
  import opened Lines
  import Keys
  import Cursor
  import Utf8

  datatype Mode = Command | Insert | Visual

  /** The editor's fields: lines, cursor, mode, visual anchor and pending input bytes. */
  datatype State = State(
    buffer: seq<string>,
    pos: Pos,
    mode: Mode,
    visualStart: Option<Pos>,
    utf8buffer: seq<Utf8.byte>)

  /**
   * The invariant: the buffer has a line and the cursor is on it within its
   * columns; the anchor is set exactly in visual mode and then lies inside the
   * buffer too; bytes are only pending in insert mode.
   */
  predicate Valid(st: State) {
    && |st.buffer| >= 1
    && InBounds(st.buffer, st.pos)
    && (st.mode == Visual <==> st.visualStart.Some?)
    && (st.visualStart.Some? ==> InBounds(st.buffer, st.visualStart.value))
    && (st.mode != Insert ==> st.utf8buffer == [])
  }

  /** A new editor over the lines load_file read: an empty file or no file gives one empty line. */
  function Initial(loaded: seq<string>): (st: State)
    ensures Valid(st) && st.mode == Command && st.pos == Pos(0, 0)
    ensures loaded != [] ==> st.buffer == loaded
    ensures loaded == [] ==> st.buffer == [""]
  {
    State(if loaded == [] then [""] else loaded, Pos(0, 0), Command, None, [])
  }

  /**
   * handle_command: i and a enter insert mode (a after one step right), v
   * enters visual mode anchored at the cursor, h/j/k/l move the cursor. Every
   * other key, ':' included, leaves the state as it is: the ex command it
   * starts only writes the file or yields a verdict its caller discards.
   */
  function CommandKey(st: State, ch: int): (r: State)
    requires InBounds(st.buffer, st.pos)
    ensures r.buffer == st.buffer && r.utf8buffer == st.utf8buffer && InBounds(r.buffer, r.pos)
    ensures Keys.IsMotion(ch) ==> r == st.(pos := Cursor.Motion(st.buffer, st.pos, ch))
    ensures Valid(st) && st.mode == Command ==> Valid(r)
  {
    if ch == Keys.KeyI then st.(mode := Insert)
    else if ch == Keys.KeyA then st.(pos := Cursor.MoveRight(st.buffer, st.pos), mode := Insert)
    else if ch == Keys.KeyV then st.(mode := Visual, visualStart := Some(st.pos))
    else if Keys.IsMotion(ch) then st.(pos := Cursor.Motion(st.buffer, st.pos, ch))
    else st
  }

  /**
   * handle_insert: the key code first goes through the UTF-8 decoding step;
   * then ESC returns to command mode one column left, Enter splits the line,
   * backspace (DEL or KEY_BACKSPACE) removes the character before the cursor,
   * and a completed text whose last byte is not a control code is inserted.
   * The control test looks at the raw key code, not at the decoded text.
   */
  function InsertKey(st: State, ch: int): (r: State)
    requires InBounds(st.buffer, st.pos) && ch >= 0
    ensures r.visualStart == st.visualStart && r.utf8buffer == Utf8.Feed(st.utf8buffer, ch).0
    ensures r.mode == (if ch == Keys.Escape then Command else st.mode)
    ensures Valid(st) && st.mode == Insert ==> Valid(r)
  {
    var (pending, s) := Utf8.Feed(st.utf8buffer, ch);
    var st := st.(utf8buffer := pending);
    var p := st.pos;
    if ch == Keys.Escape then
      st.(mode := Command, pos := Cursor.MoveLeft(p))
    else if ch == Keys.Enter then
      st.(buffer := SplitLine(st.buffer, p), pos := Pos(p.line + 1, 0))
    else if ch == Keys.KeyBackspace || ch == Keys.Delete then
      if p.col > 0 then st.(buffer := DeleteBefore(st.buffer, p), pos := Pos(p.line, p.col - 1))
      else st
    else if s.Some? && s.value != [] && !Keys.IsCtrl(ch) then
      st.(buffer := InsertText(st.buffer, p, s.value), pos := Pos(p.line, p.col + |s.value|))
    else st
  }

  /**
   * handle_visual: ESC and y leave visual mode, d deletes the selection
   * between anchor and cursor and puts the cursor at its start, h/j/k/l move
   * the cursor as in command mode; other keys are ignored.
   */
  function VisualKey(st: State, ch: int): (r: State)
    requires InBounds(st.buffer, st.pos) && st.visualStart.Some? && InBounds(st.buffer, st.visualStart.value)
    ensures r.utf8buffer == st.utf8buffer
    ensures Valid(st) && st.mode == Visual ==> Valid(r)
  {
    if ch == Keys.Escape then st.(mode := Command, visualStart := None)
    else if ch == Keys.KeyD then
      var anchor := st.visualStart.value;
      st.(buffer := DeleteSelection(st.buffer, anchor, st.pos), pos := Ordered(anchor, st.pos).0,
          mode := Command, visualStart := None)
    else if ch == Keys.KeyY then st.(mode := Command, visualStart := None)
    else if Keys.IsMotion(ch) then CommandKey(st, ch)
    else st
  }

  /**
   * handle_input: dispatch on the mode. Negative key codes (curses' ERR) are
   * excluded in insert mode, where Python's bytes() raises on them.
   */
  function Input(st: State, ch: int): (r: State)
    requires Valid(st) && (st.mode == Insert ==> ch >= 0)
    ensures Valid(r)
  {
    match st.mode
    case Command => CommandKey(st, ch)
    case Insert => InsertKey(st, ch)
    case Visual => VisualKey(st, ch)
  }

  /** Motions in command or visual mode move only the cursor; mode, anchor and buffer stay. */
  lemma MotionKeepsMode(st: State, ch: int)
    requires Valid(st) && st.mode != Insert && Keys.IsMotion(ch)
    ensures var r := Input(st, ch);
      && r.buffer == st.buffer && r.mode == st.mode && r.visualStart == st.visualStart
      && r.pos == Cursor.Motion(st.buffer, st.pos, ch)
  {
  }

  /** i enters insert mode in place, a one column right when it can, v anchors visual mode at the cursor. */
  lemma ModeEntry(st: State)
    requires Valid(st) && st.mode == Command
    ensures Input(st, Keys.KeyI) == st.(mode := Insert)
    ensures Input(st, Keys.KeyA) == st.(pos := Cursor.MoveRight(st.buffer, st.pos), mode := Insert)
    ensures Input(st, Keys.KeyV) == st.(mode := Visual, visualStart := Some(st.pos))
  {
  }

  /** In command mode every key other than i, a, v, h, j, k and l changes nothing; so does ':', whose ex command's verdict is dropped. */
  lemma CommandOtherKeys(st: State, ch: int)
    requires Valid(st) && st.mode == Command
    requires ch != Keys.KeyI && ch != Keys.KeyA && ch != Keys.KeyV && !Keys.IsMotion(ch)
    ensures Input(st, ch) == st
    ensures Input(st, Keys.Colon) == st
  {
  }

  /** ESC in insert mode: back to command mode, one column left unless at column 0, nothing pending. */
  lemma EscapeFromInsert(st: State)
    requires Valid(st) && st.mode == Insert
    ensures var r := Input(st, Keys.Escape);
      && r.mode == Command && r.buffer == st.buffer && r.utf8buffer == []
      && r.pos.line == st.pos.line
      && (if st.pos.col > 0 then r.pos.col + 1 == st.pos.col else r.pos.col == 0)
  {
  }

  /**
   * Enter in insert mode: the cursor's line is cut at the cursor, the rest
   * becomes the next line, the two rejoin to the original line, and the
   * cursor goes to the start of the new line.
   */
  lemma EnterSplitsLine(st: State)
    requires Valid(st) && st.mode == Insert
    ensures var r := Input(st, Keys.Enter);
      && r.buffer == SplitLine(st.buffer, st.pos)
      && JoinLines(r.buffer, st.pos.line) == st.buffer
      && r.pos == Pos(st.pos.line + 1, 0) && r.mode == Insert
  {
    SplitThenJoin(st.buffer, st.pos);
  }

  /**
   * A key code that completes a text, is not a control code and is not DEL
   * inserts that text at the cursor and moves the cursor past it.
   */
  lemma TypingInserts(st: State, ch: int)
    requires Valid(st) && st.mode == Insert
    requires 32 <= ch < 256 && ch != Keys.Delete && Utf8.Decode(st.utf8buffer + [ch]).Some?
    ensures var s := Utf8.Decode(st.utf8buffer + [ch]).value;
      var r := Input(st, ch);
      && r.buffer == InsertText(st.buffer, st.pos, s)
      && r.pos == Pos(st.pos.line, st.pos.col + |s|)
      && r.utf8buffer == [] && r.mode == Insert
  {
  }

  /**
   * Backspace (DEL or KEY_BACKSPACE) removes the character before the cursor
   * and moves left; at column 0 it changes neither buffer nor cursor, and in
   * particular does not join the line with the one above.
   */
  lemma BackspaceInInsert(st: State, ch: int)
    requires Valid(st) && st.mode == Insert && (ch == Keys.Delete || ch == Keys.KeyBackspace)
    ensures var r := Input(st, ch);
      && r.mode == Insert
      && (st.pos.col > 0 ==> r.buffer == DeleteBefore(st.buffer, st.pos) && r.pos == Pos(st.pos.line, st.pos.col - 1))
      && (st.pos.col == 0 ==> r.buffer == st.buffer && r.pos == st.pos)
  {
  }

  /**
   * Keys insert mode ignores: a control code (tested on the raw key code, so a
   * tab that decodes is still dropped), a run that does not decode yet or never
   * will, and a special key other than KEY_BACKSPACE. Buffer, cursor and mode
   * stay; only the pending bytes change as the decoding step says.
   */
  lemma InsertOtherKeys(st: State, ch: int)
    requires Valid(st) && st.mode == Insert && ch >= 0
    requires ch != Keys.Escape && ch != Keys.Enter && ch != Keys.Delete && ch != Keys.KeyBackspace
    requires ch >= 256 || Keys.IsCtrl(ch) || Utf8.Decode(st.utf8buffer + [ch]).None?
    ensures Input(st, ch) == st.(utf8buffer := Utf8.Feed(st.utf8buffer, ch).0)
  {
  }

  /** A tab with nothing pending decodes but is a control code: it leaves the state as it was. */
  lemma TabIgnored(st: State)
    requires Valid(st) && st.mode == Insert && st.utf8buffer == []
    ensures Input(st, 9) == st
  {
    Utf8.FeedAscii(9);
  }

  /**
   * A three-byte character typed one byte at a time: the first two bytes
   * leave buffer and cursor alone and stay pending; the third inserts exactly
   * that character, moves one column right and empties the pending bytes.
   */
  lemma ThreeByteCharTyped(st: State, c: char)
    requires Valid(st) && st.mode == Insert && st.utf8buffer == []
    requires 0x800 <= c as int < 0x1_0000
    ensures var e := Utf8.EncodeChar(c);
      var st1 := Input(st, e[0]);
      var st2 := Input(st1, e[1]);
      var st3 := Input(st2, e[2]);
      && st1 == st.(utf8buffer := [e[0]])
      && st2 == st.(utf8buffer := [e[0], e[1]])
      && st3 == st.(buffer := InsertText(st.buffer, st.pos, [c]), pos := Pos(st.pos.line, st.pos.col + 1))
  {
    Utf8.FeedThreeBytes(c);
    var e := Utf8.EncodeChar(c);
    assert e[0] >= 0xE0 && e[1] >= 0x80 && e[2] >= 0x80;
    var st1 := Input(st, e[0]);
    assert st1 == st.(utf8buffer := [e[0]]);
    var st2 := Input(st1, e[1]);
    assert st2 == st.(utf8buffer := [e[0], e[1]]);
  }

  /** ESC and y in visual mode drop the anchor and return to command mode without touching the buffer. */
  lemma LeaveVisual(st: State, ch: int)
    requires Valid(st) && st.mode == Visual && (ch == Keys.Escape || ch == Keys.KeyY)
    ensures Input(st, ch) == st.(mode := Command, visualStart := None)
  {
  }

  /**
   * d in visual mode: the result does not depend on which end is the anchor;
   * the buffer is the selection deleted, the cursor lands on the earlier end,
   * the mode is command and the anchor is gone.
   */
  lemma VisualDeleteSymmetric(st: State)
    requires Valid(st) && st.mode == Visual
    ensures var swapped := st.(pos := st.visualStart.value, visualStart := Some(st.pos));
      && Valid(swapped)
      && Input(st, Keys.KeyD) == Input(swapped, Keys.KeyD)
      && Input(st, Keys.KeyD).mode == Command
      && Input(st, Keys.KeyD).visualStart == None
      && !After(Input(st, Keys.KeyD).pos, st.pos)
      && !After(Input(st, Keys.KeyD).pos, st.visualStart.value)
      && Input(st, Keys.KeyD).pos == Ordered(st.visualStart.value, st.pos).0
      && Input(st, Keys.KeyD).buffer == DeleteSelection(st.buffer, st.visualStart.value, st.pos)
  {
    DeleteSelectionSymmetric(st.buffer, st.visualStart.value, st.pos);
  }

  /** d with the anchor on the cursor deletes nothing. */
  lemma VisualDeleteEmpty(st: State)
    requires Valid(st) && st.mode == Visual && st.visualStart == Some(st.pos)
    ensures Input(st, Keys.KeyD) == st.(mode := Command, visualStart := None)
  {
    DeleteEmptySelection(st.buffer, st.pos);
  }

  /** In visual mode every key other than ESC, d, y, h, j, k and l changes nothing. */
  lemma VisualOtherKeys(st: State, ch: int)
    requires Valid(st) && st.mode == Visual
    requires ch != Keys.Escape && ch != Keys.KeyD && ch != Keys.KeyY && !Keys.IsMotion(ch)
    ensures Input(st, ch) == st
  {
  }

  /** From ["hello"] at (0, 0): i, X, ESC gives ["Xhello"] with the cursor back at (0, 0). */
  lemma TypeAtStartExample()
    ensures var st0 := Initial(["hello"]);
      var st1 := Input(st0, Keys.KeyI);
      var st2 := Input(st1, 'X' as int);
      var st3 := Input(st2, Keys.Escape);
      st3 == State(["Xhello"], Pos(0, 0), Command, None, [])
  {
    var st2 := Input(Input(Initial(["hello"]), Keys.KeyI), 'X' as int);
    Utf8.FeedAscii('X' as int);
    assert "hello"[..0] + "X" + "hello"[0..] == "Xhello";
    assert st2.buffer == ["Xhello"];
  }
}
