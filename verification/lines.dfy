/**
 * The line buffer and its structural edits: the editor's list of lines, edited
 * at a (line, codepoint column) position by line splits, text insertion,
 * backspace and the deletion of a visual selection.
 */
module Lines {

  /** A cursor or anchor position: line index and codepoint column. */
  datatype Pos = Pos(line: nat, col: nat)

  /** p names a line of buf and a column from 0 to that line's length (the past-end insert point). */
  predicate InBounds(buf: seq<string>, p: Pos) {
    p.line < |buf| && p.col <= |buf[p.line]|
  }

  /** a comes strictly after b in (line, column) order. */
  predicate After(a: Pos, b: Pos) {
    a.line > b.line || (a.line == b.line && a.col > b.col)
  }

  /**
   * Enter in insert mode: the line at p keeps its text before the column and a
   * new line holding the rest is inserted right after it.
   */
  function SplitLine(buf: seq<string>, p: Pos): (r: seq<string>)
    requires InBounds(buf, p)
    ensures |r| == |buf| + 1
    ensures |r[p.line]| == p.col && r[p.line] + r[p.line + 1] == buf[p.line]
    ensures forall i :: 0 <= i < p.line ==> r[i] == buf[i]
    ensures forall i :: p.line + 1 < i < |r| ==> r[i] == buf[i - 1]
  {
    var text := buf[p.line];
    buf[..p.line] + [text[..p.col], text[p.col..]] + buf[p.line + 1..]
  }

  /**
   * The split as two edits: the line is cut to its text before the column,
   * then the rest is inserted as a new line right after it.
   */
  lemma SplitInTwoSteps(buf: seq<string>, p: Pos)
    requires InBounds(buf, p)
    ensures var cut := buf[p.line := buf[p.line][..p.col]];
      SplitLine(buf, p) == cut[..p.line + 1] + [buf[p.line][p.col..]] + cut[p.line + 1..]
  {
    var cut := buf[p.line := buf[p.line][..p.col]];
    assert cut[..p.line + 1] == buf[..p.line] + [buf[p.line][..p.col]];
    assert cut[p.line + 1..] == buf[p.line + 1..];
  }

  /** Line l and the line after it made into one line. */
  function JoinLines(buf: seq<string>, l: nat): (r: seq<string>)
    requires l + 1 < |buf|
    ensures |r| == |buf| - 1
  {
    buf[..l] + [buf[l] + buf[l + 1]] + buf[l + 2..]
  }

  /** Splitting a line and joining the two halves again gives back the buffer. */
  lemma SplitThenJoin(buf: seq<string>, p: Pos)
    requires InBounds(buf, p)
    ensures JoinLines(SplitLine(buf, p), p.line) == buf
  {
    var r := SplitLine(buf, p);
    var j := JoinLines(r, p.line);
    assert forall i :: 0 <= i < |buf| ==> j[i] == buf[i] by {
      forall i | 0 <= i < |buf| ensures j[i] == buf[i] {
        if i > p.line {
          assert j[i] == r[i + 1];
        }
      }
    }
  }

  /** Typed text s goes in at column p.col of line p.line; nothing else changes. */
  function InsertText(buf: seq<string>, p: Pos, s: string): (r: seq<string>)
    requires InBounds(buf, p)
    ensures |r| == |buf| && InBounds(r, Pos(p.line, p.col + |s|))
    ensures |r[p.line]| == |buf[p.line]| + |s|
    ensures r[p.line][..p.col] == buf[p.line][..p.col]
    ensures r[p.line][p.col..p.col + |s|] == s
    ensures r[p.line][p.col + |s|..] == buf[p.line][p.col..]
    ensures forall i :: 0 <= i < |buf| && i != p.line ==> r[i] == buf[i]
  {
    var text := buf[p.line];
    buf[p.line := text[..p.col] + s + text[p.col..]]
  }

  /** Backspace at a column after the first: exactly the character before the cursor goes. */
  function DeleteBefore(buf: seq<string>, p: Pos): (r: seq<string>)
    requires InBounds(buf, p) && p.col > 0
    ensures |r| == |buf| && InBounds(r, Pos(p.line, p.col - 1))
    ensures |r[p.line]| == |buf[p.line]| - 1
    ensures forall k :: 0 <= k < p.col - 1 ==> r[p.line][k] == buf[p.line][k]
    ensures forall k :: p.col - 1 <= k < |r[p.line]| ==> r[p.line][k] == buf[p.line][k + 1]
    ensures forall i :: 0 <= i < |buf| && i != p.line ==> r[i] == buf[i]
  {
    var text := buf[p.line];
    buf[p.line := text[..p.col - 1] + text[p.col..]]
  }

  /** Typing one character and then backspacing over it restores the buffer. */
  lemma TypeThenBackspace(buf: seq<string>, p: Pos, c: char)
    requires InBounds(buf, p)
    ensures DeleteBefore(InsertText(buf, p, [c]), Pos(p.line, p.col + 1)) == buf
  {
    var text := buf[p.line];
    var typed := text[..p.col] + [c] + text[p.col..];
    assert typed[..p.col] + typed[p.col + 1..] == text;
  }

  /** The selection's ends in (line, column) order, whichever of anchor and cursor comes first. */
  function Ordered(anchor: Pos, cursor: Pos): (r: (Pos, Pos))
    ensures !After(r.0, r.1)
    ensures (r.0 == anchor && r.1 == cursor) || (r.0 == cursor && r.1 == anchor)
  {
    if After(anchor, cursor) then (cursor, anchor) else (anchor, cursor)
  }

  /**
   * Deletes the text from s (inclusive) to e (exclusive): line s.line keeps its
   * text before s.col followed by line e.line's text from e.col, and the lines
   * after it up to and including e.line are removed.
   */
  function DeleteRange(buf: seq<string>, s: Pos, e: Pos): (r: seq<string>)
    requires InBounds(buf, s) && InBounds(buf, e) && !After(s, e)
    ensures |r| == |buf| - (e.line - s.line) && InBounds(r, s)
    ensures r[..s.line] == buf[..s.line]
    ensures r[s.line] == buf[s.line][..s.col] + buf[e.line][e.col..]
    ensures r[s.line + 1..] == buf[e.line + 1..]
  {
    buf[..s.line] + [buf[s.line][..s.col] + buf[e.line][e.col..]] + buf[e.line + 1..]
  }

  /** The buffer after deleting the selection between anchor and cursor. */
  function DeleteSelection(buf: seq<string>, anchor: Pos, cursor: Pos): (r: seq<string>)
    requires InBounds(buf, anchor) && InBounds(buf, cursor)
    ensures |r| >= 1 && InBounds(r, Ordered(anchor, cursor).0)
  {
    var (s, e) := Ordered(anchor, cursor);
    DeleteRange(buf, s, e)
  }

  /** The deletion depends only on the two ends, not on which one is the anchor. */
  lemma DeleteSelectionSymmetric(buf: seq<string>, a: Pos, b: Pos)
    requires InBounds(buf, a) && InBounds(buf, b)
    ensures Ordered(a, b) == Ordered(b, a)
    ensures DeleteSelection(buf, a, b) == DeleteSelection(buf, b, a)
  {
  }

  /** An empty selection deletes nothing. */
  lemma DeleteEmptySelection(buf: seq<string>, a: Pos)
    requires InBounds(buf, a)
    ensures DeleteSelection(buf, a, a) == buf
  {
    var text := buf[a.line];
    assert text[..a.col] + text[a.col..] == text;
    assert buf[..a.line] + [text] + buf[a.line + 1..] == buf;
  }

  /** Within one line the deletion splices columns s.col up to e.col out of that line alone. */
  lemma DeleteWithinLine(buf: seq<string>, s: Pos, e: Pos)
    requires InBounds(buf, s) && InBounds(buf, e) && s.line == e.line && s.col <= e.col
    ensures DeleteRange(buf, s, e) == buf[s.line := buf[s.line][..s.col] + buf[s.line][e.col..]]
  {
  }

  /**
   * Across lines the deletion is the two-step edit: line s.line becomes the
   * joined text, then the lines after it up to and including e.line go.
   */
  lemma DeleteAcrossLines(buf: seq<string>, s: Pos, e: Pos)
    requires InBounds(buf, s) && InBounds(buf, e) && s.line < e.line
    ensures var joined := buf[s.line := buf[s.line][..s.col] + buf[e.line][e.col..]];
      DeleteRange(buf, s, e) == joined[..s.line + 1] + joined[e.line + 1..]
  {
    var joined := buf[s.line := buf[s.line][..s.col] + buf[e.line][e.col..]];
    assert joined[..s.line + 1] == buf[..s.line] + [joined[s.line]];
    assert joined[e.line + 1..] == buf[e.line + 1..];
  }

  /** Selecting from (0,1) to (1,1) in ["ab", "cd"] and deleting leaves ["ad"]. */
  lemma DeleteAcrossLinesExample()
    ensures DeleteSelection(["ab", "cd"], Pos(0, 1), Pos(1, 1)) == ["ad"]
    ensures DeleteSelection(["ab", "cd"], Pos(1, 1), Pos(0, 1)) == ["ad"]
  {
    assert "ab"[..1] + "cd"[1..] == "ad";
  }
}
