/**
 * Display widths: the editor counts a character with code point above 127 as
 * two terminal cells and every other character as one. These functions
 * specify the editor's buffer2x (codepoint column to screen column) and
 * pos2buffer (screen column back to codepoint column).
 */
module Width {

  /** Cells one character takes on screen. */
  function CharWidth(c: char): (w: nat)
    ensures 1 <= w <= 2
  {
    if c as int > 127 then 2 else 1
  }

  /**
   * Cells a text takes on screen: the widths of its characters summed from the
   * left. It is at least one cell per character, and exactly that when every
   * character is ASCII.
   */
  function DisplayWidth(s: string): (w: nat)
    ensures w >= |s|
    ensures w == |s| <==> forall i :: 0 <= i < |s| ==> s[i] as int <= 127
  {
    if s == [] then 0 else DisplayWidth(s[..|s| - 1]) + CharWidth(s[|s| - 1])
  }

  /** Every character takes one or two cells, so a text of n characters takes n to 2n cells. */
  lemma {:induction false} WidthBounds(s: string)
    ensures |s| <= DisplayWidth(s) <= 2 * |s|
  {
    if s != [] {
      WidthBounds(s[..|s| - 1]);
    }
  }

  /** Extending a prefix by one character adds that character's width. */
  lemma PrefixWidthStep(s: string, i: nat)
    requires i < |s|
    ensures DisplayWidth(s[..i + 1]) == DisplayWidth(s[..i]) + CharWidth(s[i])
  {
    assert s[..i + 1][..i] == s[..i];
  }

  /** Longer prefixes are strictly wider. */
  lemma {:induction false} PrefixWidthIncreasing(s: string, i: nat, j: nat)
    requires i < j <= |s|
    ensures DisplayWidth(s[..i]) < DisplayWidth(s[..j])
    decreases j
  {
    PrefixWidthStep(s, j - 1);
    if i < j - 1 {
      PrefixWidthIncreasing(s, i, j - 1);
    }
  }

  /**
   * The scan of pos2buffer from index i on: the first index whose prefix is at
   * least x cells wide; once the line is exhausted, the index of the last
   * character plus the cells still missing plus one.
   */
  function ColumnFrom(line: string, x: int, i: nat): (col: int)
    requires i <= |line|
    ensures forall k :: i <= k < |line| && DisplayWidth(line[..k]) >= x ==> col <= k
    ensures forall k :: i <= k < col && k < |line| ==> DisplayWidth(line[..k]) < x
    ensures (exists k :: i <= k < |line| && DisplayWidth(line[..k]) >= x) ==>
      i <= col < |line| && DisplayWidth(line[..col]) >= x
    ensures (forall k :: i <= k < |line| ==> DisplayWidth(line[..k]) < x) ==>
      col == |line| + (x - DisplayWidth(line))
    decreases |line| - i
  {
    if i == |line| then (|line| - 1) + (x - DisplayWidth(line)) + 1
    else if DisplayWidth(line[..i]) >= x then i
    else ColumnFrom(line, x, i + 1)
  }

  /**
   * pos2buffer on one line. On an empty line the scan never starts and the
   * result is x + 1, one past what the same formula gives on a non-empty line.
   */
  function ScreenToColumn(line: string, x: int): (col: int)
    ensures line == [] ==> col == x + 1
    ensures line != [] && x <= 0 ==> col == 0
  {
    if line == [] then x + 1 else ColumnFrom(line, x, 0)
  }

  lemma {:induction false} ColumnFromOfWidth(line: string, p: nat, i: nat)
    requires i <= p <= |line| && line != []
    ensures ColumnFrom(line, DisplayWidth(line[..p]), i) == p
    decreases p - i
  {
    var x := DisplayWidth(line[..p]);
    if i < p {
      PrefixWidthIncreasing(line, i, p);
      ColumnFromOfWidth(line, p, i + 1);
    } else if p == |line| {
      assert line[..p] == line;
    }
  }

  /** Round trip: on a non-empty line, the screen column of codepoint column p maps back to p. */
  lemma ScreenToColumnOfWidth(line: string, p: nat)
    requires line != [] && p <= |line|
    ensures ScreenToColumn(line, DisplayWidth(line[..p])) == p
  {
    ColumnFromOfWidth(line, p, 0);
  }

  lemma {:induction false} ColumnFromPastEnd(line: string, x: int, i: nat)
    requires i <= |line| && line != [] && x >= DisplayWidth(line)
    ensures ColumnFrom(line, x, i) == |line| + (x - DisplayWidth(line))
    decreases |line| - i
  {
    if i < |line| {
      PrefixWidthIncreasing(line, i, |line|);
      assert line[..|line|] == line;
      ColumnFromPastEnd(line, x, i + 1);
    }
  }

  /**
   * A screen column at or beyond the end of a non-empty line is extrapolated:
   * each cell beyond the line's width counts as one more column.
   */
  lemma ScreenToColumnPastEnd(line: string, x: int)
    requires line != [] && x >= DisplayWidth(line)
    ensures ScreenToColumn(line, x) == |line| + (x - DisplayWidth(line))
  {
    ColumnFromPastEnd(line, x, 0);
  }

  /**
   * The screen column inside a wide character rounds up to the next character,
   * except inside the last character of the line, where the end formula
   * rounds it down; on an empty line, every column x maps to x + 1, past the
   * line's end.
   */
  lemma ScreenToColumnEdgeCases()
    ensures ScreenToColumn("\U{4E2D}a", 1) == 1
    ensures ScreenToColumn("\U{4E2D}", 1) == 0
    ensures ScreenToColumn("", 0) == 1
    ensures forall x :: ScreenToColumn("", x) == x + 1
  {
    assert "\U{4E2D}a"[..0] == "" && "\U{4E2D}a"[..1] == "\U{4E2D}";
    assert "\U{4E2D}"[..0] == "" && "\U{4E2D}"[..1] == "\U{4E2D}";
    assert DisplayWidth("\U{4E2D}") == 2 by {
      assert "\U{4E2D}"[..0] == "";
    }
  }
}
