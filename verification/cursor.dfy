/**
 * Cursor motions: h, j, k and l in command and visual mode, and the single
 * steps left and right that ESC in insert mode and the `a` command take.
 */
module Cursor {
  import opened Lines
  import Keys

  function Min(a: nat, b: nat): (m: nat) {
    if a < b then a else b
  }

  /** One column left, unless already at the start of the line. */
  function MoveLeft(p: Pos): (r: Pos)
    ensures r.line == p.line
    ensures p.col > 0 ==> r.col + 1 == p.col
    ensures p.col == 0 ==> r == p
  {
    if p.col > 0 then Pos(p.line, p.col - 1) else p
  }

  /** One column right, unless already at the past-end column of the line. */
  function MoveRight(buf: seq<string>, p: Pos): (r: Pos)
    requires InBounds(buf, p)
    ensures InBounds(buf, r) && r.line == p.line
    ensures p.col < |buf[p.line]| ==> r.col == p.col + 1
    ensures p.col == |buf[p.line]| ==> r == p
  {
    if p.col < |buf[p.line]| then Pos(p.line, p.col + 1) else p
  }

  /** One line down when there is one, the column cut to that line's length. */
  function MoveDown(buf: seq<string>, p: Pos): (r: Pos)
    requires InBounds(buf, p)
    ensures InBounds(buf, r)
    ensures p.line + 1 < |buf| ==> r.line == p.line + 1 && r.col == Min(p.col, |buf[r.line]|)
    ensures p.line + 1 == |buf| ==> r == p
  {
    if p.line < |buf| - 1 then Pos(p.line + 1, Min(p.col, |buf[p.line + 1]|)) else p
  }

  /** One line up when there is one, the column cut to that line's length. */
  function MoveUp(buf: seq<string>, p: Pos): (r: Pos)
    requires InBounds(buf, p)
    ensures InBounds(buf, r)
    ensures p.line > 0 ==> r.line + 1 == p.line && r.col == Min(p.col, |buf[r.line]|)
    ensures p.line == 0 ==> r == p
  {
    if p.line > 0 then Pos(p.line - 1, Min(p.col, |buf[p.line - 1]|)) else p
  }

  /** The motion a key selects: h left, l right, j down, k up. */
  function Motion(buf: seq<string>, p: Pos, ch: int): (r: Pos)
    requires InBounds(buf, p) && Keys.IsMotion(ch)
    ensures InBounds(buf, r)
  {
    if ch == Keys.KeyH then MoveLeft(p)
    else if ch == Keys.KeyL then MoveRight(buf, p)
    else if ch == Keys.KeyJ then MoveDown(buf, p)
    else MoveUp(buf, p)
  }

  /**
   * h and l move within the line by exactly one column and only inside
   * [0, length]; j and k move by exactly one line and only onto a line that
   * exists; a motion that cannot be made leaves the cursor where it is.
   */
  lemma MotionSteps(buf: seq<string>, p: Pos, ch: int)
    requires InBounds(buf, p) && Keys.IsMotion(ch)
    ensures var r := Motion(buf, p, ch);
      && (ch == Keys.KeyH || ch == Keys.KeyL ==>
            r.line == p.line && (r == p || r.col == p.col + 1 || r.col + 1 == p.col))
      && (ch == Keys.KeyH ==> (r == p <==> p.col == 0))
      && (ch == Keys.KeyL ==> (r == p <==> p.col == |buf[p.line]|))
      && (ch == Keys.KeyJ || ch == Keys.KeyK ==>
            r == p || (r.col == Min(p.col, |buf[r.line]|) && (r.line == p.line + 1 || r.line + 1 == p.line)))
      && (ch == Keys.KeyJ ==> (r == p <==> p.line + 1 == |buf|))
      && (ch == Keys.KeyK ==> (r == p <==> p.line == 0))
  {
  }
}
