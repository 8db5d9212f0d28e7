/** Key codes the editor reacts to, as curses delivers them from getch. */
module Keys {
  const Enter := 10
  const Escape := 27
  /** DEL, which terminals send for the backspace key. */
  const Delete := 127
  /** curses.KEY_BACKSPACE in ncurses (octal 0407); every curses special key is 256 or more. */
  const KeyBackspace := 263

  const KeyA := 'a' as int
  const KeyD := 'd' as int
  const KeyH := 'h' as int
  const KeyI := 'i' as int
  const KeyJ := 'j' as int
  const KeyK := 'k' as int
  const KeyL := 'l' as int
  const KeyV := 'v' as int
  const KeyY := 'y' as int
  const Colon := ':' as int

  /** The four cursor motions shared by command and visual mode. */
  predicate IsMotion(ch: int) {
    ch == KeyH || ch == KeyJ || ch == KeyK || ch == KeyL
  }

  /** curses.ascii.isctrl: a code below 32. */
  predicate IsCtrl(ch: int) {
    0 <= ch < 32
  }
}
