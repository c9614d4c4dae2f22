/** The four 4K frames that video output can land in, and which of them the
    page at 0xB8000 names for a given pair of foreground and scheduled terminal. */
module VideoFrames {

  const NUM_TERMINALS := 3
  /** The visible text of a frame. */
  const COLS := 80
  const ROWS := 25
  const CELLS := ROWS * COLS
  /** Character cells in a 4K frame; the last 48 lie below the visible rows. */
  const FRAME_CELLS := 2048

  predicate IsTerminal(t: int) {
    0 <= t < NUM_TERMINALS
  }

  type Terminal = t: int | 0 <= t < NUM_TERMINALS

  /** Physical frames: the VGA text buffer, and one back buffer per terminal. */
  datatype Frame = Vga | Buffer(terminal: int)

  /** The target that set_vmem_table gives the 0xB8000 page for terminal t. */
  function Mapped(foreground: int, t: int): Frame {
    if foreground == t then Vga else Buffer(t)
  }
}
