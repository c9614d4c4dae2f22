/** A terminal's text as an unbounded log of wrapped rows, and the 25x80 window of it that a
    frame shows. This is the reference that video output is measured against. */
module TextLog {
  import opened Common
  import opened VideoFrames

  datatype Cell = Cell(ch: int, attr: int)

  predicate IsFrame(f: seq<Cell>) {
    |f| == FRAME_CELLS
  }

  /** rows[|rows| - 1] is the row being written. Rows that were on the screen from the start are
      filled with `blank`, rows scrolled in later with NUL. */
  datatype Log = Log(rows: seq<seq<int>>, blank: int, attr: int)

  ghost predicate WellFormed(l: Log) {
    && l.rows != []
    && (forall r :: 0 <= r < |l.rows| ==> |l.rows[r]| <= COLS)
    && |l.rows[|l.rows| - 1]| < COLS
  }

  function NewLog(blank: int, attr: int): Log {
    Log([[]], blank, attr)
  }

  function LastRow(l: Log): seq<int>
    requires l.rows != []
  {
    l.rows[|l.rows| - 1]
  }

  /** Sending one character to a terminal. */
  function Put(l: Log, c: int): Log
    requires l.rows != []
  {
    var done := l.rows[..|l.rows| - 1];
    var row := LastRow(l) + [c];
    if c == 10 || c == 13 then l.(rows := l.rows + [[]])
    else if |row| < COLS then l.(rows := done + [row])
    else l.(rows := done + [row, []])
  }

  /** The first row of the log that is still visible. */
  function Top(l: Log): int {
    if |l.rows| <= ROWS then 0 else |l.rows| - ROWS
  }

  /** What stands in row r, column x of the log. */
  function At(l: Log, r: int, x: int): Cell {
    if 0 <= r < |l.rows| && 0 <= x < |l.rows[r]| then Cell(l.rows[r][x], l.attr)
    else Cell(if r < ROWS then l.blank else 0, l.attr)
  }

  /** The frame is the 25-row window that ends at the log's last row. */
  ghost predicate Shows(f: seq<Cell>, l: Log) {
    IsFrame(f) && forall i :: 0 <= i < CELLS ==> f[i] == At(l, Top(l) + i / COLS, i % COLS)
  }

  /** A frame with its cursor. */
  datatype Pane = Pane(frame: seq<Cell>, x: int, y: int)

  ghost predicate Renders(p: Pane, l: Log) {
    && WellFormed(l)
    && Shows(p.frame, l)
    && p.x == |LastRow(l)|
    && p.y == |l.rows| - 1 - Top(l)
  }

  // ----- What the code does to one frame and its cursor -----

  /** putc's test for a new line. */
  predicate IsNewline(c: int) {
    c in {10, 13}
  }

  /** scroll and mt_scroll. */
  function Scrolled(f: seq<Cell>, attr: int): (r: seq<Cell>)
    requires IsFrame(f)
    ensures IsFrame(r)
  {
    f[COLS..CELLS] + seq(COLS, _ => Cell(0, attr)) + f[CELLS..]
  }

  function Cleared(f: seq<Cell>, attr: int): (r: seq<Cell>)
    requires IsFrame(f)
    ensures IsFrame(r)
  {
    seq(CELLS, _ => Cell(32, attr)) + f[CELLS..]
  }

  /** The cell is written only when its address lies inside the page. */
  function Poked(f: seq<Cell>, i: int, c: Cell): (r: seq<Cell>)
    requires IsFrame(f) && 0 <= i
    ensures IsFrame(r)
  {
    if i < FRAME_CELLS then f[i := c] else f
  }

  /** putc and mt_putc before the bottom-of-screen test. The wrap test looks at the terminal's own column,
      or at `watched` when another terminal's column is tested instead. */
  function Emitted(p: Pane, attr: int, c: int, watched: Option<int>): (r: Pane)
    requires IsFrame(p.frame) && p.x >= 0 && p.y >= 0
    ensures IsFrame(r.frame) && r.x >= 0 && r.y >= 0
  {
    var q := if IsNewline(c) then Pane(p.frame, 0, p.y + 1)
             else Pane(Poked(p.frame, COLS * p.y + p.x, Cell(c, attr)), p.x + 1, p.y);
    if (if watched.Some? then watched.value else q.x) >= COLS then Pane(q.frame, 0, q.y + 1) else q
  }

  function Settled(p: Pane, attr: int): (r: Pane)
    requires IsFrame(p.frame) && p.x >= 0 && p.y >= 0
    ensures IsFrame(r.frame) && r.x >= 0 && r.y >= 0
  {
    if p.y >= ROWS then Pane(Scrolled(p.frame, attr), 0, ROWS - 1) else p
  }

  // ----- One character keeps frame and log in step -----

  lemma PutWellFormed(l: Log, c: int)
    requires WellFormed(l)
    ensures WellFormed(Put(l, c))
    ensures |Put(l, c).rows| == |l.rows| + (if IsNewline(c) || |LastRow(l)| == COLS - 1 then 1 else 0)
    ensures |LastRow(Put(l, c))| == if IsNewline(c) || |LastRow(l)| == COLS - 1 then 0 else |LastRow(l)| + 1
  {
  }

  /** Only the cell under the cursor changes in the log. */
  lemma PutAt(l: Log, c: int, r: int, x: int)
    requires WellFormed(l) && 0 <= r && 0 <= x < COLS
    ensures At(Put(l, c), r, x) ==
            if !IsNewline(c) && r == |l.rows| - 1 && x == |LastRow(l)| then Cell(c, l.attr) else At(l, r, x)
  {
    var l' := Put(l, c);
    if r < |l.rows| - 1 {
      assert l'.rows[r] == l.rows[r];
    } else if r == |l.rows| - 1 && !IsNewline(c) {
      assert l'.rows[r] == LastRow(l) + [c];
    }
  }

  /** Written to a frame that renders the log, a character shows up at the cursor; the window has not moved yet. */
  lemma EmitCells(p: Pane, l: Log, c: int, i: int)
    requires Renders(p, l) && 0 <= i < CELLS
    ensures Emitted(p, l.attr, c, None).frame[i] == At(Put(l, c), Top(l) + i / COLS, i % COLS)
  {
    PutAt(l, c, Top(l) + i / COLS, i % COLS);
    assert i == COLS * (i / COLS) + i % COLS;
  }

  lemma ScrollCells(f: seq<Cell>, attr: int, i: int)
    requires IsFrame(f) && 0 <= i < CELLS
    ensures Scrolled(f, attr)[i] == if i < CELLS - COLS then f[i + COLS] else Cell(0, attr)
  {
  }

  /** putc keeps the frame the window of the log, with the cursor at the log's end. */
  lemma EmitRenders(p: Pane, l: Log, c: int)
    requires Renders(p, l)
    ensures Renders(Settled(Emitted(p, l.attr, c, None), l.attr), Put(l, c))
    ensures Top(Put(l, c)) == Top(l) + if Emitted(p, l.attr, c, None).y >= ROWS then 1 else 0
  {
    PutWellFormed(l, c);
    var l', q := Put(l, c), Emitted(p, l.attr, c, None);
    var q' := Settled(q, l.attr);
    forall i | 0 <= i < CELLS ensures q'.frame[i] == At(l', Top(l') + i / COLS, i % COLS) {
      if q.y >= ROWS {
        ScrollCells(q.frame, l.attr, i);
        if i < CELLS - COLS {
          EmitCells(p, l, c, i + COLS);
        }
      } else {
        EmitCells(p, l, c, i);
      }
    }
  }

  /** With another terminal's column tested, the same holds exactly when the row does not fill up. */
  lemma BlindEmitRenders(p: Pane, l: Log, c: int, watched: int)
    requires Renders(p, l) && watched < COLS
    ensures Renders(Settled(Emitted(p, l.attr, c, Some(watched)), l.attr), Put(l, c))
            <==> IsNewline(c) || |LastRow(l)| < COLS - 1
  {
    if IsNewline(c) || |LastRow(l)| < COLS - 1 {
      EmitRenders(p, l, c);
    } else {
      PutWellFormed(l, c);
    }
  }

  // ----- What one character is to be seen to do, in numbers -----

  /** The frame has moved up by `up` rows, with NULs behind it, except that the cell numbered `drawn` before that holds
      a character now, if there is one. */
  ghost predicate MovedUp(f: seq<Cell>, f': seq<Cell>, up: int, attr: int, drawn: int, c: int) {
    && |f| == |f'| == 2048 && 0 <= up
    && forall i {:trigger f'[i]} :: 0 <= i < 2000 ==>
         f'[i] == if i + 80 * up >= 2000 then Cell(0, attr)
                  else if i + 80 * up == drawn then Cell(c, attr)
                  else f[i + 80 * up]
  }

  /** A character of its own cell, or a new row; behind column 79 the next row follows, and behind row 24 the frame
      moves up. */
  ghost predicate Drawn(p: Pane, p': Pane, attr: int, c: int) {
    var row := if p.y < 24 then p.y + 1 else 24;
    if c == 10 || c == 13 then
      p'.x == 0 && p'.y == row && MovedUp(p.frame, p'.frame, if p.y < 24 then 0 else 1, attr, -1, c)
    else if p.x < 79 then
      p'.x == p.x + 1 && p'.y == p.y && MovedUp(p.frame, p'.frame, 0, attr, 80 * p.y + p.x, c)
    else
      p'.x == 0 && p'.y == row && MovedUp(p.frame, p'.frame, if p.y < 24 then 0 else 1, attr, 80 * p.y + p.x, c)
  }

  lemma EmitDraws(p: Pane, l: Log, c: int)
    requires Renders(p, l)
    ensures Drawn(p, Settled(Emitted(p, l.attr, c, None), l.attr), l.attr, c)
  {
  }

  /** With another terminal's column tested the same is seen, but behind column 79 the cursor just runs on. */
  lemma BlindEmitDraws(p: Pane, l: Log, c: int, watched: int)
    requires Renders(p, l) && watched < 80
    ensures var p' := Settled(Emitted(p, l.attr, c, Some(watched)), l.attr);
            if p.x < 79 || c == 10 || c == 13 then Drawn(p, p', l.attr, c)
            else p'.x == 80 && p'.y == p.y && MovedUp(p.frame, p'.frame, 0, l.attr, 80 * p.y + 79, c)
  {
  }

  lemma ClearRenders(f: seq<Cell>, attr: int)
    requires IsFrame(f)
    ensures Renders(Pane(Cleared(f, attr), 0, 0), NewLog(32, attr))
  {
  }
}
