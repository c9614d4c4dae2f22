/** The input line of one terminal, with its cursor on the screen: term_putc, term_move_left/right and term_read of
    student-distrib/terminal.c over the cursor movements of lib.c. */
module LineEditor {
  import opened Common
  import opened VideoFrames
  import opened EditorSpec
  import Paging

  /** The address of the VGA frame as the kernel uses it: behind the pages of the three back buffers. */
  const VIDEO_MEM := (Paging.NUM_PDS + 1) * Paging.OFFSET_4M + 3 * Paging.OFFSET_4K

  /** Screen memory: the character at each cell, numbered from the first one of the VGA frame in both directions. */
  class Video {
    var cells: map<int, int>

    constructor (cells: map<int, int>)
      ensures this.cells == cells
    {
      this.cells := cells;
    }

    ghost predicate HasScreen()
      reads this
    {
      forall j :: 0 <= j < CELLS ==> j in cells
    }
  }

  /** The test that putc makes of a cell's address: at two bytes a cell, it lets negative cells pass. */
  predicate Writable(cell: int) {
    VIDEO_MEM + 2 * cell > 0 && 2 * cell < 2 * FRAME_CELLS - 1
  }

  /** The cells before the VGA frame belong to the back buffer of terminal 2; it shows its first 2000. */
  lemma BeforeTheScreen(cell: int)
    requires -FRAME_CELLS <= cell < 0
    ensures Writable(cell) && VIDEO_MEM + 2 * cell == Paging.Address(Buffer(2)) + 2 * (FRAME_CELLS + cell)
    ensures FRAME_CELLS + cell < CELLS <==> cell < -48
  {
  }

  /** A character printed at a cell, and the scroll that follows in the last one. */
  function Print(cells: map<int, int>, cell: int, c: int): (r: map<int, int>)
    requires forall j :: 0 <= j < CELLS ==> j in cells
    ensures cells.Keys <= r.Keys
  {
    var put := if Writable(cell) then cells[cell := c] else cells;
    if cell == LAST_CELL then Scrolled(put) else put
  }

  function Scrolled(cells: map<int, int>): (r: map<int, int>)
    requires forall j :: 0 <= j < CELLS ==> j in cells
    ensures r.Keys == cells.Keys
  {
    map j | j in cells ::
      if 0 <= j < CELLS - COLS then cells[j + COLS] else if CELLS - COLS <= j < CELLS then 0 else cells[j]
  }

  /** An empty line can begin anywhere on the screen behind the protected text. */
  lemma EmptyLine()
    ensures forall p: Position :: 0 <= p.cell <= LAST_CELL && p.start <= p.cell ==> OnDoc(p, Doc([], 0, p.cell))
  {
  }

  // ----- What up_hist leaves in screen memory -----

  predicate Within(j: int, start: int, n: int) {
    start <= j < start + n && Writable(j)
  }

  /** The text has been written from cell start on, and no other cell has changed. */
  ghost predicate Overwritten(cells: map<int, int>, cells': map<int, int>, start: int, text: seq<int>) {
    && (forall j {:trigger j in cells'} {:trigger j in cells} ::
          j in cells' <==> j in cells || Within(j, start, |text|))
    && (forall j {:trigger cells'[j]} :: j in cells' ==>
          cells'[j] == if Within(j, start, |text|) then text[j - start] else cells[j])
  }

  /** Cells outside the screen are as they were. */
  ghost predicate OnlyScreen(cells: map<int, int>, cells': map<int, int>) {
    forall j {:trigger j in cells'} {:trigger j in cells} :: !(0 <= j < CELLS) ==>
      (j in cells' <==> j in cells) && (j in cells ==> cells'[j] == cells[j])
  }

  predicate WholeRows(cells: int) {
    cells % COLS == 0
  }

  lemma OneMoreRow(cells: int)
    requires WholeRows(cells)
    ensures WholeRows(cells + COLS)
  {
  }

  /** What stood before the line has gone up with it, by whole rows. */
  ghost predicate MovedUp(cells: map<int, int>, cells': map<int, int>, start: int, start': int) {
    && 0 <= start' <= start < CELLS && WholeRows(start - start')
    && (forall j :: 0 <= j < CELLS ==> j in cells && j in cells')
    && (forall j {:trigger cells'[j]} :: 0 <= j < start' ==> cells'[j] == cells[j + (start - start')])
  }

  /** The line reads as the text, and is blank behind it for as far as n cells. */
  ghost predicate Reads(cells: map<int, int>, start: int, text: seq<int>, n: int) {
    forall j {:trigger cells[j]} {:trigger j in cells} :: start <= j < start + n ==>
      j in cells && cells[j] == if j < start + |text| then text[j - start] else 0
  }

  function Nuls(n: nat): (r: seq<int>)
    ensures |r| == n && forall i :: 0 <= i < n ==> r[i] == 0
  {
    seq(n, _ => 0)
  }

  /** n NULs have been printed from cell start on, which is start' now. */
  ghost predicate Blanked(cells: map<int, int>, cells': map<int, int>, start: int, start': int, n: nat) {
    if start < 0 then start' == start && Overwritten(cells, cells', start, Nuls(n))
    else MovedUp(cells, cells', start, start') && OnlyScreen(cells, cells') && Reads(cells', start', [], n)
  }

  /** A recalled text and the blanks behind it: on the screen, with the scrolling that takes, or else in the memory that
      lies at its place before the screen. */
  ghost predicate Rewritten(cells: map<int, int>, cells': map<int, int>, start: int, start': int, text: seq<int>) {
    if start < 0 then start' == start && Overwritten(cells, cells', start, text + Nuls(Span(text) - |text|))
    else MovedUp(cells, cells', start, start') && OnlyScreen(cells, cells') && Reads(cells', start', text, Span(text))
  }

  /** Every character of the text stands in a cell of the screen. */
  ghost predicate InView(cells: map<int, int>, start: int, text: seq<int>) {
    forall i {:trigger text[i]} :: 0 <= i < |text| ==>
      0 <= start + i < CELLS && start + i in cells && cells[start + i] == text[i]
  }

  lemma BlankNext(cells: map<int, int>, now: map<int, int>, start: int, p: Position, i: nat)
    requires forall j :: 0 <= j < CELLS ==> j in now
    requires Blanked(cells, now, start, p.start, i) && p.cell == p.start + i <= LAST_CELL && i < BUF_SIZE
    ensures Blanked(cells, Print(now, p.cell, 0), start, Printed(p).start, i + 1)
  {
    if start < 0 {
      assert Nuls(i + 1)[..i] == Nuls(i) && Nuls(i + 1)[..i + 1] == Nuls(i + 1);
      OverwriteNext(cells, now, start, Nuls(i + 1), i);
    } else if p.cell < LAST_CELL {
      BlankCell(cells, now, start, p, i);
    } else {
      BlankLastCell(cells, now, start, p, i);
    }
  }

  lemma BlankCell(cells: map<int, int>, now: map<int, int>, start: int, p: Position, i: nat)
    requires forall j :: 0 <= j < CELLS ==> j in now
    requires 0 <= start && Blanked(cells, now, start, p.start, i) && p.cell == p.start + i < LAST_CELL && i < BUF_SIZE
    ensures Blanked(cells, Print(now, p.cell, 0), start, Printed(p).start, i + 1)
  {
  }

  lemma BlankLastCell(cells: map<int, int>, now: map<int, int>, start: int, p: Position, i: nat)
    requires forall j :: 0 <= j < CELLS ==> j in now
    requires 0 <= start && Blanked(cells, now, start, p.start, i) && p.cell == p.start + i == LAST_CELL && i < BUF_SIZE
    ensures Blanked(cells, Print(now, p.cell, 0), start, Printed(p).start, i + 1)
  {
    hide Scrolled, MovedUp, OnlyScreen, Reads;
    ScrollMovesUp(cells, now, start, p.start);
    ScrollOnlyScreen(cells, now);
    ScrollReads(now, p.start, i);
  }

  lemma ScrolledCells(now: map<int, int>)
    requires forall j :: 0 <= j < CELLS ==> j in now
    ensures var scrolled := Scrolled(now[LAST_CELL := 0]);
            && (forall j :: 0 <= j < CELLS ==> j in scrolled)
            && (forall j {:trigger scrolled[j]} :: 0 <= j < CELLS - COLS - 1 ==> scrolled[j] == now[j + COLS])
  {
  }

  lemma ScrollShifts(cells: map<int, int>, now: map<int, int>, up: nat, n: nat)
    requires (forall j :: 0 <= j < CELLS ==> j in now && j in cells) && COLS <= n <= LAST_CELL && n + up < CELLS
    requires forall j {:trigger now[j]} :: 0 <= j < n ==> now[j] == cells[j + up]
    ensures var scrolled := Scrolled(now[LAST_CELL := 0]);
            && (forall j :: 0 <= j < CELLS ==> j in scrolled)
            && (forall j {:trigger scrolled[j]} :: 0 <= j < n - COLS ==> scrolled[j] == cells[j + (up + COLS)])
  {
    var scrolled := Scrolled(now[LAST_CELL := 0]);
    ScrolledCells(now);
    hide Scrolled;
    forall j | 0 <= j < n - COLS ensures scrolled[j] == cells[j + (up + COLS)] {
      assert scrolled[j] == now[j + COLS];
    }
  }

  lemma ScrollMovesUp(cells: map<int, int>, now: map<int, int>, start: int, start': int)
    requires (forall j :: 0 <= j < CELLS ==> j in now) && MovedUp(cells, now, start, start')
             && COLS <= start' <= LAST_CELL
    ensures MovedUp(cells, Scrolled(now[LAST_CELL := 0]), start, start' - COLS)
  {
    hide Scrolled, WholeRows;
    ScrollShifts(cells, now, start - start', start');
    OneMoreRow(start - start');
    assert start - (start' - COLS) == (start - start') + COLS;
  }

  lemma ScrollOnlyScreen(cells: map<int, int>, now: map<int, int>)
    requires (forall j :: 0 <= j < CELLS ==> j in now) && OnlyScreen(cells, now)
    ensures OnlyScreen(cells, Scrolled(now[LAST_CELL := 0]))
  {
  }

  lemma ScrollReads(now: map<int, int>, start: int, n: nat)
    requires (forall j :: 0 <= j < CELLS ==> j in now) && Reads(now, start, [], n) && start + n == LAST_CELL
             && COLS <= start
    ensures Reads(Scrolled(now[LAST_CELL := 0]), start - COLS, [], n + 1)
  {
    var put := now[LAST_CELL := 0];
    forall j | start - COLS <= j < start - COLS + n + 1 ensures j in Scrolled(put) && Scrolled(put)[j] == 0 {
      assert Scrolled(put)[j] == put[j + COLS];
      assert j + COLS < start + n ==> now[j + COLS] == 0;
    }
  }

  lemma NothingWritten(cells: map<int, int>, start: int, none: seq<int>)
    requires none == []
    ensures Overwritten(cells, cells, start, none)
  {
  }

  lemma OverwriteNext(cells: map<int, int>, now: map<int, int>, start: int, text: seq<int>, i: nat)
    requires forall j :: 0 <= j < CELLS ==> j in now
    requires i < |text| && Overwritten(cells, now, start, text[..i]) && start + i < LAST_CELL
    ensures Overwritten(cells, Print(now, start + i, text[i]), start, text[..i + 1])
  {
  }

  lemma BlankedThenWritten(cells: map<int, int>, blanked: map<int, int>, cells': map<int, int>, start: int, start': int,
                           text: seq<int>)
    requires forall j :: 0 <= j < CELLS ==> j in blanked
    requires Blanked(cells, blanked, start, start', Span(text)) && Overwritten(blanked, cells', start', text)
    requires start' + Span(text) <= LAST_CELL
    ensures Rewritten(cells, cells', start, start', text)
    ensures text != [] ==> (InView(cells', start', text) <==> 0 <= start)
  {
    hide MovedUp, OnlyScreen, Reads, Overwritten, InView;
    if start < 0 {
      WrittenOver(cells, blanked, cells', start, text);
      if text != [] {
        OutOfView(cells', start', text);
      }
    } else {
      ThenMovedUp(cells, blanked, cells', start, start', text);
      ThenReads(blanked, cells', start', text);
    }
  }

  lemma WrittenOver(cells: map<int, int>, blanked: map<int, int>, cells': map<int, int>, start: int, text: seq<int>)
    requires Overwritten(cells, blanked, start, Nuls(Span(text))) && Overwritten(blanked, cells', start, text)
    ensures Overwritten(cells, cells', start, text + Nuls(Span(text) - |text|))
  {
  }

  lemma OutOfView(cells: map<int, int>, start: int, text: seq<int>)
    requires start < 0 && text != []
    ensures !InView(cells, start, text)
  {
    var first := text[0];
    assert !(0 <= start + 0);
  }

  lemma ThenMovedUp(cells: map<int, int>, blanked: map<int, int>, cells': map<int, int>, start: int, start': int,
                    text: seq<int>)
    requires MovedUp(cells, blanked, start, start') && OnlyScreen(cells, blanked)
    requires Overwritten(blanked, cells', start', text) && start' + |text| <= LAST_CELL
    ensures MovedUp(cells, cells', start, start') && OnlyScreen(cells, cells')
  {
  }

  lemma ThenReads(blanked: map<int, int>, cells': map<int, int>, start: int, text: seq<int>)
    requires 0 <= start && Reads(blanked, start, [], Span(text)) && Overwritten(blanked, cells', start, text)
    requires start + Span(text) <= LAST_CELL
    ensures Reads(cells', start, text, Span(text)) && InView(cells', start, text)
  {
    forall i | 0 <= i < |text|
      ensures 0 <= start + i < CELLS && start + i in cells' && cells'[start + i] == text[i]
    {
      assert Within(start + i, start, |text|);
    }
  }

  class Editor {
    const buffer: array<int>
    var curPos: int
    var curSize: int
    var x: int
    var y: int
    var writeX: int
    var writeY: int

    /** term_init on a cleared screen. */
    constructor ()
      ensures Shows(Doc([], 0, 0)) && fresh(buffer)
    {
      buffer := new int[BUF_SIZE](_ => 0);
      curPos, curSize, x, y, writeX, writeY := 0, 0, 0, 0, 0, 0;
    }

    /** The cursor, and the first cell the user may edit, as cell numbers. */
    function Cell(): int
      reads this
    {
      COLS * y + x
    }

    function Start(): int
      reads this
    {
      COLS * writeY + writeX
    }

    function At(): Position
      reads this
    {
      Position(Cell(), Start())
    }

    /** The cursor is in a column of the screen; like write_y, its row may lie above the top one. */
    ghost predicate OnScreen()
      reads this
    {
      buffer.Length == BUF_SIZE && 0 <= x < COLS && y < ROWS && 0 <= writeX < COLS
    }

    /** The buffer holds the document. */
    ghost predicate Agrees(d: Doc)
      reads this, buffer
    {
      OnScreen() && DocOk(d) && curPos == d.cursor && curSize == |d.text| && buffer[..curSize] == d.text
    }

    /** And the screen cursor stands on the document's: every character of the line has its own cell. */
    ghost predicate Shows(d: Doc)
      reads this, buffer
    {
      Agrees(d) && OnDoc(At(), d)
    }

    // ----- Cursor movements of lib.c -----

    method MoveRight()
      requires OnScreen()
      modifies this`x, this`y
      ensures OnScreen() && Cell() == if old(Cell()) < LAST_CELL then old(Cell()) + 1 else old(Cell())
    {
      if x < COLS - 1 {
        x := x + 1;
      } else if y < ROWS - 1 {
        x := 0;
        y := y + 1;
      }
    }

    method MoveLeft()
      requires OnScreen()
      modifies this`x, this`y
      ensures OnScreen() && Cell() == LeftOf(old(Cell()))
    {
      if x > 0 {
        x := x - 1;
      } else if y > 0 {
        x := COLS - 1;
        y := y - 1;
      }
    }

    /** putc and putc_kb for a character that is printed; scroll takes write_y along. */
    method Advance()
      requires OnScreen()
      modifies this`x, this`y, this`writeY
      ensures OnScreen() && At() == Printed(old(At()))
    {
      x := x + 1;
      if x >= COLS {
        y := y + 1;
        x := 0;
      }
      if y >= ROWS {
        y := ROWS - 1;
        x := 0;
        writeY := writeY - 1;
      }
    }

    /** putc of a newline. */
    method NewRow()
      requires OnScreen()
      modifies this`x, this`y, this`writeY
      ensures OnScreen() && x == 0 && y == (if old(y) < ROWS - 1 then old(y) + 1 else old(y))
      ensures writeY == if old(y) < ROWS - 1 then old(writeY) else old(writeY) - 1
    {
      y := y + 1;
      x := 0;
      if y >= ROWS {
        y := ROWS - 1;
        x := 0;
        writeY := writeY - 1;
      }
    }

    /** The test that keeps the cursor from running into protected text. */
    predicate PastStart()
      reads this
    {
      y > writeY || (y == writeY && x > writeX)
    }

    lemma PastStartCells()
      requires OnScreen()
      ensures PastStart() <==> Cell() > Start()
    {
    }

    // ----- Keys -----

    /** The guard on protected text never stops the cursor while it stands on the document's; elsewhere it does,
        and the line's beginning is out of reach. */
    method TermMoveLeft(ghost d: Doc)
      requires Agrees(d)
      modifies this`x, this`y, this`curPos
      ensures Agrees(Typed(d, Left)) <==> Sound(old(At()), d, Left)
      ensures !Sound(old(At()), d, Left) ==> Agrees(d)
      ensures At() == Moved(old(At()), d, Left)
      ensures old(Shows(d)) ==> Shows(Typed(d, Left))
    {
      PastStartCells();
      if curPos > 0 && PastStart() {
        MoveLeft();
        curPos := curPos - 1;
      }
    }

    method TermMoveRight(ghost d: Doc)
      requires Agrees(d)
      modifies this`x, this`y, this`curPos
      ensures Agrees(Typed(d, Right))
      ensures At() == Moved(old(At()), d, Right)
      ensures old(Shows(d)) ==> (Shows(Typed(d, Right)) <==> Clean(d, Right))
    {
      if curPos < curSize {
        MoveRight();
        curPos := curPos + 1;
      }
    }

    /** The shift of term_putc that makes room at the cursor. */
    method ShiftUp()
      requires buffer.Length == BUF_SIZE && 0 <= curPos <= curSize < BUF_SIZE
      modifies buffer
      ensures forall i :: 0 <= i < curPos ==> buffer[i] == old(buffer[i])
      ensures forall i :: curPos < i <= curSize ==> buffer[i] == old(buffer[i - 1])
    {
      var i := curSize;
      while i > curPos
        invariant curPos <= i <= curSize
        invariant forall j :: 0 <= j <= i && j < BUF_SIZE ==> buffer[j] == old(buffer[j])
        invariant forall j :: i < j <= curSize ==> buffer[j] == old(buffer[j - 1])
        decreases i
      {
        buffer[i] := buffer[i - 1];
        i := i - 1;
      }
    }

    /** term_putc of a character. */
    method PutChar(c: int, ghost d: Doc)
      requires Agrees(d) && IsKey(Char(c))
      modifies this`x, this`y, this`writeY, this`curPos, this`curSize, buffer
      ensures Agrees(Typed(d, Char(c)))
      ensures At() == Moved(old(At()), d, Char(c))
      ensures old(Shows(d)) ==> Shows(Typed(d, Char(c)))
    {
      TypedOk(d, Char(c));
      if curPos < BUF_SIZE - 1 && curSize < BUF_SIZE - 1 {
        if curPos < curSize {
          ShiftUp();
        }
        Advance();
        buffer[curPos] := c;
        curPos := curPos + 1;
        curSize := curSize + 1;
        assert buffer[..][..curSize] == buffer[..curSize] && old(buffer[..])[..|d.text|] == old(buffer[..|d.text|]);
        InsertedRow(d, c, old(buffer[..]), buffer[..]);
      }
    }

    /** Blank the character before the cursor on the screen and step onto it. */
    method EraseOnScreen()
      requires OnScreen()
      modifies this`x, this`y, this`writeY
      ensures OnScreen() && writeY == old(writeY)
      ensures Cell() == if old(Cell()) > Start() then LeftOf(old(Cell())) else old(Cell())
    {
      PastStartCells();
      if PastStart() {
        MoveLeft();
        Advance();
        MoveLeft();
      }
    }

    /** term_putc of a backspace. Out of order, it takes the size of an empty line below zero, and just before the last
        of several characters it shortens the line but leaves a NUL in its middle. */
    method PutBackspace(ghost d: Doc)
      requires Agrees(d)
      modifies this`x, this`y, this`writeY, this`curPos, this`curSize, buffer
      ensures Agrees(Typed(d, Backspace)) <==> Sound(old(At()), d, Backspace)
      ensures At() == Moved(old(At()), d, Backspace)
      ensures old(Shows(d)) && Clean(d, Backspace) ==> Shows(Typed(d, Backspace))
      ensures d.text == [] ==> curSize == -1
      ensures d.cursor == |d.text| - 1 > 0 ==>
                curPos == d.cursor - 1 && curSize == |d.text| - 1 && buffer[..curSize] == d.text[..curPos] + [0]
    {
      hide Typed, Clean, Sound, OnDoc;
      BackspaceRow(d, buffer[..]);
      SoundBackspace(At(), d);
      assert buffer[..][..|d.text|] == buffer[..|d.text|];
      var bsChar := BLANK;
      if curPos >= curSize - 1 {
        bsChar := 0;
        curSize := curSize - 1;
      }
      if curPos > 0 {
        EraseOnScreen();
        curPos := curPos - 1;
        buffer[curPos] := bsChar;
      } else {
        buffer[curPos] := bsChar;
        PastStartCells();
        if PastStart() {
          Advance();
          MoveLeft();
        }
      }
      assert buffer[..] == old(buffer[..])[curPos := bsChar];
      assert curSize >= 0 ==> buffer[..][..curSize] == buffer[..curSize];
    }

    method Press(k: Key, ghost d: Doc)
      requires Agrees(d) && IsKey(k)
      modifies this, buffer
      ensures Agrees(Typed(d, k)) <==> Sound(old(At()), d, k)
      ensures At() == Moved(old(At()), d, k)
    {
      match k {
        case Char(c) => PutChar(c, d);
        case Backspace => PutBackspace(d);
        case Left => TermMoveLeft(d);
        case Right => TermMoveRight(d);
      }
    }

    /** From any state in which the buffer holds the line, a sequence of keys is editing in a list for just as long as
        the keys are sound; in particular 0 <= curPos <= curSize <= 127 throughout. */
    method PressAll(keys: seq<Key>, ghost d: Doc)
      requires Agrees(d) && forall i :: 0 <= i < |keys| ==> IsKey(keys[i])
      requires keys != [] ==> SoundAll(At(), d, keys[..|keys| - 1])
      modifies this, buffer
      ensures Agrees(TypedAll(d, keys)) <==> SoundAll(old(At()), d, keys)
      ensures At() == MovedAll(old(At()), d, keys)
    {
      hide Agrees, Typed, Moved, Sound, TypedAll, MovedAll, SoundAll;
      ghost var now := d;
      var n := |keys|;
      AgreesInside(d);
      if n == 0 {
        NoKeys(At(), d, keys);
      }
      assert keys[0..] == keys && (n > 0 ==> keys[0..n - 1] == keys[..n - 1]);
      for i := 0 to n
        invariant 0 <= now.cursor <= |now.text|
        invariant TypedAll(now, keys[i..]) == TypedAll(d, keys)
                  && MovedAll(At(), now, keys[i..]) == MovedAll(old(At()), d, keys)
        invariant i < n ==> Agrees(now) && SoundAll(At(), now, keys[i..n - 1])
                            && (SoundAll(At(), now, keys[i..]) <==> SoundAll(old(At()), d, keys))
        invariant i == n ==> (Agrees(now) <==> SoundAll(old(At()), d, keys))
      {
        KeyStep(At(), now, keys, i);
        Press(keys[i], now);
        now := Typed(now, keys[i]);
      }
      NoKeys(At(), now, keys[n..]);
    }

    lemma AgreesInside(d: Doc)
      requires Agrees(d)
      ensures 0 <= d.cursor <= |d.text|
    {
    }

    /** The screen follows for just as long as the keys are clean. */
    method PressShown(keys: seq<Key>, ghost d: Doc)
      requires Shows(d) && forall i :: 0 <= i < |keys| ==> IsKey(keys[i])
      requires keys != [] ==> CleanAll(d, keys[..|keys| - 1])
      modifies this, buffer
      ensures Shows(TypedAll(d, keys)) <==> CleanAll(d, keys)
    {
      hide OnDoc, TypedAll, CleanAll, SoundAll, MovedAll;
      ShownRun(At(), d, keys);
      PressAll(keys, d);
    }

    /** The same character n times at the end of a line, up to the last cell. */
    method HoldChar(c: int, n: nat, ghost first: int)
      requires Shows(Doc([], 0, first)) && IsKey(Char(c)) && n < BUF_SIZE && first + n <= LAST_CELL
      modifies this`x, this`y, this`writeY, this`curPos, this`curSize, buffer
      ensures Shows(Doc(seq(n, _ => c), n, first)) && Start() == old(Start())
    {
      for i := 0 to n
        invariant Shows(Doc(seq(i, _ => c), i, first)) && Start() == old(Start())
      {
        ghost var d := Doc(seq(i, _ => c), i, first);
        PutChar(c, d);
        assert d.text[..i] + [c] + d.text[i..] == seq(i + 1, _ => c);
      }
    }

    /** The left arrow n times: the cursor moves as far as the line's beginning and the protected text let it. */
    method HoldLeft(n: nat, ghost d: Doc)
      requires Agrees(d) && 0 <= Start() <= Cell()
      modifies this`x, this`y, this`curPos
      ensures var steps := Min(n, Min(d.cursor, old(Cell()) - Start()));
              Agrees(d.(cursor := d.cursor - steps)) && Cell() == old(Cell()) - steps
    {
      ghost var reach := Min(d.cursor, Cell() - Start());
      for i := 0 to n
        invariant Agrees(d.(cursor := d.cursor - Min(i, reach))) && Cell() == old(Cell()) - Min(i, reach)
        invariant Start() == old(Start())
      {
        TermMoveLeft(d.(cursor := d.cursor - Min(i, reach)));
      }
    }

    /** A character inserted when the line reaches up to the last cell of the screen: the line is stored as it should
        be, but after one step to the right the cursor has no cell of its own, and never gets back to the line's first
        character. c fills the rest of the screen from an empty line; the same editing in a list ends at 0. */
    method InsertedAtLastCell(c: int, n: nat)
      requires Shows(Doc([], 0, LAST_CELL - n)) && Start() == LAST_CELL - n && 0 < n < BUF_SIZE - 1 && IsKey(Char(c))
      modifies this, buffer
      ensures Agrees(Doc(seq(n + 1, _ => c), 1, LAST_CELL - n))
      ensures TypedAll(Doc([], 0, LAST_CELL - n), Times(Char(c), n) + [Left, Char(c), Right] + Times(Left, n + 1))
           == Doc(seq(n + 1, _ => c), 0, LAST_CELL - n)
    {
      hide TypedAll, Times;
      ghost var first := LAST_CELL - n;
      InsertionInList(c, n, first);
      FillAndInsert(c, n);
      ghost var line := Doc(seq(n + 1, _ => c), n + 1, first);
      TermMoveRight(line.(cursor := n));
      HoldLeft(n + 1, line);
    }

    /** The first n + 2 of those keys: the cursor is on the last cell, before the last character. */
    method FillAndInsert(c: int, n: nat)
      requires Shows(Doc([], 0, LAST_CELL - n)) && Start() == LAST_CELL - n && 0 < n < BUF_SIZE - 1 && IsKey(Char(c))
      modifies this`x, this`y, this`writeY, this`curPos, this`curSize, buffer
      ensures Agrees(Doc(seq(n + 1, _ => c), n, LAST_CELL - n)) && At() == Position(LAST_CELL, LAST_CELL - n)
    {
      hide Typed, Clean;
      ghost var d := Doc(seq(n, _ => c), n, LAST_CELL - n);
      OneMore(c, n, LAST_CELL - n);
      HoldChar(c, n, LAST_CELL - n);
      TermMoveLeft(d);
      PutChar(c, d.(cursor := n - 1));
    }

    // ----- Enter and term_read -----

    /** A finished line waits to be read. */
    ghost predicate Pending(text: seq<int>)
      reads this, buffer
    {
      && OnScreen() && |text| < BUF_SIZE && (forall i :: 0 <= i < |text| ==> IsText(text[i]))
      && curPos == 0 && curSize == 0 && Start() == 0
      && buffer[..|text|] == text && buffer[|text|] == 10
    }

    /** term_putc of a newline. */
    method Enter(ghost d: Doc)
      requires Agrees(d)
      modifies this`curPos, this`curSize, this`writeX, this`writeY, buffer
      ensures Pending(d.text)
    {
      buffer[curSize] := NL;
      assert buffer[..|d.text|] == d.text;
      curPos, curSize, writeX, writeY := 0, 0, 0, 0;
    }

    /** term_read once the newline has come. It takes the line from the buffer of the terminal that is shown by then,
        which is this one. A buffer longer than the line gets the text and a newline; a shorter one gets what fits, and
        the line's rest stays behind; a negative count gets nothing. */
    method TermRead(buf: array<int>, numbytes: int) returns (n: nat)
      requires OnScreen() && |LineOf(buffer[..])| < BUF_SIZE && numbytes < buf.Length && buf != buffer
      modifies this`x, this`y, this`writeY, buffer, buf
      ensures var line := LineOf(old(buffer[..]));
              && (numbytes > |line| ==> n == |line| + 1 && buf[..n] == line + [10] && buf[n] == 0)
              && (numbytes <= |line| ==> n == Max(0, numbytes) && buf[..n] == line[..n])
      ensures buffer[..] == seq(n, _ => 0) + old(buffer[n..])
      ensures OnScreen() && x == 0 && y == Min(old(y) + 1, ROWS - 1)
      ensures writeY == if old(y) < ROWS - 1 then old(writeY) else old(writeY) - 1
    {
      hide LineOf;
      ghost var line := LineOf(buffer[..]);
      x := START_POS;
      NewRow();
      n := 0;
      ghost var row, protectedRow := y, writeY;
      while n < numbytes
        invariant 0 <= n <= Max(0, numbytes) && n <= |line|
        invariant x == 0 && y == row && writeY == protectedRow
        invariant forall i {:trigger buf[i]} :: 0 <= i < n ==> buf[i] == line[i]
        invariant forall i {:trigger buffer[i]} :: n <= i < BUF_SIZE ==> buffer[i] == old(buffer[i])
        invariant forall i {:trigger buffer[i]} :: 0 <= i < n ==> buffer[i] == 0
        decreases numbytes - n
      {
        buf[n] := buffer[n];
        buffer[n] := 0;
        assert n < |line| ==> line[n] == old(buffer[..])[n];
        if buf[n] == NL || buf[n] == 0 {
          buf[n] := NL;
          buf[n + 1] := 0;
          n := n + 1;
          break;
        }
        n := n + 1;
      }
    }

    /** The read of a finished line leaves an empty one, at the start of a row. */
    method ReadLine(buf: array<int>, numbytes: int, ghost text: seq<int>) returns (n: nat)
      requires Pending(text) && numbytes < buf.Length && buf != buffer
      modifies this`x, this`y, this`writeY, buffer, buf
      ensures numbytes > |text| ==> n == |text| + 1 && buf[..n] == text + [10] && buf[n] == 0
      ensures numbytes <= |text| ==> n == Max(0, numbytes) && buf[..n] == text[..n]
      ensures Agrees(Doc([], 0, Cell())) && writeX == 0 && writeY == if old(y) < ROWS - 1 then 0 else -1
      ensures old(y) >= -1 ==> Shows(Doc([], 0, Cell()))
    {
      hide LineOf, OnDoc;
      assert buffer[..][..|text|] == buffer[..|text|];
      LineIs(buffer[..], text);
      EmptyLine();
      n := TermRead(buf, numbytes);
    }

    /** When another terminal is shown by the time of the read, the reader gets the beginning of the line that is being
        edited there, and the editor's buffer loses it, although its size stays. */
    method ReadUnderEditing(buf: array<int>, numbytes: int, ghost d: Doc) returns (n: nat)
      requires Agrees(d) && d.text != [] && |LineOf(buffer[..])| < BUF_SIZE
      requires 0 < numbytes < buf.Length && buf != buffer
      modifies this`x, this`y, this`writeY, buffer, buf
      ensures n >= Min(numbytes, |d.text|) && buf[..Min(numbytes, |d.text|)] == d.text[..Min(numbytes, |d.text|)]
      ensures curSize == |d.text| && !Agrees(d)
    {
      ghost var line := LineOf(buffer[..]);
      LineBegins(buffer[..], d.text);
      n := TermRead(buf, numbytes);
      ghost var m := Min(numbytes, |d.text|);
      assert buf[..m] == buf[..n][..m] && line[..m] == line[..|d.text|][..m];
      assert buffer[..curSize][0] == buffer[..][0] == 0;
    }

    /** Typing a line, Enter, and a read with a large enough buffer return exactly the edited text and a newline. */
    method LineRoundTrip(keys: seq<Key>, buf: array<int>, ghost d: Doc) returns (n: nat)
      requires Agrees(d) && (forall i :: 0 <= i < |keys| ==> IsKey(keys[i])) && SoundAll(At(), d, keys)
      requires buf.Length > BUF_SIZE && buf != buffer
      modifies this, buffer, buf
      ensures n == |TypedAll(d, keys).text| + 1 && n < buf.Length && buf[..n] == TypedAll(d, keys).text + [10]
    {
      SoundKeys(At(), d, keys);
      PressAll(keys, d);
      Enter(TypedAll(d, keys));
      n := ReadLine(buf, BUF_SIZE, TypedAll(d, keys).text);
    }

    /** What is typed is what is read: from an empty line, characters, some of them taken back, Enter, and a read. */
    method TypeAndRead(cs: seq<int>, erased: nat, buf: array<int>, ghost first: int) returns (n: nat)
      requires Agrees(Doc([], 0, first)) && erased <= |cs| <= 127
      requires forall i :: 0 <= i < |cs| ==> cs[i] !in {0, 8, 10, 13}
      requires buf.Length > 128 && buf != buffer
      modifies this, buffer, buf
      ensures n == |cs| - erased + 1 && buf[..n] == cs[..|cs| - erased] + [10]
    {
      var keys := Chars(cs) + Times(Backspace, erased);
      TypedErased(At(), cs, erased, first);
      hide SoundAll, TypedAll;
      n := LineRoundTrip(keys, buf, Doc([], 0, first));
    }

    /** term_putc: which character is which key. */
    method TermPutc(c: int, ghost d: Doc)
      requires Agrees(d) && c != 0
      modifies this, buffer
      ensures c == 10 || c == 13 ==> Pending(d.text)
      ensures c == 8 ==> (Agrees(Typed(d, Backspace)) <==> Sound(old(At()), d, Backspace))
      ensures c != 8 && c != 10 && c != 13 ==> Agrees(Typed(d, Char(c)))
      ensures c != 10 && c != 13 ==> At() == Moved(old(At()), d, if c == 8 then Backspace else Char(c))
    {
      if c == NL || c == CR {
        Enter(d);
      } else if c == BS {
        PutBackspace(d);
      } else {
        PutChar(c, d);
      }
    }

    // ----- Recalling a command -----

    /** set_pos(write_x, write_y). */
    method ToStart()
      modifies this`x, this`y
      ensures x == writeX && y == writeY
    {
      x, y := writeX, writeY;
    }

    /** scroll on screen memory: its loops, without the colours. */
    method ScrollVideo(v: Video)
      requires v.HasScreen()
      modifies v
      ensures v.cells == Scrolled(old(v.cells))
    {
      ScrollRows(v);
      ScrollBlank(v);
    }

    method ScrollBlank(v: Video)
      requires v.HasScreen()
      modifies v
      ensures v.HasScreen() && v.cells.Keys == old(v.cells).Keys
      ensures forall i {:trigger v.cells[i]} :: i in v.cells ==>
                v.cells[i] == if CELLS - COLS <= i < CELLS then 0 else old(v.cells)[i]
    {
      for j := CELLS - COLS to CELLS
        invariant v.HasScreen() && v.cells.Keys == old(v.cells).Keys
        invariant forall i {:trigger v.cells[i]} :: i in v.cells ==>
                    v.cells[i] == if CELLS - COLS <= i < j then 0 else old(v.cells)[i]
      {
        v.cells := v.cells[j := 0];
      }
    }

    method ScrollRows(v: Video)
      requires v.HasScreen()
      modifies v
      ensures v.HasScreen() && v.cells.Keys == old(v.cells).Keys
      ensures forall i {:trigger v.cells[i]} :: i in v.cells ==>
                v.cells[i] == if 0 <= i < CELLS - COLS then old(v.cells)[i + COLS] else old(v.cells)[i]
    {
      for j := 0 to CELLS - COLS
        invariant v.HasScreen() && v.cells.Keys == old(v.cells).Keys
        invariant forall i {:trigger v.cells[i]} :: i in v.cells ==>
                    v.cells[i] == if 0 <= i < j then old(v.cells)[i + COLS] else old(v.cells)[i]
      {
        v.cells := v.cells[j := v.cells[j + COLS]];
      }
    }

    /** putc of a character that is printed. */
    method PutVideo(v: Video, c: int)
      requires OnScreen() && v.HasScreen()
      modifies this`x, this`y, this`writeY, v
      ensures OnScreen() && At() == Printed(old(At())) && v.HasScreen()
      ensures v.cells == Print(old(v.cells), old(Cell()), c)
      ensures 0 <= old(Cell()) < 1999 ==> v.cells == old(v.cells)[old(Cell()) := c]
      ensures old(Cell()) == 1999 ==> forall j {:trigger v.cells[j]} :: 0 <= j < 2000 ==>
                v.cells[j] == if j < 1919 then old(v.cells)[j + 80] else if j == 1919 then c else 0
    {
      var cell := Cell();
      if VIDEO_MEM + 2 * cell > 0 && VIDEO_MEM + 2 * cell < VIDEO_MEM + Paging.OFFSET_4K - 1 {
        v.cells := v.cells[cell := c];
      }
      Advance();
      if cell == LAST_CELL {
        ScrollVideo(v);
      }
    }

    /** The loop of up_hist that blanks the old line on the screen. */
    method BlankLine(v: Video, row: seq<int>, ghost text: seq<int>)
      requires OnScreen() && v.HasScreen() && Cell() == Start() && HoldsText(row, text)
      modifies this`x, this`y, this`writeY, v
      ensures OnScreen() && v.HasScreen() && Cell() == Start() + Span(text)
      ensures Blanked(old(v.cells), v.cells, old(Start()), Start(), Span(text))
    {
      ghost var cells, start := v.cells, Start();
      var i := 0;
      while i < COLS - START_POS - 1 || row[i] != 0
        invariant 0 <= i <= Span(text) < BUF_SIZE
        invariant OnScreen() && v.HasScreen() && Cell() == Start() + i
        invariant Blanked(cells, v.cells, start, Start(), i)
        decreases BUF_SIZE - i
      {
        BlankNext(cells, v.cells, start, At(), i);
        PutVideo(v, 0);
        i := i + 1;
      }
    }

    /** The loop of up_hist that copies the command, to the line and to the screen. */
    method CopyLine(v: Video, row: seq<int>, ghost text: seq<int>)
      requires OnScreen() && v.HasScreen() && Cell() == Start() && HoldsText(row, text)
      requires Start() + |text| <= LAST_CELL && curPos == 0 && curSize == 0
      modifies this, buffer, v
      ensures Agrees(Doc(text, |text|, Start())) && v.HasScreen() && Start() == old(Start())
              && Cell() == Start() + |text|
      ensures writeY == old(writeY)
      ensures Overwritten(old(v.cells), v.cells, Start(), text)
    {
      hide Overwritten, Print;
      ghost var cells := v.cells;
      assert text[..0] == [];
      NothingWritten(cells, Start(), text[..0]);
      var i := 0;
      while row[i] != 0
        invariant 0 <= i <= |text| && curPos == i && curSize == i && writeY == old(writeY)
        invariant OnScreen() && v.HasScreen() && Cell() == Start() + i && Start() == old(Start())
        invariant buffer[..i] == text[..i] && Overwritten(cells, v.cells, Start(), text[..i])
        decreases |text| - i
      {
        assert i < |text|;
        buffer[i] := row[i];
        OverwriteNext(cells, v.cells, Start(), text, i);
        PutVideo(v, row[i]);
        curPos, curSize := curPos + 1, curSize + 1;
        i := i + 1;
      }
      assert text[..|text|] == text;
    }

    /** up_hist once the row has been found: the command becomes the line, with the cursor at its end, wherever the line
        begins. On the screen it can be seen exactly if the line does not begin above the top row. */
    method Recall(v: Video, row: seq<int>, ghost text: seq<int>)
      requires OnScreen() && v.HasScreen() && writeY < ROWS && HoldsText(row, text)
      modifies this, buffer, v
      ensures Agrees(Doc(text, |text|, Start())) && v.HasScreen() && writeY <= old(writeY)
      ensures writeX == old(writeX)
      ensures Shows(Doc(text, |text|, Start())) <==> 0 <= old(writeY)
      ensures text != [] ==> (InView(v.cells, Start(), text) <==> 0 <= old(writeY))
      ensures Rewritten(old(v.cells), v.cells, old(Start()), Start(), text)
    {
      ghost var cells := v.cells;
      ToStart();
      BlankLine(v, row, text);
      ghost var blanked := v.cells;
      ToStart();
      curPos, curSize := 0, 0;
      CopyLine(v, row, text);
      BlankedThenWritten(cells, blanked, v.cells, old(Start()), Start(), text);
    }

    /** A line finished on the bottom row and read by a program that prints nothing leaves write_y at -1. A command
        recalled then is stored as the line, but it is written to the 80 cells before the screen: with the blanks behind
        it, to cells 1968..1999 of terminal 2's back buffer, which that terminal shows, and on from there. */
    method RecallAfterRead(v: Video, row: seq<int>, buf: array<int>, ghost d: Doc, ghost text: seq<int>)
        returns (n: nat)
      requires Agrees(d) && y == ROWS - 1 && v.HasScreen() && HoldsText(row, text) && text != []
      requires buf.Length > BUF_SIZE && buf != buffer
      modifies this, buffer, buf, v
      ensures n == |d.text| + 1 && buf[..n] == d.text + [10]
      ensures writeY == -1 && Agrees(Doc(text, |text|, -COLS)) && !InView(v.cells, -COLS, text)
      ensures Overwritten(old(v.cells), v.cells, -COLS, text + Nuls(Span(text) - |text|))
      ensures InBuffer2(v.cells, text)
    {
      Enter(d);
      n := ReadLine(buf, BUF_SIZE, d.text);
      Recall(v, row, text);
      ToBuffer2(old(v.cells), v.cells, text);
    }

    /** The text, or blanks, at cells 1968..1999 of the back buffer of terminal 2. */
    ghost predicate InBuffer2(cells: map<int, int>, text: seq<int>) {
      forall j :: -COLS <= j < -48 ==> CellInBuffer2(cells, text, j)
    }

    ghost predicate CellInBuffer2(cells: map<int, int>, text: seq<int>, j: int) {
      && VIDEO_MEM + 2 * j == Paging.Address(Buffer(2)) + 2 * (FRAME_CELLS + j)
      && CELLS - 32 <= FRAME_CELLS + j < CELLS
      && j in cells && cells[j] == if 0 <= j + COLS < |text| then text[j + COLS] else 0
    }

    lemma ToBuffer2(cells: map<int, int>, cells': map<int, int>, text: seq<int>)
      requires |text| < BUF_SIZE && Overwritten(cells, cells', -COLS, text + Nuls(Span(text) - |text|))
      ensures InBuffer2(cells', text)
    {
      forall j | -COLS <= j < -48 ensures CellInBuffer2(cells', text, j) {
        BeforeTheScreen(j);
        assert Within(j, -COLS, Span(text));
      }
    }
  }
}
