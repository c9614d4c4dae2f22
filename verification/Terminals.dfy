/** Three terminals over one screen: putc, mt_putc, scroll and clear of lib.c, switch_video and
    set_vmem_table of page.c, and the part of a scheduler tick that moves the 0xB8000 page. */
module Terminals {
  import opened Common
  import opened VideoFrames
  import opened TextLog

  /** attribs of lib.c: the colour of each terminal. */
  const ATTRIBS: seq<int> := [0x30, 0x40, 0x50]

  const VGA_INDEX := 3

  /** Where a frame stands in video_table: the three back buffers, then the VGA memory. */
  function Index(f: Frame): int {
    match f
    case Vga => VGA_INDEX
    case Buffer(t) => t
  }

  /** frames is indexed by Index; xs, ys and writeY by terminal. */
  datatype Screens = Screens(frames: seq<seq<Cell>>, xs: seq<int>, ys: seq<int>, writeY: seq<int>,
                             foreground: Terminal, scheduled: Terminal, vmem: Frame)

  ghost predicate InBounds(s: Screens) {
    && |s.frames| == 4 && (forall f :: 0 <= f < 4 ==> IsFrame(s.frames[f]))
    && |s.xs| == |s.ys| == |s.writeY| == NUM_TERMINALS
    && (forall t :: 0 <= t < NUM_TERMINALS ==> s.xs[t] >= 0 && s.ys[t] >= 0)
    && (s.vmem.Buffer? ==> IsTerminal(s.vmem.terminal))
  }

  /** The frame that holds terminal t's text, with t's cursor. */
  function PaneOf(s: Screens, t: Terminal): Pane
    requires InBounds(s)
  {
    Pane(s.frames[Index(Mapped(s.foreground, t))], s.xs[t], s.ys[t])
  }

  // ----- The code, as functions of the whole video state -----

  /** The common part of putc and mt_putc: a character for terminal t into frame f. */
  ghost function Emit(s: Screens, f: int, t: Terminal, c: int, watched: Option<int>): (r: Screens)
    requires InBounds(s) && 0 <= f < 4
    ensures InBounds(r)
  {
    var q := Emitted(Pane(s.frames[f], s.xs[t], s.ys[t]), ATTRIBS[t], c, watched);
    var p := Settled(q, ATTRIBS[t]);
    var scrolled := q.y >= ROWS && t == s.foreground;
    s.(frames := s.frames[f := p.frame], xs := s.xs[t := p.x], ys := s.ys[t := p.y],
       writeY := if scrolled then s.writeY[t := s.writeY[t] - 1] else s.writeY)
  }

  ghost function Putc(s: Screens, c: int): (r: Screens)
    requires InBounds(s)
    ensures InBounds(r)
  {
    Emit(s, VGA_INDEX, s.foreground, c, None)
  }

  ghost function MtPutc(s: Screens, c: int): (r: Screens)
    requires InBounds(s)
    ensures InBounds(r)
  {
    if s.scheduled == s.foreground then Putc(s, c)
    else Emit(s, Index(s.vmem), s.scheduled, c, Some(s.xs[s.foreground]))
  }

  ghost function Reschedule(s: Screens): Screens {
    var next := (s.scheduled + 1) % NUM_TERMINALS;
    s.(scheduled := next, vmem := Mapped(s.foreground, next))
  }

  ghost function SwitchVideo(s: Screens, t: Terminal): (r: Screens)
    requires InBounds(s)
    ensures InBounds(r)
  {
    if s.foreground == t then s
    else
      var stored := s.frames[s.foreground := s.frames[VGA_INDEX]];
      s.(frames := stored[VGA_INDEX := stored[t]], foreground := t, vmem := Mapped(t, s.scheduled))
  }

  ghost function Clear(s: Screens): (r: Screens)
    requires InBounds(s)
    ensures InBounds(r)
  {
    var t := s.foreground;
    s.(frames := s.frames[VGA_INDEX := Cleared(s.frames[VGA_INDEX], ATTRIBS[t])],
       xs := s.xs[t := 0], ys := s.ys[t := 0])
  }

  datatype Event =
    | Echo(ch: int)          // putc: kernel output on the foreground terminal
    | Output(ch: int)        // mt_putc: output of the scheduled process
    | Tick
    | Switch(terminal: Terminal)
    | ClearScreen

  ghost function Step(s: Screens, e: Event): (r: Screens)
    requires InBounds(s)
    ensures InBounds(r)
  {
    match e
    case Echo(c) => Putc(s, c)
    case Output(c) => MtPutc(s, c)
    case Tick => Reschedule(s)
    case Switch(t) => SwitchVideo(s, t)
    case ClearScreen => Clear(s)
  }

  // ----- Reference: three logs, each fed only with its own characters -----

  datatype Desk = Desk(logs: seq<Log>, foreground: Terminal, scheduled: Terminal)

  ghost predicate DeskOk(d: Desk) {
    && |d.logs| == NUM_TERMINALS
    && forall t :: 0 <= t < NUM_TERMINALS ==> WellFormed(d.logs[t]) && d.logs[t].attr == ATTRIBS[t]
  }

  ghost function Send(d: Desk, t: Terminal, c: int): (r: Desk)
    requires DeskOk(d)
    ensures DeskOk(r)
  {
    PutWellFormed(d.logs[t], c);
    d.(logs := d.logs[t := Put(d.logs[t], c)])
  }

  ghost function DeskStep(d: Desk, e: Event): (r: Desk)
    requires DeskOk(d)
    ensures DeskOk(r)
  {
    match e
    case Echo(c) => Send(d, d.foreground, c)
    case Output(c) => Send(d, d.scheduled, c)
    case Tick => d.(scheduled := (d.scheduled + 1) % NUM_TERMINALS)
    case Switch(t) => d.(foreground := t)
    case ClearScreen => d.(logs := d.logs[d.foreground := NewLog(32, ATTRIBS[d.foreground])])
  }

  /** Every terminal's frame and cursor render that terminal's own log, and the page at 0xB8000
      names the frame of the scheduled terminal. */
  ghost predicate Faithful(s: Screens, d: Desk) {
    && InBounds(s) && DeskOk(d)
    && s.foreground == d.foreground && s.scheduled == d.scheduled
    && s.vmem == Mapped(s.foreground, s.scheduled)
    && (forall t: Terminal :: Renders(PaneOf(s, t), d.logs[t]))
  }

  /** A background process is about to fill its row: mt_putc will not see it. */
  predicate FillsRowUnseen(d: Desk, e: Event)
    requires |d.logs| == NUM_TERMINALS && forall t :: 0 <= t < NUM_TERMINALS ==> d.logs[t].rows != []
  {
    && e.Output? && !IsNewline(e.ch)
    && d.scheduled != d.foreground
    && |LastRow(d.logs[d.scheduled])| == COLS - 1
  }

  // ----- One step -----

  lemma EmitStays(s: Screens, d: Desk, c: int)
    requires Faithful(s, d)
    ensures Faithful(Putc(s, c), Send(d, d.foreground, c))
  {
    var t := s.foreground;
    EmitRenders(PaneOf(s, t), d.logs[t], c);
    var s', d' := Putc(s, c), Send(d, t, c);
    forall u: Terminal ensures Renders(PaneOf(s', u), d'.logs[u]) {
      assert Renders(PaneOf(s, u), d.logs[u]);
      assert u != t ==> PaneOf(s', u) == PaneOf(s, u);
    }
  }

  lemma OutputStays(s: Screens, d: Desk, c: int)
    requires Faithful(s, d) && s.scheduled != s.foreground
    ensures Faithful(MtPutc(s, c), Send(d, d.scheduled, c)) <==> !FillsRowUnseen(d, Output(c))
  {
    var t := s.scheduled;
    var s', d' := MtPutc(s, c), Send(d, t, c);
    assert Renders(PaneOf(s, s.foreground), d.logs[s.foreground]);
    BlindEmitRenders(PaneOf(s, t), d.logs[t], c, s.xs[s.foreground]);
    assert PaneOf(s', t) == Settled(Emitted(PaneOf(s, t), ATTRIBS[t], c, Some(s.xs[s.foreground])), ATTRIBS[t]);
    forall u: Terminal | u != t ensures Renders(PaneOf(s', u), d'.logs[u]) {
      assert Renders(PaneOf(s, u), d.logs[u]);
      assert PaneOf(s', u) == PaneOf(s, u);
    }
  }

  /** putc draws the character on the terminal that is shown, in its colour, and on no other. */
  lemma PutcDraws(s: Screens, d: Desk, c: int)
    requires Faithful(s, d)
    ensures Drawn(PaneOf(s, s.foreground), PaneOf(Putc(s, c), s.foreground), [0x30, 0x40, 0x50][s.foreground], c)
    ensures forall u: Terminal :: u != s.foreground ==> PaneOf(Putc(s, c), u) == PaneOf(s, u)
  {
    hide Drawn;
    assert Renders(PaneOf(s, s.foreground), d.logs[s.foreground]);
    EmitDraws(PaneOf(s, s.foreground), d.logs[s.foreground], c);
  }

  /** mt_putc does so on the scheduled terminal; in the background the cursor runs on behind column 79. */
  lemma MtPutcDraws(s: Screens, d: Desk, c: int)
    requires Faithful(s, d)
    ensures var t, s' := s.scheduled, MtPutc(s, c);
            var p, p', attr := PaneOf(s, t), PaneOf(s', t), [0x30, 0x40, 0x50][t];
            && (if t == s.foreground || p.x < 79 || c == 10 || c == 13 then Drawn(p, p', attr, c)
                else p'.x == 80 && p'.y == p.y && MovedUp(p.frame, p'.frame, 0, attr, 80 * p.y + 79, c))
            && forall u: Terminal :: u != t ==> PaneOf(s', u) == PaneOf(s, u)
  {
    hide Drawn, MovedUp;
    var t := s.scheduled;
    assert Renders(PaneOf(s, t), d.logs[t]) && Renders(PaneOf(s, s.foreground), d.logs[s.foreground]);
    if t == s.foreground {
      PutcDraws(s, d, c);
    } else {
      BlindEmitDraws(PaneOf(s, t), d.logs[t], c, s.xs[s.foreground]);
    }
  }

  lemma SwitchStays(s: Screens, d: Desk, t: Terminal)
    requires Faithful(s, d)
    ensures Faithful(SwitchVideo(s, t), d.(foreground := t))
  {
    var s' := SwitchVideo(s, t);
    forall u: Terminal ensures Renders(PaneOf(s', u), d.logs[u]) {
      assert Renders(PaneOf(s, u), d.logs[u]);
      assert PaneOf(s', u) == PaneOf(s, u);
    }
  }

  lemma ClearStays(s: Screens, d: Desk)
    requires Faithful(s, d)
    ensures Faithful(Clear(s), DeskStep(d, ClearScreen))
  {
    var t := s.foreground;
    ClearRenders(s.frames[VGA_INDEX], ATTRIBS[t]);
    var s', d' := Clear(s), DeskStep(d, ClearScreen);
    forall u: Terminal ensures Renders(PaneOf(s', u), d'.logs[u]) {
      assert Renders(PaneOf(s, u), d.logs[u]);
      assert u != t ==> PaneOf(s', u) == PaneOf(s, u);
    }
  }

  /** Each step keeps all three terminals right, exactly unless a background row fills up. */
  lemma StepFaithful(s: Screens, d: Desk, e: Event)
    requires Faithful(s, d)
    ensures Faithful(Step(s, e), DeskStep(d, e)) <==> !FillsRowUnseen(d, e)
  {
    match e {
      case Echo(c) => EmitStays(s, d, c);
      case Output(c) =>
        if s.scheduled == s.foreground { EmitStays(s, d, c); } else { OutputStays(s, d, c); }
      case Tick =>
        forall u: Terminal ensures Renders(PaneOf(Reschedule(s), u), d.logs[u]) {
          assert PaneOf(Reschedule(s), u) == PaneOf(s, u);
        }
      case Switch(t) => SwitchStays(s, d, t);
      case ClearScreen => ClearStays(s, d);
    }
  }

  // ----- Every interleaving -----

  ghost predicate FaithfulThroughout(s: Screens, d: Desk, evs: seq<Event>)
    requires InBounds(s) && DeskOk(d)
    decreases |evs|
  {
    Faithful(s, d) && (evs != [] ==> FaithfulThroughout(Step(s, evs[0]), DeskStep(d, evs[0]), evs[1..]))
  }

  /** A condition on the text alone: no background output ever reaches column 80. */
  ghost predicate RowsSeen(d: Desk, evs: seq<Event>)
    requires DeskOk(d)
    decreases |evs|
  {
    evs == [] || (!FillsRowUnseen(d, evs[0]) && RowsSeen(DeskStep(d, evs[0]), evs[1..]))
  }

  /** For every interleaving of foreground output, background output, ticks, terminal switches and clears: all three
      screens show their own text at every moment exactly when no background row fills up. */
  lemma {:induction false} InterleavingFaithful(s: Screens, d: Desk, evs: seq<Event>)
    requires Faithful(s, d)
    ensures FaithfulThroughout(s, d, evs) <==> RowsSeen(d, evs)
    decreases |evs|
  {
    if evs != [] {
      StepFaithful(s, d, evs[0]);
      if !FillsRowUnseen(d, evs[0]) {
        InterleavingFaithful(Step(s, evs[0]), DeskStep(d, evs[0]), evs[1..]);
      }
    }
  }

  /** init_paging fills the back buffers with coloured NULs, term_clear blanks the VGA frame of terminal 0. */
  ghost function AfterBoot(vga: seq<Cell>, writeY: seq<int>): Screens
    requires IsFrame(vga) && |writeY| == NUM_TERMINALS
  {
    Screens([seq(FRAME_CELLS, _ => Cell(0, ATTRIBS[0])), seq(FRAME_CELLS, _ => Cell(0, ATTRIBS[1])),
             seq(FRAME_CELLS, _ => Cell(0, ATTRIBS[2])), Cleared(vga, ATTRIBS[0])],
            [0, 0, 0], [0, 0, 0], writeY, 0, 0, Vga)
  }

  ghost const EMPTY_DESK := Desk([NewLog(32, 0x30), NewLog(0, 0x40), NewLog(0, 0x50)], 0, 0)

  lemma BootInBounds(vga: seq<Cell>, writeY: seq<int>)
    requires IsFrame(vga) && |writeY| == NUM_TERMINALS
    ensures InBounds(AfterBoot(vga, writeY))
  {
  }

  lemma BootFaithful(vga: seq<Cell>, writeY: seq<int>)
    requires IsFrame(vga) && |writeY| == NUM_TERMINALS
    ensures Faithful(AfterBoot(vga, writeY), EMPTY_DESK)
  {
    var s := AfterBoot(vga, writeY);
    ClearRenders(vga, ATTRIBS[0]);
    forall t: Terminal ensures Renders(PaneOf(s, t), EMPTY_DESK.logs[t]) {
      if t != 0 {
        assert forall i :: 0 <= i < CELLS ==> s.frames[t][i] == Cell(0, ATTRIBS[t]);
      }
    }
  }

  /** From boot on, every terminal shows exactly its own text at every moment, exactly when no background row
      fills up. */
  lemma FaithfulFromBoot(vga: seq<Cell>, writeY: seq<int>, evs: seq<Event>)
    requires IsFrame(vga) && |writeY| == NUM_TERMINALS
    ensures FaithfulThroughout(AfterBoot(vga, writeY), EMPTY_DESK, evs) <==> RowsSeen(EMPTY_DESK, evs)
  {
    BootFaithful(vga, writeY);
    InterleavingFaithful(AfterBoot(vga, writeY), EMPTY_DESK, evs);
  }

  lemma {:induction false} RowFillsUp(d: Desk, c: int, evs: seq<Event>)
    requires DeskOk(d) && d.scheduled != d.foreground && !IsNewline(c)
    requires |evs| == COLS - |LastRow(d.logs[d.scheduled])|
    requires forall i :: 0 <= i < |evs| ==> evs[i] == Output(c)
    ensures !RowsSeen(d, evs)
    decreases |evs|
  {
    if |evs| > 1 {
      PutWellFormed(d.logs[d.scheduled], c);
      RowFillsUp(DeskStep(d, evs[0]), c, evs[1..]);
    }
  }

  /** A background process that prints eighty characters in a row is enough: its screen or cursor goes wrong. */
  lemma LongBackgroundRow(s: Screens, d: Desk, c: int, evs: seq<Event>)
    requires Faithful(s, d) && d.scheduled != d.foreground && !IsNewline(c)
    requires |evs| == COLS - |LastRow(d.logs[d.scheduled])|
    requires forall i :: 0 <= i < |evs| ==> evs[i] == Output(c)
    ensures !RowsSeen(d, evs) && !FaithfulThroughout(s, d, evs)
  {
    RowFillsUp(d, c, evs);
    InterleavingFaithful(s, d, evs);
  }

  /** A character that anything else leaves in the visible part of a background terminal's frame is seen there. */
  lemma StrayWrite(s: Screens, d: Desk, t: Terminal, i: int, stray: Cell)
    requires Faithful(s, d) && t != d.foreground && 0 <= i < CELLS && s.frames[t][i] != stray
    ensures !Faithful(s.(frames := s.frames[t := s.frames[t][i := stray]]), d)
  {
    var s' := s.(frames := s.frames[t := s.frames[t][i := stray]]);
    var pane, pane' := PaneOf(s, t), PaneOf(s', t);
    assert Renders(pane, d.logs[t]) && pane'.frame[i] != pane.frame[i];
    assert !Renders(pane', d.logs[t]);
  }

  // ----- One terminal, any characters: the frame is the end of the log -----

  ghost function PutcAll(s: Screens, cs: seq<int>): (r: Screens)
    requires InBounds(s)
    ensures InBounds(r)
  {
    if cs == [] then s else Putc(PutcAll(s, cs[..|cs| - 1]), cs[|cs| - 1])
  }

  ghost function PutAll(l: Log, cs: seq<int>): (r: Log)
    requires WellFormed(l)
    ensures WellFormed(r) && r.attr == l.attr
  {
    if cs == [] then l
    else
      PutWellFormed(PutAll(l, cs[..|cs| - 1]), cs[|cs| - 1]);
      Put(PutAll(l, cs[..|cs| - 1]), cs[|cs| - 1])
  }

  ghost function MtPutcAll(s: Screens, cs: seq<int>): (r: Screens)
    requires InBounds(s)
    ensures InBounds(r) && r.foreground == s.foreground && r.scheduled == s.scheduled && r.vmem == s.vmem
  {
    if cs == [] then s else MtPutc(MtPutcAll(s, cs[..|cs| - 1]), cs[|cs| - 1])
  }

  lemma PutcNext(s: Screens, cs: seq<int>, c: int)
    requires InBounds(s)
    ensures MtPutcAll(s, cs + [c]) == MtPutc(MtPutcAll(s, cs), c)
  {
    assert (cs + [c])[..|cs|] == cs;
  }

  lemma PutNext(l: Log, cs: seq<int>, c: int)
    requires WellFormed(l)
    ensures PutAll(l, cs + [c]) == Put(PutAll(l, cs), c)
  {
    assert (cs + [c])[..|cs|] == cs;
  }

  function Copies(c: int, n: nat): (r: seq<int>)
    ensures |r| == n && forall i :: 0 <= i < n ==> r[i] == c
  {
    seq(n, _ => c)
  }

  /** Without the wrap a row simply runs on in memory. */
  lemma {:induction false} RowRunsOn(s: Screens, t: Terminal, c: int, n: nat)
    requires InBounds(s) && s.scheduled == t != s.foreground && s.vmem == Buffer(t) && !IsNewline(c)
    requires s.xs[t] == 0 && s.ys[t] < ROWS - 1 && s.xs[s.foreground] < COLS && n <= COLS + 1
    ensures var s' := MtPutcAll(s, Copies(c, n));
            && s'.xs == s.xs[t := n] && s'.ys == s.ys
            && forall i :: 0 <= i < FRAME_CELLS ==>
                 s'.frames[t][i] == if COLS * s.ys[t] <= i < COLS * s.ys[t] + n then Cell(c, ATTRIBS[t])
                     else s.frames[t][i]
  {
    hide MtPutcAll;
    if n > 0 {
      RowRunsOn(s, t, c, n - 1);
      PutcNext(s, Copies(c, n - 1), c);
      assert Copies(c, n) == Copies(c, n - 1) + [c];
    } else {
      NothingPut(s, Copies(c, 0));
    }
  }

  lemma NothingPut(s: Screens, cs: seq<int>)
    requires InBounds(s) && cs == []
    ensures MtPutcAll(s, cs) == s
  {
  }

  /** In the log the 81st character begins a row of its own. */
  lemma {:induction false} RowInLog(l: Log, c: int, n: nat)
    requires WellFormed(l) && LastRow(l) == [] && !IsNewline(c) && n < COLS
    ensures PutAll(l, Copies(c, n)).rows == l.rows[..|l.rows| - 1] + [Copies(c, n)]
  {
    if n > 0 {
      RowInLog(l, c, n - 1);
      PutNext(l, Copies(c, n - 1), c);
      assert Copies(c, n) == Copies(c, n - 1) + [c];
    }
  }

  lemma LostLog(l: Log, c: int, b: int)
    requires WellFormed(l) && LastRow(l) == [] && !IsNewline(c) && !IsNewline(b)
    ensures PutAll(l, Copies(c, COLS + 1) + [10] + [b]).rows == l.rows[..|l.rows| - 1] + [Copies(c, COLS), [c], [b]]
  {
    hide PutAll, Put;
    var n := COLS - 1;
    RowInLog(l, c, n);
    PutNext(l, Copies(c, n), c);
    PutNext(l, Copies(c, n + 1), c);
    PutNext(l, Copies(c, n + 2), 10);
    PutNext(l, Copies(c, n + 2) + [10], b);
    assert Copies(c, n + 1) == Copies(c, n) + [c] && Copies(c, n + 2) == Copies(c, n + 1) + [c];
    var base, full, none := l.rows[..|l.rows| - 1], Copies(c, n + 1), Copies(c, 0);
    assert none + [c] == [c] && none + [b] == [b];
    assert base + [full, none] == base + [full] + [none];
    assert base + [full] + [[c], none] == base + [full, [c]] + [none];
    PutOnRow(PutAll(l, Copies(c, n)), base, Copies(c, n), c);
    PutOnRow(PutAll(l, full), base + [full], none, c);
    PutOnRow(PutAll(l, Copies(c, n + 2)), base + [full], [c], 10);
    PutOnRow(PutAll(l, Copies(c, n + 2) + [10]), base + [full, [c]], none, b);
  }

  lemma PutOnRow(l: Log, done: seq<seq<int>>, row: seq<int>, c: int)
    requires l.rows == done + [row]
    ensures Put(l, c).rows == done + if IsNewline(c) then [row, []]
                                     else if |row| + 1 < COLS then [row + [c]] else [row + [c], []]
  {
    assert (done + [row])[..|done|] == done;
  }

  lemma LostOnScreen(s: Screens, t: Terminal, c: int, b: int)
    requires InBounds(s) && s.scheduled == t != s.foreground && s.vmem == Buffer(t) && !IsNewline(c) && !IsNewline(b)
    requires s.xs[t] == 0 && s.ys[t] < ROWS - 1 && s.xs[s.foreground] < COLS
    ensures var s', row := MtPutcAll(s, Copies(c, COLS + 1) + [10] + [b]), COLS * s.ys[t];
            forall i :: 0 <= i < FRAME_CELLS ==>
              s'.frames[t][i] == if row <= i < row + COLS then Cell(c, ATTRIBS[t])
                                 else if i == row + COLS then Cell(b, ATTRIBS[t])
                                 else s.frames[t][i]
  {
    hide MtPutcAll;
    RowRunsOn(s, t, c, COLS + 1);
    PutcNext(s, Copies(c, COLS + 1), 10);
    PutcNext(s, Copies(c, COLS + 1) + [10], b);
  }

  /** Visible text is lost: 81 characters in the background, a newline and one more. The log has all of them, in three
      rows; on the screen the last one stands where the 81st was. */
  lemma LostText(s: Screens, d: Desk, c: int, b: int)
    requires Faithful(s, d) && d.scheduled != d.foreground && !IsNewline(c) && !IsNewline(b)
    requires LastRow(d.logs[d.scheduled]) == [] && s.ys[d.scheduled] < ROWS - 1
    ensures var t, cs := d.scheduled, Copies(c, COLS + 1) + [10] + [b];
            var rows, row := PutAll(d.logs[t], cs).rows, COLS * s.ys[t];
            && rows == d.logs[t].rows[..|d.logs[t].rows| - 1] + [Copies(c, COLS), [c], [b]]
            && forall i :: 0 <= i < FRAME_CELLS ==>
                 MtPutcAll(s, cs).frames[t][i] == if row <= i < row + COLS then Cell(c, ATTRIBS[t])
                                                  else if i == row + COLS then Cell(b, ATTRIBS[t])
                                                  else s.frames[t][i]
  {
    hide MtPutcAll, PutAll;
    var t := d.scheduled;
    assert Renders(PaneOf(s, t), d.logs[t]) && Renders(PaneOf(s, s.foreground), d.logs[s.foreground]);
    LostOnScreen(s, t, c, b);
    LostLog(d.logs[t], c, b);
  }

  /** Any characters through putc leave the foreground frame a 25-row window of the log, the cursor in bounds at its
      end, the other terminals as they were, and write_y naming the same log row as before. */
  lemma {:induction false} PutcWindow(s: Screens, d: Desk, cs: seq<int>)
    requires Faithful(s, d)
    ensures var s', t := PutcAll(s, cs), s.foreground;
            && Faithful(s', d.(logs := d.logs[t := PutAll(d.logs[t], cs)]))
            && 0 <= s'.xs[t] < COLS && 0 <= s'.ys[t] < ROWS
            && s'.writeY[t] + Top(PutAll(d.logs[t], cs)) == s.writeY[t] + Top(d.logs[t])
            && (forall u: Terminal :: u != t ==> PaneOf(s', u) == PaneOf(s, u))
  {
    var t := s.foreground;
    if cs == [] {
      assert d.logs[t := d.logs[t]] == d.logs;
      assert Renders(PaneOf(s, t), d.logs[t]);
    } else {
      var init, c := cs[..|cs| - 1], cs[|cs| - 1];
      PutcWindow(s, d, init);
      var s1, d1 := PutcAll(s, init), d.(logs := d.logs[t := PutAll(d.logs[t], init)]);
      EmitStays(s1, d1, c);
      assert Renders(PaneOf(s1, t), d1.logs[t]);
      EmitRenders(PaneOf(s1, t), d1.logs[t], c);
      assert Renders(PaneOf(PutcAll(s, cs), t), Put(d1.logs[t], c));
      assert d1.logs[t := Put(d1.logs[t], c)] == d.logs[t := PutAll(d.logs[t], cs)];
    }
  }

  // ----- The frames and cursors themselves, updated in place -----

  /** The inner loop of scroll: row y over row y - 1. */
  method CopyRowUp(a: array<Cell>, y: int)
    requires a.Length == FRAME_CELLS && 1 <= y < ROWS
    modifies a
    ensures forall i :: COLS * (y - 1) <= i < COLS * y ==> a[i] == old(a[i + COLS])
    ensures forall i :: 0 <= i < COLS * (y - 1) || COLS * y <= i < FRAME_CELLS ==> a[i] == old(a[i])
  {
    for x := 0 to COLS
      invariant forall i :: COLS * (y - 1) <= i < COLS * (y - 1) + x ==> a[i] == old(a[i + COLS])
      invariant forall i :: 0 <= i < COLS * (y - 1) || COLS * (y - 1) + x <= i < FRAME_CELLS ==> a[i] == old(a[i])
    {
      a[COLS * (y - 1) + x] := a[COLS * y + x];
    }
  }

  /** scroll: shift every row up by one, in place, and blank the last. */
  method ScrollFrame(a: array<Cell>, attr: int)
    requires a.Length == FRAME_CELLS
    modifies a
    ensures a[..] == Scrolled(old(a[..]), attr)
  {
    for y := 1 to ROWS
      invariant forall i :: 0 <= i < COLS * (y - 1) ==> a[i] == old(a[i + COLS])
      invariant forall i :: COLS * (y - 1) <= i < FRAME_CELLS ==> a[i] == old(a[i])
    {
      CopyRowUp(a, y);
    }
    assert a[..CELLS - COLS] == old(a[COLS..CELLS]) && a[CELLS..] == old(a[CELLS..]);
    BlankLastRow(a, attr);
  }

  method BlankLastRow(a: array<Cell>, attr: int)
    requires a.Length == FRAME_CELLS
    modifies a
    ensures a[..] == old(a[..CELLS - COLS]) + seq(COLS, _ => Cell(0, attr)) + old(a[CELLS..])
  {
    for x := 0 to COLS
      invariant forall i :: CELLS - COLS <= i < CELLS - COLS + x ==> a[i] == Cell(0, attr)
      invariant forall i :: 0 <= i < CELLS - COLS || CELLS - COLS + x <= i < FRAME_CELLS ==> a[i] == old(a[i])
    {
      a[COLS * (ROWS - 1) + x] := Cell(0, attr);
    }
    assert a[..] == old(a[..CELLS - COLS]) + seq(COLS, _ => Cell(0, attr)) + old(a[CELLS..]);
  }

  method ClearFrame(a: array<Cell>, attr: int)
    requires a.Length == FRAME_CELLS
    modifies a
    ensures a[..] == Cleared(old(a[..]), attr)
  {
    for i := 0 to CELLS
      invariant forall j :: 0 <= j < i ==> a[j] == Cell(32, attr)
      invariant forall j :: i <= j < FRAME_CELLS ==> a[j] == old(a[j])
    {
      a[i] := Cell(32, attr);
    }
    assert a[..] == Cleared(old(a[..]), attr);
  }

  method CopyFrame(dst: array<Cell>, src: array<Cell>)
    requires dst.Length == src.Length == FRAME_CELLS && dst != src
    modifies dst
    ensures dst[..] == src[..]
  {
    for i := 0 to FRAME_CELLS
      invariant dst[..i] == src[..i]
    {
      dst[i] := src[i];
    }
    assert dst[..] == src[..];
  }

  /** The loop of init_paging over one back buffer. */
  method NulFrame(attr: int) returns (a: array<Cell>)
    ensures fresh(a) && a.Length == FRAME_CELLS && a[..] == seq(FRAME_CELLS, _ => Cell(0, attr))
  {
    a := new Cell[FRAME_CELLS](_ => Cell(0, attr));
  }

  /** Three globals without an initial value. */
  method Zeroes() returns (a: array<int>)
    ensures fresh(a) && a.Length == NUM_TERMINALS && a[..] == [0, 0, 0]
  {
    a := new int[NUM_TERMINALS](_ => 0);
  }

  class Display {
    const buffer0: array<Cell>
    const buffer1: array<Cell>
    const buffer2: array<Cell>
    const vga: array<Cell>
    const xs: array<int>
    const ys: array<int>
    const writeY: array<int>
    var foreground: Terminal
    var scheduled: Terminal
    var vmem: Frame

    ghost function View(): Screens
      reads this, buffer0, buffer1, buffer2, vga, xs, ys, writeY
    {
      Screens([buffer0[..], buffer1[..], buffer2[..], vga[..]], xs[..], ys[..], writeY[..], foreground, scheduled, vmem)
    }

    ghost predicate Valid()
      reads this, buffer0, buffer1, buffer2, vga, xs, ys, writeY
    {
      && buffer0 != buffer1 && buffer0 != buffer2 && buffer1 != buffer2
      && vga != buffer0 && vga != buffer1 && vga != buffer2
      && xs != ys && xs != writeY && ys != writeY
      && buffer0.Length == buffer1.Length == buffer2.Length == vga.Length == FRAME_CELLS
      && xs.Length == ys.Length == writeY.Length == NUM_TERMINALS
      && InBounds(View())
    }

    /** init_paging and term_clear, over whatever the VGA memory holds. */
    constructor (screen: array<Cell>)
      requires screen.Length == FRAME_CELLS
      modifies screen
      ensures Valid() && vga == screen && View() == AfterBoot(old(screen[..]), [0, 0, 0])
    {
      var frame0 := NulFrame(ATTRIBS[0]);
      var frame1 := NulFrame(ATTRIBS[1]);
      var frame2 := NulFrame(ATTRIBS[2]);
      buffer0, buffer1, buffer2 := frame0, frame1, frame2;
      vga := screen;
      var columns := Zeroes();
      var rows := Zeroes();
      var protectedRows := Zeroes();
      xs, ys, writeY := columns, rows, protectedRows;
      foreground, scheduled, vmem := 0, 0, Vga;
      new;
      hide Cleared, InBounds;
      ClearFrame(vga, ATTRIBS[0]);
      BootInBounds(old(screen[..]), [0, 0, 0]);
    }

    function FrameArray(f: int): (a: array<Cell>)
      requires 0 <= f < 4
    {
      if f == 0 then buffer0 else if f == 1 then buffer1 else if f == 2 then buffer2 else vga
    }

    /** The cursor arrays, as far as a write for terminal t needs them. */
    ghost predicate HasCursor(t: Terminal)
      reads xs, ys
    {
      && xs != ys && xs != writeY && ys != writeY
      && xs.Length == ys.Length == writeY.Length == NUM_TERMINALS
      && xs[t] >= 0 && ys[t] >= 0
    }

    /** The character itself, and the step to the next row when a column reaches 80. */
    method WriteCell(a: array<Cell>, t: Terminal, c: int, watchesForeground: bool)
      requires HasCursor(t) && a.Length == FRAME_CELLS && (watchesForeground ==> t != foreground)
      modifies a, xs, ys
      ensures HasCursor(t) && xs[..] == old(xs[..])[t := xs[t]] && ys[..] == old(ys[..])[t := ys[t]]
      ensures Pane(a[..], xs[t], ys[t]) == Emitted(old(Pane(a[..], xs[t], ys[t])), ATTRIBS[t], c,
                                                   if watchesForeground then Some(old(xs[foreground])) else None)
    {
      if IsNewline(c) {
        ys[t] := ys[t] + 1;
        xs[t] := 0;
      } else {
        var i := COLS * ys[t] + xs[t];
        if i < FRAME_CELLS {
          a[i] := Cell(c, ATTRIBS[t]);
        }
        xs[t] := xs[t] + 1;
      }
      if (if watchesForeground then xs[foreground] else xs[t]) >= COLS {
        ys[t] := ys[t] + 1;
        xs[t] := 0;
      }
    }

    /** The bottom-of-screen test. */
    method Settle(a: array<Cell>, t: Terminal)
      requires HasCursor(t) && a.Length == FRAME_CELLS
      modifies a, xs, ys, writeY
      ensures HasCursor(t) && xs[..] == old(xs[..])[t := xs[t]] && ys[..] == old(ys[..])[t := ys[t]]
      ensures Pane(a[..], xs[t], ys[t]) == Settled(old(Pane(a[..], xs[t], ys[t])), ATTRIBS[t])
      ensures writeY[..] == if old(ys[t]) >= ROWS && t == foreground then old(writeY[..][t := writeY[t] - 1])
              else old(writeY[..])
    {
      if ys[t] >= ROWS {
        ScrollFrame(a, ATTRIBS[t]);
        ys[t] := ROWS - 1;
        xs[t] := 0;
        if t == foreground {
          writeY[t] := writeY[t] - 1;
        }
      }
    }

    method Write(f: int, t: Terminal, c: int, watchesForeground: bool)
      requires Valid() && 0 <= f < 4 && (watchesForeground ==> t != foreground)
      modifies FrameArray(f), xs, ys, writeY
      ensures Valid()
      ensures View() == Emit(old(View()), f, t, c, if watchesForeground then Some(old(xs[foreground])) else None)
    {
      hide Emitted, Settled;
      var a := FrameArray(f);
      ghost var before := View();
      assert before.frames[f] == a[..];
      WriteCell(a, t, c, watchesForeground);
      ghost var q := Pane(a[..], xs[t], ys[t]);
      Settle(a, t);
      ghost var p := Pane(a[..], xs[t], ys[t]);
      assert p == Settled(q, ATTRIBS[t]);
      assert xs[..] == before.xs[t := p.x] && ys[..] == before.ys[t := p.y];
      assert f != 0 ==> buffer0[..] == before.frames[0];
      assert f != 1 ==> buffer1[..] == before.frames[1];
      assert f != 2 ==> buffer2[..] == before.frames[2];
      assert f != 3 ==> vga[..] == before.frames[3];
      assert View().frames == before.frames[f := a[..]];
      assert View() == Emit(before, f, t, c, if watchesForeground then Some(before.xs[foreground]) else None);
    }

    method PutcForeground(c: int)
      requires Valid()
      modifies vga, xs, ys, writeY
      ensures Valid() && View() == Putc(old(View()), c)
    {
      Write(VGA_INDEX, foreground, c, false);
    }

    method PutcScheduled(c: int)
      requires Valid()
      modifies buffer0, buffer1, buffer2, vga, xs, ys, writeY
      ensures Valid() && View() == MtPutc(old(View()), c)
    {
      if scheduled == foreground {
        PutcForeground(c);
      } else {
        Write(Index(vmem), scheduled, c, true);
      }
    }

    /** The effect of a tick on the mapping: incr_current_active_process, then switch_context. */
    method NextTerminal()
      requires Valid()
      modifies this`scheduled, this`vmem
      ensures Valid() && View() == Reschedule(old(View()))
    {
      scheduled := (scheduled + 1) % NUM_TERMINALS;
      SetVmemTable();
    }

    method SetVmemTable()
      modifies this`vmem
      ensures vmem == Mapped(foreground, scheduled)
    {
      if foreground == scheduled {
        vmem := Vga;
      } else {
        vmem := Buffer(scheduled);
      }
    }

    method ShowTerminal(t: Terminal)
      requires Valid()
      modifies this`foreground, this`vmem, buffer0, buffer1, buffer2, vga
      ensures Valid() && View() == SwitchVideo(old(View()), t)
    {
      if foreground == t {
        return;
      }
      CopyFrame(FrameArray(foreground), vga);
      foreground := t;
      CopyFrame(vga, FrameArray(t));
      SetVmemTable();
    }

    method ClearForeground()
      requires Valid()
      modifies vga, xs, ys
      ensures Valid() && View() == Clear(old(View()))
    {
      ClearFrame(vga, ATTRIBS[foreground]);
      xs[foreground] := 0;
      ys[foreground] := 0;
    }
  }
}
