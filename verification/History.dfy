/** The command history of one terminal: a ring of fifty rows of which save_hist fills every second one
    (student-distrib/terminal.c). */
module History {
  import opened Common
  import opened VideoFrames
  import opened EditorSpec
  import opened LineEditor

  const HIST_SIZE := 50
  /** How many commands the ring remembers. */
  const REMEMBERED := 25

  // ----- Reference -----

  predicate IsCommand(s: seq<int>) {
    |s| < BUF_SIZE && forall i :: 0 <= i < |s| ==> IsText(s[i])
  }

  function Oldest(k: int): int {
    Max(0, k - 25)
  }

  /** The non-empty ones of the commands lo..hi-1, oldest first. */
  function NonEmpty(cmds: seq<seq<int>>, lo: nat, hi: nat): (r: seq<int>)
    requires lo <= hi <= |cmds|
    ensures forall i :: 0 <= i < |r| ==> lo <= r[i] < hi && cmds[r[i]] != []
    ensures forall i, j :: 0 <= i < j < |r| ==> r[i] < r[j]
    ensures forall q {:trigger cmds[q]} :: lo <= q < hi && cmds[q] != [] ==> q in r
    decreases hi
  {
    if lo == hi then [] else NonEmpty(cmds, lo, hi - 1) + if cmds[hi - 1] != [] then [hi - 1] else []
  }

  /** What the up-arrow can get back: the non-empty ones of the last 25 saved commands. */
  function Kept(cmds: seq<seq<int>>): (r: seq<int>) {
    NonEmpty(cmds, Oldest(|cmds|), |cmds|)
  }

  /** With no empty command saved these are simply the last 25, or all of them. */
  lemma AllKept(cmds: seq<seq<int>>)
    requires forall q :: 0 <= q < |cmds| ==> cmds[q] != []
    ensures Kept(cmds) == seq(Min(|cmds|, REMEMBERED), i => Oldest(|cmds|) + i)
  {
    AllNonEmpty(cmds, Oldest(|cmds|), |cmds|);
  }

  lemma {:induction false} AllNonEmpty(cmds: seq<seq<int>>, lo: nat, hi: nat)
    requires lo <= hi <= |cmds| && forall q :: lo <= q < hi ==> cmds[q] != []
    ensures NonEmpty(cmds, lo, hi) == seq(hi - lo, i => lo + i)
    decreases hi
  {
    if lo < hi {
      AllNonEmpty(cmds, lo, hi - 1);
    }
  }

  /** Which of n kept commands the j-th consecutive up-arrow recalls. */
  function Recalled(n: int, j: int): int
    requires n > 0 && j > 0
  {
    n - 1 - (j - 1) % n
  }

  /** Which one comes after the m-th; the newest one again after the oldest. */
  function Older(n: int, m: int): int {
    if m > 0 then m - 1 else n - 1
  }

  lemma RecalledSteps(n: int, j: int)
    requires n > 0 && j > 0
    ensures Recalled(n, 1) == n - 1 == Older(n, n)
    ensures Recalled(n, j + 1) == Older(n, Recalled(n, j))
    ensures 0 <= Recalled(n, j) < n
  {
    NextRemainder(j - 1, n);
  }

  // ----- The ring -----

  /** bottom and index after k saves; the k-th command goes to the row behind it. */
  function Ring(k: nat): int {
    2 * (k % REMEMBERED)
  }

  lemma RingStep(k: nat)
    ensures 0 <= Ring(k) <= HIST_SIZE - 2 && Ring(k) % 2 == 0
    ensures Ring(k + 1) == if Ring(k) == HIST_SIZE - 2 then 0 else Ring(k) + 2
    ensures Ring(k + REMEMBERED) == Ring(k)
    ensures k < REMEMBERED ==> Ring(k) == 2 * k
  {
  }

  /** Rows passed over on the way down from row `from` to row `to`, round the ring. */
  function Gap(from: int, to: int): int {
    if to < from then from - to - 1 else from - to + HIST_SIZE - 1
  }

  /** `n` decrements below row r. */
  function Down(r: int, n: int): int {
    if n <= r then r - n else r - n + HIST_SIZE
  }

  /** From a fresh index, and from the row of a command, older commands come in order, and then the newer ones. */
  lemma RingGap(k: nat, at: nat, q: nat)
    requires Oldest(k) <= q < k && Oldest(k) <= at < k
    ensures Gap(Ring(k), Ring(q) + 1) == 2 * (k - 1 - q)
    ensures Gap(Ring(at) + 1, Ring(q) + 1) == 2 * (if q < at then at - q else at - q + REMEMBERED) - 1
  {
    hide Ring;
    RingDistance(k, q);
    RingDistance(at, q);
  }

  lemma RingDistance(x: nat, q: nat)
    requires -REMEMBERED < x - q <= REMEMBERED
    ensures 0 <= Ring(x) < HIST_SIZE && 0 <= Ring(q) < HIST_SIZE
    ensures Ring(x) - Ring(q) == 2 * (x - q) - HIST_SIZE || Ring(x) - Ring(q) == 2 * (x - q)
            || Ring(x) - Ring(q) == 2 * (x - q) + HIST_SIZE
    ensures Ring(x) % 2 == 0 && Ring(q) % 2 == 0
  {
  }

  /** The last 25 commands stand in their rows, and all other rows are empty. */
  ghost predicate RowsKeep(rows: seq<seq<int>>, cmds: seq<seq<int>>) {
    && |rows| == HIST_SIZE
    && (forall i :: 0 <= i < HIST_SIZE ==> |rows[i]| == BUF_SIZE)
    && (forall q :: 0 <= q < |cmds| ==> IsCommand(cmds[q]))
    && (forall q :: 0 <= q < |cmds| && q >= Oldest(|cmds|) ==> HoldsText(rows[Ring(q) + 1], cmds[q]))
    && (forall i :: 0 <= i < HIST_SIZE && (i % 2 == 0 || i >= 2 * |cmds|) ==> rows[i][0] == 0)
  }

  lemma SaveKeeps(rows: seq<seq<int>>, cmds: seq<seq<int>>, row: seq<int>, cmd: seq<int>)
    requires RowsKeep(rows, cmds) && IsCommand(cmd) && HoldsText(row, cmd)
    ensures RowsKeep(rows[Ring(|cmds|) + 1 := row], cmds + [cmd])
  {
    var rows', all := rows[Ring(|cmds|) + 1 := row], cmds + [cmd];
    RingStep(|cmds|);
    forall q | Oldest(|all|) <= q < |all| ensures HoldsText(rows'[Ring(q) + 1], all[q]) {
      RingStep(q);
      RingDistinct(q, |cmds|);
    }
  }

  lemma RingDistinct(q: nat, k: nat)
    requires q <= k < q + REMEMBERED
    ensures Ring(q) == Ring(k) <==> q == k
  {
  }

  /** A row that is not empty is the row of a kept command. */
  lemma RowOf(rows: seq<seq<int>>, cmds: seq<seq<int>>, i: int) returns (q: nat)
    requires RowsKeep(rows, cmds) && 0 <= i < HIST_SIZE && rows[i][0] != 0
    ensures Oldest(|cmds|) <= q < |cmds| && i == Ring(q) + 1 && q in Kept(cmds)
  {
    var k := |cmds|;
    q := k - 1 - (k - 1 - (i - 1) / 2) % REMEMBERED;
    RowNumber(k, i);
    assert HoldsText(rows[i], cmds[q]);
  }

  lemma RowNumber(k: nat, i: int)
    requires 0 <= i < HIST_SIZE && i % 2 == 1 && i < 2 * k
    ensures var q := k - 1 - (k - 1 - (i - 1) / 2) % REMEMBERED; Oldest(k) <= q < k && Ring(q) + 1 == i
  {
  }

  lemma KeptRow(rows: seq<seq<int>>, cmds: seq<seq<int>>, m: int)
    requires RowsKeep(rows, cmds) && 0 <= m < |Kept(cmds)|
    ensures var q := Kept(cmds)[m];
            && Oldest(|cmds|) <= q < |cmds| && 0 <= Ring(q) < HIST_SIZE - 1
            && rows[Ring(q) + 1][0] != 0 && HoldsText(rows[Ring(q) + 1], cmds[q])
  {
    var q := Kept(cmds)[m];
    RingStep(q);
    assert HoldsText(rows[Ring(q) + 1], cmds[q]);
    assert rows[Ring(q) + 1][0] == cmds[q][0];
  }

  /** The index of up_hist: the bottom of the ring after a save, or the row of the m-th kept command. */
  ghost predicate At(cmds: seq<seq<int>>, bottom: int, index: int, m: int) {
    (m == |Kept(cmds)| && index == bottom) || (0 <= m < |Kept(cmds)| && index == Ring(Kept(cmds)[m]) + 1)
  }

  /** Every kept command's row is at least as far down from the index as that of the next older one. */
  lemma NextIsNearest(cmds: seq<seq<int>>, index: int, m: int, i: int)
    requires At(cmds, Ring(|cmds|), index, m) && 0 <= i < |Kept(cmds)|
    ensures Gap(index, Ring(Kept(cmds)[Older(|Kept(cmds)|, m)]) + 1) <= Gap(index, Ring(Kept(cmds)[i]) + 1)
  {
    hide Ring, Gap;
    var kept := Kept(cmds);
    var n := |kept|;
    var to, q := kept[Older(n, m)], kept[i];
    var at := if m < n then kept[m] else to;
    RingGap(|cmds|, at, to);
    RingGap(|cmds|, at, q);
  }

  /** So a search downwards that starts just below the index comes to the next older command's row first. */
  lemma SearchLeads(rows: seq<seq<int>>, cmds: seq<seq<int>>, index: int, m: int)
    requires RowsKeep(rows, cmds) && At(cmds, Ring(|cmds|), index, m) && Kept(cmds) != [] && 0 <= index < HIST_SIZE
    ensures 0 <= Older(|Kept(cmds)|, m) < |Kept(cmds)| && 0 <= Kept(cmds)[Older(|Kept(cmds)|, m)] < |cmds|
    ensures var to := Ring(Kept(cmds)[Older(|Kept(cmds)|, m)]) + 1;
            var first, steps := if index > 0 then index - 1 else HIST_SIZE - 1, Gap(index, to);
            && 0 <= to < HIST_SIZE && 0 <= steps < HIST_SIZE && Down(first, steps) == to && rows[to][0] != 0
            && forall s :: 0 <= s < steps ==> rows[Down(first, s)][0] == 0
  {
    KeptInRange(cmds);
    assert 0 <= Older(|Kept(cmds)|, m) < |Kept(cmds)|;
    hide RowsKeep, At, Kept, Ring, Older;
    var kept := Kept(cmds);
    var to := Ring(kept[Older(|kept|, m)]) + 1;
    KeptRow(rows, cmds, Older(|kept|, m));
    var first, steps := if index > 0 then index - 1 else HIST_SIZE - 1, Gap(index, to);
    forall s | 0 <= s < steps ensures rows[Down(first, s)][0] == 0 {
      if rows[Down(first, s)][0] != 0 {
        var q := RowOf(rows, cmds, Down(first, s));
        var i :| 0 <= i < |kept| && kept[i] == q;
        NextIsNearest(cmds, index, m, i);
        assert false;
      }
    }
  }

  class Ring50 {
    const rows: array<seq<int>>
    var index: int
    var bottom: int

    ghost predicate Keeps(cmds: seq<seq<int>>)
      reads this, rows
    {
      RowsKeep(rows[..], cmds) && bottom == Ring(|cmds|)
    }

    /** Where consecutive up-arrows have got to: the m-th kept command, or none since the last save. */
    ghost predicate Browsing(cmds: seq<seq<int>>, m: int)
      reads this, rows
    {
      Keeps(cmds) && At(cmds, bottom, index, m)
    }

    constructor ()
      ensures Browsing([], 0) && fresh(rows)
    {
      rows := new seq<int>[HIST_SIZE](_ => seq(BUF_SIZE, _ => 0));
      index, bottom := 0, 0;
    }

    /** The copy loop of save_hist, into a cleared row. */
    method CommandRow(buf: seq<int>, ghost cmd: seq<int>) returns (r: seq<int>)
      requires IsCommand(cmd) && |cmd| < |buf| && buf[..|cmd|] == cmd && (buf[|cmd|] == 0 || buf[|cmd|] == NL)
      ensures HoldsText(r, cmd)
    {
      var row := new int[BUF_SIZE](_ => 0);
      assert forall j :: 0 <= j < |cmd| ==> buf[j] == buf[..|cmd|][j] == cmd[j];
      var i := 0;
      while buf[i] != NL && buf[i] != 0
        invariant 0 <= i <= |cmd|
        invariant forall j :: 0 <= j < i ==> row[j] == cmd[j]
        invariant forall j :: i <= j < BUF_SIZE ==> row[j] == 0
        decreases |cmd| - i
      {
        row[i] := buf[i];
        i := i + 1;
      }
      r := row[..];
    }

    /** save_hist of a buffer that holds a command, perhaps an empty one, ended by a NUL or a newline. */
    method SaveHist(buf: seq<int>, ghost cmds: seq<seq<int>>, ghost cmd: seq<int>)
      requires Keeps(cmds) && IsCommand(cmd) && |cmd| < |buf| && buf[..|cmd|] == cmd
               && (buf[|cmd|] == 0 || buf[|cmd|] == NL)
      modifies this, rows
      ensures Browsing(cmds + [cmd], |Kept(cmds + [cmd])|)
    {
      hide Ring, Kept, HoldsText;
      RingStep(|cmds|);
      bottom := (bottom + 1) % HIST_SIZE;
      var row := CommandRow(buf, cmd);
      SaveKeeps(rows[..], cmds, row, cmd);
      rows[bottom] := row;
      assert rows[..] == old(rows[..])[Ring(|cmds|) + 1 := row];
      bottom := (bottom + 1) % HIST_SIZE;
      index := bottom;
    }

    /** The search of up_hist: the next non-empty row below the index, round the ring. */
    method SeekUp(ghost cmds: seq<seq<int>>, ghost m: int) returns (found: bool)
      requires Browsing(cmds, m)
      modifies this`index
      ensures Keeps(cmds) && (found <==> Kept(cmds) != [])
      ensures found ==> Browsing(cmds, Older(|Kept(cmds)|, m)) && index == Ring(Kept(cmds)[Older(|Kept(cmds)|, m)]) + 1
    {
      hide RowsKeep, Ring, Older, Gap, Kept;
      ghost var kept := Kept(cmds);
      RowShape(cmds, m);
      if kept != [] {
        SearchLeads(rows[..], cmds, index, m);
      }
      ghost var steps := if kept == [] then HIST_SIZE else Gap(index, Ring(kept[Older(|kept|, m)]) + 1);
      index := index - 1;
      if index < 0 {
        index := HIST_SIZE - 1;
      }
      ghost var first, passed := index, 0;
      assert forall s :: 0 <= s < steps ==> rows[Down(first, s)][0] == 0;
      assert kept != [] ==> rows[Down(first, steps)][0] != 0;
      if rows[index][0] == 0 {
        var i := 0;
        while i < HIST_SIZE && rows[index][0] == 0
          invariant 0 <= i <= HIST_SIZE && 0 <= index < HIST_SIZE && i <= steps && index == Down(first, i)
          decreases HIST_SIZE - i
        {
          index := index - 1;
          if index < 0 {
            index := HIST_SIZE - 1;
          }
          i := i + 1;
        }
        if rows[index][0] == 0 {
          return false;
        }
        passed := i;
      }
      assert index == Down(first, passed) && passed == steps;
      return true;
    }

    lemma RowShape(cmds: seq<seq<int>>, m: int)
      requires Browsing(cmds, m)
      ensures rows.Length == HIST_SIZE && 0 <= index < HIST_SIZE
      ensures forall i :: 0 <= i < HIST_SIZE ==> |rows[i]| == BUF_SIZE
      ensures Kept(cmds) == [] ==> forall i :: 0 <= i < HIST_SIZE ==> rows[i][0] == 0
    {
      RingStep(|cmds|);
      if m < |Kept(cmds)| {
        KeptRow(rows[..], cmds, m);
      }
      forall i | 0 <= i < HIST_SIZE && rows[i][0] != 0 ensures Kept(cmds) != [] {
        var q := RowOf(rows[..], cmds, i);
      }
    }
  }

  // ----- The up-arrow -----

  /** up_hist: search the ring, then load the row into the line, wherever that begins. It can be seen exactly if it does
      not begin above the top row of the screen. */
  method UpHist(h: Ring50, e: Editor, v: Video, ghost cmds: seq<seq<int>>, ghost m: int)
    requires h.Browsing(cmds, m) && e.OnScreen() && e.writeY < ROWS && v.HasScreen()
    requires h.rows as object != e.buffer
    modifies h`index, e, e.buffer, v
    ensures h.Keeps(cmds) && e.OnScreen() && e.writeY < ROWS && v.HasScreen()
    ensures Kept(cmds) == [] ==> unchanged(e) && unchanged(e.buffer) && unchanged(v)
    ensures Kept(cmds) != [] ==>
              var cmd := cmds[Kept(cmds)[Older(|Kept(cmds)|, m)]];
              && h.Browsing(cmds, Older(|Kept(cmds)|, m)) && e.Agrees(Doc(cmd, |cmd|, e.Start()))
              && (e.Shows(Doc(cmd, |cmd|, e.Start())) <==> 0 <= old(e.writeY))
              && (InView(v.cells, e.Start(), cmd) <==> 0 <= old(e.writeY))
  {
    var found := h.SeekUp(cmds, m);
    if !found {
      return;
    }
    KeptRow(h.rows[..], cmds, Older(|Kept(cmds)|, m));
    e.Recall(v, h.rows[h.index], cmds[Kept(cmds)[Older(|Kept(cmds)|, m)]]);
  }

  /** After any saved commands, and wherever the line begins, the j-th consecutive up-arrow loads the (((j-1) mod
      n)+1)-th most recent of the n non-empty ones among the last 25, and Enter and a read return it. */
  method UpTimes(h: Ring50, e: Editor, v: Video, j: nat, buf: array<int>, ghost cmds: seq<seq<int>>) returns (r: nat)
    requires h.Browsing(cmds, |Kept(cmds)|) && Kept(cmds) != [] && j > 0
    requires e.OnScreen() && e.writeY < ROWS && v.HasScreen()
    requires h.rows as object != e.buffer && h.rows as object != buf && buf != e.buffer && buf.Length > BUF_SIZE
    modifies h`index, e, e.buffer, v, buf
    ensures var n := |Kept(cmds)|;
            var cmd := cmds[Kept(cmds)[n - 1 - (j - 1) % n]];
            r == |cmd| + 1 && r < buf.Length && buf[..r] == cmd + [10]
  {
    hide Kept;
    ghost var n := |Kept(cmds)|;
    ghost var m := n;
    RecalledSteps(n, j);
    KeptInRange(cmds);
    for i := 0 to j
      invariant h.Browsing(cmds, m) && e.OnScreen() && e.writeY < ROWS && v.HasScreen()
      invariant m == if i == 0 then n else Recalled(n, i)
      invariant i > 0 ==> 0 <= m < n && e.Agrees(Doc(cmds[Kept(cmds)[m]], |cmds[Kept(cmds)[m]]|, e.Start()))
    {
      if i > 0 {
        RecalledSteps(n, i);
      }
      UpHist(h, e, v, cmds, m);
      m := Older(n, m);
    }
    e.Enter(Doc(cmds[Kept(cmds)[m]], |cmds[Kept(cmds)[m]]|, e.Start()));
    r := e.ReadLine(buf, BUF_SIZE, cmds[Kept(cmds)[m]]);
  }

  lemma KeptInRange(cmds: seq<seq<int>>)
    ensures forall m :: 0 <= m < |Kept(cmds)| ==> 0 <= Kept(cmds)[m] < |cmds|
  {
  }
}
