/** The buffered line search of syscalls/ece391grep.c: a 1024-byte buffer with one spare byte, refilled behind the
    unfinished line that is carried over from the previous buffer. */
module Grep {
  import opened GrepSpec

  ghost predicate NulFree(t: seq<int>) {
    forall i {:trigger t[i]} :: 0 <= i < |t| ==> 0 < t[i] < 256
  }

  /** data[a..b] is the text f[from..from + (b - a)]. */
  ghost predicate Holds(data: array<int>, a: int, b: int, f: seq<int>, from: int)
    requires 0 <= a <= b <= data.Length && 0 <= from && from + (b - a) <= |f|
    reads data
  {
    forall i {:trigger data[i]} :: a <= i < b ==> data[i] == f[from + (i - a)]
  }

  // ----- The string routines of ece391support.c, as grep uses them -----

  /** ece391_strncmp of the data at `check`, which ends in a NUL at or before `end`, with the whole pattern. */
  method StrNCmp(data: array<int>, check: nat, ghost end: nat, s: seq<int>) returns (same: bool)
    requires check <= end < data.Length && data[end] == 0 && s != [] && NulFree(s)
    ensures same <==> check + |s| <= end && forall j {:trigger s[j]} :: 0 <= j < |s| ==> data[check + j] == s[j]
  {
    var i := 0;
    while data[check + i] == s[i]
      invariant 0 <= i < |s| && check + i <= end
      invariant forall j {:trigger s[j]} :: 0 <= j < i ==> data[check + j] == s[j]
      decreases |s| - i
    {
      assert check + i != end;
      i := i + 1;
      if i == |s| {
        return true;
      }
    }
    return false;
  }

  /** ece391_strcpy(data, data + start): the unfinished line, NUL included, moves to the front. */
  method ShiftDown(data: array<int>, start: nat, end: nat)
    requires 0 < start <= end < data.Length && data[end] == 0
    requires forall i :: start <= i < end ==> data[i] != 0
    modifies data
    ensures forall i {:trigger data[i]} :: 0 <= i <= end - start ==> data[i] == old(data[start + i])
    ensures forall i {:trigger data[i]} :: end - start < i < data.Length ==> data[i] == old(data[i])
  {
    var i := 0;
    while true
      invariant 0 <= i <= end - start
      invariant forall j {:trigger data[j]} :: 0 <= j < i ==> data[j] == old(data[start + j])
      invariant forall j {:trigger data[j]} :: i <= j < data.Length ==> data[j] == old(data[j])
      decreases end - start - i
    {
      data[i] := data[start + i];
      if data[i] == 0 {
        assert start + i == end;
        break;
      }
      i := i + 1;
    }
  }

  method FindLineEnd(data: array<int>, start: nat, last: nat) returns (end: nat)
    requires start <= last <= BUFSIZE < data.Length
    ensures start <= end <= last && (end < last ==> data[end] == NL)
    ensures forall i :: start <= i < end ==> data[i] != NL
  {
    end := start;
    while end < last && NL != data[end]
      invariant start <= end <= last
      invariant forall i :: start <= i < end ==> data[i] != NL
    {
      end := end + 1;
    }
  }

  /** The search loop: does the pattern start anywhere in the line? */
  method SearchLine(data: array<int>, start: nat, end: nat, s: seq<int>, ghost line: seq<int>) returns (found: bool)
    requires start <= end < data.Length && data[end] == 0 && NulFree(s) && NulFree(line)
    requires |line| == end - start && forall i {:trigger line[i]} :: 0 <= i < |line| ==> data[start + i] == line[i]
    ensures found <==> Matches(s, line)
  {
    var check := start;
    while check < end
      invariant start <= check <= end
      invariant s != [] && s[0] < 128 ==> forall i :: 0 <= i < check - start ==> !OccursAt(s, line, i)
    {
      assert data[check] == line[check - start];
      if s != [] && s[0] < 128 && s[0] == data[check] {
        var same := StrNCmp(data, check, end, s);
        assert same <==> OccursAt(s, line, check - start) by {
          assert check + |s| <= end ==>
              forall j {:trigger s[j]} :: 0 <= j < |s| ==> line[check - start + j] == data[check + j];
        }
        if same {
          return true;
        }
      }
      check := check + 1;
    }
    return false;
  }

  /** Where the text of this buffer's search ends: at the buffer's end if the byte behind it forces a cut there. */
  ghost function SearchStop(f: seq<int>, base: nat, forced: bool): nat {
    if forced then base + BUFSIZE else |f|
  }

  /** A buffer that has just been filled with f[base..base + last]: full, or at the end of the file. */
  ghost predicate Filled(data: array<int>, f: seq<int>, base: nat, last: nat, forced: bool)
    reads data
  {
    && data.Length == BUFSIZE + 1 && last <= BUFSIZE && base + last <= |f| && NulFree(f)
    && Holds(data, 0, last, f, base)
    && (last < BUFSIZE ==> base + last == |f| && !forced)
    && (last == BUFSIZE ==> (forced <==> data[BUFSIZE] == NL))
  }

  /** A whole line of the buffer has been searched. */
  lemma SearchedLine(s: seq<int>, f: seq<int>, base: nat, start: nat, end: nat, last: nat, stop: nat)
    requires start <= end < last <= BUFSIZE && base + last <= stop <= |f|
    requires NoNewline(f, base + start, base + end) && f[base + end] == NL
    ensures GrepPieces(s, f, base + start, stop)
            == Shown(s, f[base + start..base + end]) + GrepPieces(s, f, base + end + 1, stop)
  {
    hide GrepPieces, Shown;
    TakeLine(s, f, base + start, stop, base + end);
  }

  /** The rest of the buffer has been searched although its line may go on. */
  lemma SearchedRest(s: seq<int>, f: seq<int>, base: nat, start: nat, last: nat, stop: nat)
    requires start <= last <= BUFSIZE && base + last <= stop <= |f| && NoNewline(f, base + start, base + last)
    requires base + last == stop || (start == 0 && last == BUFSIZE)
    ensures GrepPieces(s, f, base + start, stop)
            == Shown(s, f[base + start..base + last]) + GrepPieces(s, f, base + last, stop)
  {
    hide Shown, GrepPieces;
    if last - start == BUFSIZE {
      TakeChop(s, f, base + start, stop);
    } else if start == last {
      QuietShowsNothing(s, f, base + start, base + last);
    } else {
      TakeLine(s, f, base + start, stop, base + last);
      NothingLeft(s, f, stop + 1, stop);
      NothingLeft(s, f, stop, stop);
    }
  }

  /** Search the line at start..end and print it if it matches. */
  method ShowLine(data: array<int>, start: nat, end: nat, s: seq<int>, ghost line: seq<int>, sofar: seq<seq<int>>)
    returns (shown: seq<seq<int>>)
    requires start <= end < data.Length && NulFree(s) && NulFree(line)
    requires |line| == end - start && forall i {:trigger line[i]} :: 0 <= i < |line| ==> data[start + i] == line[i]
    modifies data
    ensures data[end] == 0
    ensures forall i {:trigger data[i]} :: 0 <= i < data.Length && i != end ==> data[i] == old(data[i])
    ensures shown == sofar + Shown(s, line)
  {
    data[end] := 0;
    var found := SearchLine(data, start, end, s, line);
    if found {
      assert data[start..end] == line;
      shown := sofar + [data[start..end]];
    } else {
      shown := sofar;
    }
  }

  /** What the end found in the buffer says about the file. */
  lemma LineInFile(data: array<int>, f: seq<int>, base: nat, start: nat, end: nat, last: nat)
    requires start <= end <= last <= data.Length && base + last <= |f| && Holds(data, start, last, f, base + start)
             && NulFree(f)
    requires forall i :: start <= i < end ==> data[i] != NL
    ensures NoNewline(f, base + start, base + end) && (end < last ==> f[base + end] == data[end])
    ensures var line := f[base + start..base + end];
            NulFree(line) && forall i {:trigger line[i]} :: 0 <= i < |line| ==> data[start + i] == line[i]
  {
    forall i | base + start <= i < base + end ensures f[i] != NL {
      assert data[i - base] == f[i];
    }
  }

  /** One pass of the inner loop that searches a line: what is printed, and what the text after it still shows. */
  method SearchOne(data: array<int>, start: nat, end: nat, last: nat, s: seq<int>, ghost f: seq<int>, ghost base: nat,
                   ghost stop: nat, sofar: seq<seq<int>>) returns (shown: seq<seq<int>>)
    requires start <= end <= last <= BUFSIZE < data.Length && base + last <= stop <= |f| && NulFree(s) && NulFree(f)
    requires Holds(data, start, last, f, base + start)
    requires (forall i :: start <= i < end ==> data[i] != NL) && (end < last ==> data[end] == NL)
    requires end == last ==> base + last == stop || (start == 0 && last == BUFSIZE)
    modifies data
    ensures data[end] == 0
    ensures forall i {:trigger data[i]} :: 0 <= i < data.Length && i != end ==> data[i] == old(data[i])
    ensures shown + GrepPieces(s, f, base + if end < last then end + 1 else last, stop)
            == sofar + GrepPieces(s, f, base + start, stop)
  {
    hide GrepPieces, Shown;
    LineInFile(data, f, base, start, end, last);
    if end < last {
      SearchedLine(s, f, base, start, end, last, stop);
    } else {
      SearchedRest(s, f, base, start, last, stop);
    }
    ghost var line := f[base + start..base + end];
    shown := ShowLine(data, start, end, s, line, sofar);
    assert sofar + Shown(s, line) + GrepPieces(s, f, base + if end < last then end + 1 else last, stop)
        == sofar + (Shown(s, line) + GrepPieces(s, f, base + if end < last then end + 1 else last, stop));
  }

  /** The pass that gives up on an unfinished line: it moves to the front of the buffer. */
  method CarryOver(data: array<int>, start: nat, last: nat, ghost f: seq<int>, ghost base: nat)
    requires 0 < start <= last <= BUFSIZE < data.Length && base + last <= |f| && NulFree(f)
    requires Holds(data, start, last, f, base + start)
    modifies data
    ensures Holds(data, 0, last - start, f, base + start)
    ensures data[BUFSIZE] == if last == BUFSIZE then 0 else old(data[BUFSIZE])
  {
    data[last] := 0;
    ShiftDown(data, start, last);
  }

  /** The inner loop: search the buffer's lines, and carry an unfinished one over unless it is all there is. */
  method ScanBuffer(data: array<int>, last: nat, cnt: nat, s: seq<int>, ghost f: seq<int>, ghost base: nat,
                    ghost forced: bool)
    returns (left: nat, shown: seq<seq<int>>)
    requires Filled(data, f, base, last, forced) && NulFree(s)
    requires cnt == 0 ==> last < BUFSIZE
    modifies data
    ensures left <= last && left < BUFSIZE && (forced || cnt == 0 ==> left == 0)
    ensures Holds(data, 0, left, f, base + (last - left))
    ensures data[BUFSIZE] == NL <==> old(data[BUFSIZE]) == NL && (last < BUFSIZE || f[base + BUFSIZE - 1] == NL)
    ensures var stop := SearchStop(f, base, forced);
            shown + GrepPieces(s, f, base + (last - left), stop) == GrepPieces(s, f, base, stop)
  {
    hide GrepPieces;
    ghost var stop := SearchStop(f, base, forced);
    shown := [];
    var start := 0;
    left := 0;
    while true
      invariant 0 <= start <= last && (start == last ==> last == 0) && left == 0
      invariant Holds(data, start, last, f, base + start) && data[BUFSIZE] == old(data[BUFSIZE])
      invariant shown + GrepPieces(s, f, base + start, stop) == GrepPieces(s, f, base, stop)
      decreases last - start
    {
      var end := FindLineEnd(data, start, last);
      if NL != data[end] && 0 != cnt && start != 0 {
        assert data[last - 1] == f[base + last - 1] != NL;
        CarryOver(data, start, last, f, base);
        left := last - start;
        break;
      }
      if end == last && start < last {
        assert data[last - 1] == f[base + last - 1] != NL;
      }
      if end + 1 == last {
        assert data[end] == f[base + last - 1] == NL;
      }
      shown := SearchOne(data, start, end, last, s, f, base, stop, shown);
      start := end + 1;
      if start >= last {
        break;
      }
    }
  }

  /** ece391_read of up to `want` bytes at file position pos, into the buffer behind what it holds. */
  method ReadInto(data: array<int>, last: nat, f: seq<int>, pos: nat, want: nat) returns (cnt: nat)
    requires pos <= |f| && last + want < data.Length && last <= pos && Holds(data, 0, last, f, pos - last)
    modifies data
    ensures cnt == if want <= |f| - pos then want else |f| - pos
    ensures Holds(data, 0, last + cnt, f, pos - last)
    ensures forall i {:trigger data[i]} :: last + want <= i < data.Length ==> data[i] == old(data[i])
  {
    cnt := if want <= |f| - pos then want else |f| - pos;
    for i := 0 to cnt
      invariant Holds(data, 0, last + i, f, pos - last)
      invariant forall j {:trigger data[j]} :: last + want <= j < data.Length ==> data[j] == old(data[j])
    {
      data[last + i] := f[pos + i];
    }
  }

  /** What is still to be shown when a buffer is about to be filled: `last` bytes before pos are carried over. */
  ghost function Remaining(s: seq<int>, f: seq<int>, pos: nat, last: nat, armed: bool): seq<seq<int>>
    requires last <= pos <= |f|
  {
    if armed && last == 0 then GrepCut(s, f, pos) else GrepPieces(s, f, pos - last, |f|)
  }

  /** do_one_file, with the file's bytes as read delivers them. It ends, and it prints exactly the matching pieces of
      the file in order; only a newline left by chance in the byte behind the buffer can cut one more line. */
  method DoOneFile(data: array<int>, s: seq<int>, f: seq<int>) returns (out: seq<seq<int>>)
    requires data.Length == BUFSIZE + 1 && NulFree(s) && NulFree(f)
    modifies data
    ensures out == Printed(s, f, old(data[BUFSIZE]))
  {
    hide GrepPieces, GrepCut, Shown, Remaining;
    ghost var goal := Remaining(s, f, 0, 0, data[BUFSIZE] == NL);
    NothingRemains(s, f, data[BUFSIZE] == NL);
    out := [];
    var last, pos := 0, 0;
    while true
      invariant 0 <= last <= pos <= |f| && last < BUFSIZE && Holds(data, 0, last, f, pos - last)
      invariant data[BUFSIZE] == NL ==> last == 0 || pos == |f|
      invariant out + Remaining(s, f, pos, last, data[BUFSIZE] == NL) == goal
      decreases |f| - pos
    {
      ghost var armed, base := data[BUFSIZE] == NL, pos - last;
      var cnt := ReadInto(data, last, f, pos, BUFSIZE - last);
      pos, last := pos + cnt, last + cnt;
      ghost var forced := armed && last == BUFSIZE;
      var left, shown := ScanBuffer(data, last, cnt, s, f, base, forced);
      RoundShows(s, f, base, last - cnt, last, left, armed, data[BUFSIZE] == NL, shown);
      assert (out + shown) + Remaining(s, f, pos, left, data[BUFSIZE] == NL)
             == out + (shown + Remaining(s, f, pos, left, data[BUFSIZE] == NL));
      out := out + shown;
      last := left;
      if cnt == 0 {
        NothingRemains(s, f, data[BUFSIZE] == NL);
        break;
      }
    }
  }

  lemma NothingRemains(s: seq<int>, f: seq<int>, armed: bool)
    ensures Remaining(s, f, |f|, 0, armed) == []
    ensures Remaining(s, f, 0, 0, armed) == if armed then GrepCut(s, f, 0) else GrepPieces(s, f, 0, |f|)
  {
  }

  /** One round: what the buffer showed, followed by what remains after it, is what remained before it. */
  lemma RoundShows(s: seq<int>, f: seq<int>, base: nat, carried: nat, last: nat, left: nat, armed: bool, armed': bool,
                    shown: seq<seq<int>>)
    requires carried <= last <= BUFSIZE && left <= last && base + last <= |f|
    requires armed ==> carried == 0 || base + carried == |f|
    requires last < BUFSIZE ==> base + last == |f|
    requires armed' <==> armed && (last < BUFSIZE || f[base + BUFSIZE - 1] == NL)
    requires carried < BUFSIZE && (armed && last == BUFSIZE ==> left == 0)
    requires var stop := SearchStop(f, base, armed && last == BUFSIZE);
             stop <= |f| && shown + GrepPieces(s, f, base + (last - left), stop) == GrepPieces(s, f, base, stop)
    ensures shown + Remaining(s, f, base + last, left, armed') == Remaining(s, f, base + carried, carried, armed)
  {
    hide Shown;
    if armed && last == BUFSIZE {
      assert GrepPieces(s, f, base + BUFSIZE, base + BUFSIZE) == [];
    }
  }

  /** What do_one_file prints, by the byte behind the buffer. */
  ghost function Printed(s: seq<int>, f: seq<int>, behind: int): seq<seq<int>> {
    if behind == NL then GrepCut(s, f, 0) else GrepPieces(s, f, 0, |f|)
  }

  /** The property grep is for: whatever the byte behind the buffer, every matching line is printed once and in order
      exactly when each line has at most 1024 bytes or no ASCII byte and, if that byte is a newline, the cut it
      forces does no harm. */
  lemma GrepPrintsMatchingLines(f: seq<int>, behind: int)
    requires NulFree(f)
    ensures (forall s :: NulFree(s) ==> Printed(s, f, behind) == Grep(s, f, 0, |f|))
       <==> LinesFit(f, 0, |f|) && (behind == NL ==> CutHarmless(f, 0))
  {
    hide LinesFit, CutHarmless, Grep, GrepCut, GrepPieces;
    if behind == NL {
      CutExactlyLines(f);
    } else {
      PiecesExactlyLines(f);
    }
    if !(LinesFit(f, 0, |f|) && (behind == NL ==> CutHarmless(f, 0))) {
      var s := Telltale(f, behind);
    }
  }

  /** A one-byte pattern that tells what is printed from what should be. */
  lemma Telltale(f: seq<int>, behind: int) returns (s: seq<int>)
    requires NulFree(f) && !(LinesFit(f, 0, |f|) && (behind == NL ==> CutHarmless(f, 0)))
    ensures NulFree(s) && Findable(s) && Printed(s, f, behind) != Grep(s, f, 0, |f|)
  {
    hide LinesFit, CutHarmless, Grep, GrepCut, GrepPieces;
    if behind == NL {
      s := CutTelltale(f);
    } else {
      s := LongLineIsShown(f, 0, |f|);
      PiecesAreShort(s, f, 0, |f|);
    }
  }

  /** The same against plain containment: for the patterns whose first byte the code finds, the lines that contain the
      pattern are what is printed, under exactly the same condition on the file. */
  lemma GrepPrintsContainingLines(f: seq<int>, behind: int)
    requires NulFree(f)
    ensures (forall s :: NulFree(s) && Findable(s) ==> Printed(s, f, behind) == Containing(s, Lines(f, 0, |f|)))
       <==> LinesFit(f, 0, |f|) && (behind == NL ==> CutHarmless(f, 0))
  {
    hide LinesFit, CutHarmless, Grep, GrepCut, GrepPieces, Containing, Lines;
    GrepPrintsMatchingLines(f, behind);
    forall s | Findable(s) ensures Grep(s, f, 0, |f|) == Containing(s, Lines(f, 0, |f|)) {
      FindableIsContained(s, f, 0, |f|);
    }
    if !(LinesFit(f, 0, |f|) && (behind == NL ==> CutHarmless(f, 0))) {
      var s := Telltale(f, behind);
      assert Printed(s, f, behind) != Containing(s, Lines(f, 0, |f|));
    }
  }
}
