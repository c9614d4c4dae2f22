/** What grep prints for a file: the reference for the buffered search in syscalls/ece391grep.c.
    Text is always the stretch k..stop of a file f. */
module GrepSpec {

  const BUFSIZE := 1024
  const NL := 10

  // ----- Lines -----

  /** No newline at positions a..b-1. */
  predicate NoNewline(f: seq<int>, a: int, b: int)
    requires 0 <= a && b <= |f|
  {
    forall i {:trigger f[i]} :: a <= i < b ==> f[i] != 10
  }

  /** Where the line that starts at k ends: at its newline, or at the end of the text. */
  function LineEnd(f: seq<int>, k: nat, stop: nat): (e: nat)
    requires k <= stop <= |f|
    ensures k <= e <= stop && NoNewline(f, k, e) && (e < stop ==> f[e] == 10)
    decreases stop - k
  {
    if k == stop || f[k] == 10 then k else LineEnd(f, k + 1, stop)
  }

  function Lines(f: seq<int>, k: nat, stop: nat): seq<seq<int>>
    requires stop <= |f|
    decreases stop - k
  {
    if k >= stop then [] else var e := LineEnd(f, k, stop); [f[k..e]] + Lines(f, e + 1, stop)
  }

  // ----- Matching -----

  ghost predicate OccursAt(s: seq<int>, line: seq<int>, i: int) {
    0 <= i && i + |s| <= |line| && forall j {:trigger s[j]} :: 0 <= j < |s| ==> line[i + j] == s[j]
  }

  /** A line is printed if it contains the pattern. The pattern's first byte is compared as a signed character with
      an unsigned byte, so a pattern that starts above 127 matches nothing, and neither does the empty one. */
  ghost predicate Matches(s: seq<int>, line: seq<int>) {
    s != [] && s[0] < 128 && exists i :: OccursAt(s, line, i)
  }

  ghost function Shown(s: seq<int>, line: seq<int>): seq<seq<int>> {
    if Matches(s, line) then [line] else []
  }

  /** The matching lines, once each and in order. */
  ghost function Grep(s: seq<int>, f: seq<int>, k: nat, stop: nat): seq<seq<int>>
    requires stop <= |f|
    decreases stop - k
  {
    if k >= stop then [] else var e := LineEnd(f, k, stop); Shown(s, f[k..e]) + Grep(s, f, e + 1, stop)
  }

  // ----- The same without the quirk of the first byte -----

  ghost predicate Contains(s: seq<int>, line: seq<int>) {
    exists i :: OccursAt(s, line, i)
  }

  /** The lines that contain the pattern, once each and in order. */
  ghost function Containing(s: seq<int>, lines: seq<seq<int>>): seq<seq<int>> {
    if lines == [] then []
    else (if Contains(s, lines[0]) then [lines[0]] else []) + Containing(s, lines[1..])
  }

  /** A pattern whose first byte the code finds. */
  predicate Findable(s: seq<int>) {
    s != [] && s[0] < 128
  }

  lemma {:induction false} FindableIsContained(s: seq<int>, f: seq<int>, k: nat, stop: nat)
    requires stop <= |f| && Findable(s)
    ensures Grep(s, f, k, stop) == Containing(s, Lines(f, k, stop))
    decreases stop - k
  {
    hide Contains, Matches;
    if k < stop {
      var e := LineEnd(f, k, stop);
      MatchesFindable(s, f[k..e]);
      FindableIsContained(s, f, e + 1, stop);
      assert Lines(f, k, stop)[1..] == Lines(f, e + 1, stop);
    }
  }

  lemma MatchesFindable(s: seq<int>, line: seq<int>)
    requires Findable(s)
    ensures Matches(s, line) <==> Contains(s, line)
  {
  }

  /** A pattern with a newline is in no line at all. */
  lemma {:induction false} NewlineInNone(s: seq<int>, f: seq<int>, k: nat, stop: nat)
    requires stop <= |f| && NL in s
    ensures Grep(s, f, k, stop) == Containing(s, Lines(f, k, stop)) == []
    decreases stop - k
  {
    hide Grep, Containing;
    if k < stop {
      var e := LineEnd(f, k, stop);
      forall i ensures !OccursAt(s, f[k..e], i) {
        var j :| 0 <= j < |s| && s[j] == NL;
        assert 0 <= i && i + |s| <= e - k ==> f[k..e][i + j] == f[k + i + j];
      }
      NewlineInNone(s, f, e + 1, stop);
      assert Lines(f, k, stop)[1..] == Lines(f, e + 1, stop);
    }
    NoOccurrence(s, f, k, stop);
  }

  lemma NoOccurrence(s: seq<int>, f: seq<int>, k: nat, stop: nat)
    requires stop <= |f|
    requires k < stop ==>
               var e := LineEnd(f, k, stop);
               !Contains(s, f[k..e]) && Grep(s, f, e + 1, stop) == [] && Containing(s, Lines(f, k, stop)[1..]) == []
    ensures Grep(s, f, k, stop) == Containing(s, Lines(f, k, stop)) == []
  {
  }

  /** A text that is found in itself, but not by the code. */
  lemma Unfindable(s: seq<int>) returns (f: seq<int>)
    requires !Findable(s) && NL !in s
    ensures f == if s == [] then [NL] else s
    ensures Grep(s, f, 0, |f|) == [] && Containing(s, Lines(f, 0, |f|)) == [s]
  {
    f := if s == [] then [NL] else s;
    var n := |f|;
    LineEndIs(f, 0, n, |s|);
    assert f[0..|s|] == s && OccursAt(s, s, 0);
    assert Lines(f, 0, n) == [s] + Lines(f, |s| + 1, n) == [s];
    assert [s][1..] == [];
    assert Grep(s, f, 0, n) == Shown(s, s) + Grep(s, f, |s| + 1, n);
  }

  /** Matching is containing, in every file, exactly for patterns that start below 128, and for those that no line can
      contain anyway. */
  lemma MatchingIsContaining(s: seq<int>)
    ensures (forall f :: Grep(s, f, 0, |f|) == Containing(s, Lines(f, 0, |f|))) <==> Findable(s) || NL in s
  {
    hide Grep, Containing, Lines;
    if Findable(s) {
      forall f ensures Grep(s, f, 0, |f|) == Containing(s, Lines(f, 0, |f|)) {
        FindableIsContained(s, f, 0, |f|);
      }
    } else if NL in s {
      forall f ensures Grep(s, f, 0, |f|) == Containing(s, Lines(f, 0, |f|)) {
        NewlineInNone(s, f, 0, |f|);
      }
    } else {
      var f := Unfindable(s);
    }
  }

  // ----- Pieces: lines as a 1024-byte buffer sees them -----

  /** The same, but a line that does not fit the buffer is searched and printed in pieces of 1024 bytes. */
  ghost function GrepPieces(s: seq<int>, f: seq<int>, k: nat, stop: nat): seq<seq<int>>
    requires stop <= |f|
    decreases stop - k
  {
    if k >= stop then []
    else
      var e := LineEnd(f, k, stop);
      if e - k >= BUFSIZE then Shown(s, f[k..k + BUFSIZE]) + GrepPieces(s, f, k + BUFSIZE, stop)
      else Shown(s, f[k..e]) + GrepPieces(s, f, e + 1, stop)
  }

  /** If the byte behind the buffer happens to hold a newline, the first full buffer that ends inside a line cuts
      that line there. k is where a buffer starts. */
  ghost function GrepCut(s: seq<int>, f: seq<int>, k: nat): seq<seq<int>>
    decreases |f| - k
  {
    if k + BUFSIZE > |f| then GrepPieces(s, f, k, |f|)
    else GrepPieces(s, f, k, k + BUFSIZE) +
         if f[k + BUFSIZE - 1] == NL then GrepCut(s, f, k + BUFSIZE) else GrepPieces(s, f, k + BUFSIZE, |f|)
  }

  lemma LineEndIs(f: seq<int>, k: nat, stop: nat, e: nat)
    requires k <= e <= stop <= |f| && NoNewline(f, k, e) && (e < stop ==> f[e] == NL)
    ensures LineEnd(f, k, stop) == e
  {
    var n := LineEnd(f, k, stop);
    assert e < stop ==> f[e] == NL;
    assert n < stop ==> f[n] == NL;
  }

  /** One line, or one piece, at the front of the text. */
  lemma TakeLine(s: seq<int>, f: seq<int>, k: nat, stop: nat, e: nat)
    requires k <= e <= stop <= |f| && NoNewline(f, k, e) && (e < stop ==> f[e] == NL) && e - k < BUFSIZE && k < stop
    ensures GrepPieces(s, f, k, stop) == Shown(s, f[k..e]) + GrepPieces(s, f, e + 1, stop)
  {
    hide Shown;
    LineEndIs(f, k, stop, e);
  }

  lemma TakeChop(s: seq<int>, f: seq<int>, k: nat, stop: nat)
    requires k + BUFSIZE <= stop <= |f| && NoNewline(f, k, k + BUFSIZE)
    ensures GrepPieces(s, f, k, stop) == Shown(s, f[k..k + BUFSIZE]) + GrepPieces(s, f, k + BUFSIZE, stop)
  {
    hide Shown;
    var e := LineEnd(f, k, stop);
    assert e < stop ==> f[e] == NL;
  }

  // ----- When the pieces are as good as the lines -----

  ghost function Hits(s: seq<int>, lines: seq<seq<int>>): seq<seq<int>> {
    if lines == [] then [] else Shown(s, lines[0]) + Hits(s, lines[1..])
  }

  /** Grep is the filter of the lines. */
  lemma {:induction false} GrepFiltersLines(s: seq<int>, f: seq<int>, k: nat, stop: nat)
    requires stop <= |f|
    ensures Grep(s, f, k, stop) == Hits(s, Lines(f, k, stop))
    decreases stop - k
  {
    hide Shown;
    if k < stop {
      var e := LineEnd(f, k, stop);
      GrepFiltersLines(s, f, e + 1, stop);
      assert Lines(f, k, stop)[1..] == Lines(f, e + 1, stop);
    }
  }

  /** No byte in a..b-1 could start a pattern. */
  ghost predicate Quiet(f: seq<int>, a: int, b: int)
    requires 0 <= a && b <= |f|
  {
    forall i {:trigger f[i]} :: a <= i < b ==> f[i] >= 128
  }

  lemma QuietShowsNothing(s: seq<int>, f: seq<int>, a: nat, b: nat)
    requires a <= b <= |f| && Quiet(f, a, b)
    ensures Shown(s, f[a..b]) == []
  {
    forall i ensures !(s != [] && s[0] < 128 && OccursAt(s, f[a..b], i)) {
      if s != [] && 0 <= i && i + |s| <= b - a {
        assert f[a..b][i + 0] == f[a + i];
      }
    }
  }

  /** Every line has at most 1024 bytes, or no ASCII byte. */
  ghost predicate LinesFit(f: seq<int>, k: nat, stop: nat)
    requires stop <= |f|
    decreases stop - k
  {
    k >= stop ||
    var e := LineEnd(f, k, stop);
    (e - k <= 1024 || Quiet(f, k, e)) && LinesFit(f, e + 1, stop)
  }

  /** A line of exactly 1024 bytes leaves its newline behind as an empty piece, which matches nothing. */
  lemma ExactChop(s: seq<int>, f: seq<int>, k: nat, stop: nat)
    requires k < stop <= |f| && LineEnd(f, k, stop) == k + BUFSIZE
    ensures GrepPieces(s, f, k, stop) == Shown(s, f[k..k + BUFSIZE]) + GrepPieces(s, f, k + BUFSIZE + 1, stop)
  {
    hide Shown;
    var e := k + BUFSIZE;
    if e < stop {
      LineEndIs(f, e, stop, e);
      QuietShowsNothing(s, f, e, e);
      assert GrepPieces(s, f, e, stop) == GrepPieces(s, f, e + 1, stop);
    }
  }

  /** A long line without ASCII bytes shows nothing, whole or in pieces. */
  lemma QuietChop(s: seq<int>, f: seq<int>, k: nat, stop: nat)
    requires k < stop <= |f| && LineEnd(f, k, stop) > k + BUFSIZE && Quiet(f, k, LineEnd(f, k, stop))
    ensures GrepPieces(s, f, k, stop) == GrepPieces(s, f, k + BUFSIZE, stop)
    ensures Grep(s, f, k, stop) == Grep(s, f, k + BUFSIZE, stop)
    ensures LinesFit(f, k, stop) ==> LinesFit(f, k + BUFSIZE, stop)
  {
    hide Shown, Grep, GrepPieces;
    var e := LineEnd(f, k, stop);
    LineEndIs(f, k + BUFSIZE, stop, e);
    FirstLine(s, f, k, stop, e);
    FirstLine(s, f, k + BUFSIZE, stop, e);
    TakeChop(s, f, k, stop);
    QuietShowsNothing(s, f, k, e);
    QuietShowsNothing(s, f, k, k + BUFSIZE);
    QuietShowsNothing(s, f, k + BUFSIZE, e);
  }

  lemma ShortLine(s: seq<int>, f: seq<int>, k: nat, stop: nat, e: nat)
    requires k < stop <= |f| && LineEnd(f, k, stop) == e <= k + BUFSIZE
    ensures GrepPieces(s, f, k, stop) == Shown(s, f[k..e]) + GrepPieces(s, f, e + 1, stop)
  {
    hide Shown, GrepPieces;
    if e == k + BUFSIZE {
      ExactChop(s, f, k, stop);
    } else {
      TakeLine(s, f, k, stop, e);
    }
  }

  lemma NothingLeft(s: seq<int>, f: seq<int>, k: nat, stop: nat)
    requires stop <= k && stop <= |f|
    ensures Grep(s, f, k, stop) == GrepPieces(s, f, k, stop) == []
  {
  }

  lemma FirstLine(s: seq<int>, f: seq<int>, k: nat, stop: nat, e: nat)
    requires k < stop <= |f| && LineEnd(f, k, stop) == e
    ensures Grep(s, f, k, stop) == Shown(s, f[k..e]) + Grep(s, f, e + 1, stop)
  {
    hide Shown;
  }

  /** Searching pieces finds what searching lines finds, if every line fits. */
  lemma {:induction false} FittingLines(s: seq<int>, f: seq<int>, k: nat, stop: nat)
    requires stop <= |f| && LinesFit(f, k, stop)
    ensures GrepPieces(s, f, k, stop) == Grep(s, f, k, stop)
    decreases stop - k
  {
    hide Shown, Grep, GrepPieces, Quiet;
    if k >= stop {
      NothingLeft(s, f, k, stop);
    } else {
      var e := LineEnd(f, k, stop);
      if e - k > BUFSIZE {
        QuietChop(s, f, k, stop);
        FittingLines(s, f, k + BUFSIZE, stop);
      } else {
        ShortLine(s, f, k, stop, e);
        FirstLine(s, f, k, stop, e);
        FittingLines(s, f, e + 1, stop);
      }
    }
  }

  lemma ShownWhole(s: seq<int>, line: seq<int>)
    ensures forall l :: l in Shown(s, line) ==> l == line
  {
  }

  lemma {:induction false} PiecesAreShort(s: seq<int>, f: seq<int>, k: nat, stop: nat)
    requires stop <= |f|
    ensures forall line :: line in GrepPieces(s, f, k, stop) ==> |line| <= BUFSIZE
    decreases stop - k
  {
    hide Shown, LineEnd;
    if k < stop {
      var e := LineEnd(f, k, stop);
      if e - k >= BUFSIZE {
        ShownWhole(s, f[k..k + BUFSIZE]);
        PiecesAreShort(s, f, k + BUFSIZE, stop);
      } else {
        ShownWhole(s, f[k..e]);
        PiecesAreShort(s, f, e + 1, stop);
      }
    }
  }

  /** A long line with an ASCII byte is printed whole for the pattern that is just that byte. */
  lemma {:induction false} LongLineIsShown(f: seq<int>, k: nat, stop: nat) returns (s: seq<int>)
    requires stop <= |f| && !LinesFit(f, k, stop)
    ensures |s| == 1 && s[0] in f && s[0] < 128
    ensures exists line :: line in Grep(s, f, k, stop) && |line| > BUFSIZE
    decreases stop - k
  {
    var e := LineEnd(f, k, stop);
    if e - k > BUFSIZE && !Quiet(f, k, e) {
      var i :| k <= i < e && f[i] < 128;
      s := [f[i]];
      assert OccursAt(s, f[k..e], i - k);
      assert f[k..e] in Grep(s, f, k, stop);
    } else {
      s := LongLineIsShown(f, e + 1, stop);
    }
  }

  /** For every pattern the search by pieces prints exactly the matching lines, exactly when each line has
      at most 1024 bytes or no ASCII byte at all. */
  lemma PiecesExactlyLines(f: seq<int>)
    ensures (forall s :: GrepPieces(s, f, 0, |f|) == Grep(s, f, 0, |f|)) <==> LinesFit(f, 0, |f|)
  {
    if LinesFit(f, 0, |f|) {
      forall s ensures GrepPieces(s, f, 0, |f|) == Grep(s, f, 0, |f|) {
        FittingLines(s, f, 0, |f|);
      }
    } else {
      var s := LongLineIsShown(f, 0, |f|);
      PiecesAreShort(s, f, 0, |f|);
    }
  }

  // ----- When the forced cut does no harm -----

  /** The start of the line that the text k..b ends in. */
  function LineStart(f: seq<int>, k: nat, b: nat): (a: nat)
    requires k <= b <= |f|
    ensures k <= a <= b && NoNewline(f, a, b) && (a == k || f[a - 1] == NL)
    decreases b - k
  {
    var e := LineEnd(f, k, b);
    if e < b then LineStart(f, e + 1, b) else k
  }

  /** The first full buffer that does not end with a newline ends at the end of the file or of a line, or inside a
      line that holds no ASCII byte. k is where a buffer starts. */
  ghost predicate CutHarmless(f: seq<int>, k: nat)
    decreases |f| - k
  {
    var b := k + BUFSIZE;
    b > |f| ||
    if f[b - 1] == NL then CutHarmless(f, b)
    else LineEnd(f, b, |f|) == b || Quiet(f, LineStart(f, k, b), LineEnd(f, b, |f|))
  }

  /** Cutting a text at b changes nothing if b is at a line's start or end, or inside a quiet line. */
  lemma {:induction false} HarmlessSplit(s: seq<int>, f: seq<int>, k: nat, b: nat, stop: nat)
    requires k <= b <= stop <= |f|
    requires LineStart(f, k, b) == b || LineEnd(f, b, stop) == b || Quiet(f, LineStart(f, k, b), LineEnd(f, b, stop))
    ensures Grep(s, f, k, stop) == Grep(s, f, k, b) + Grep(s, f, b, stop)
    decreases b - k
  {
    hide Shown, Grep, LineStart, LineEnd;
    if k == b {
      NothingLeft(s, f, k, k);
    } else if LineEnd(f, k, b) < b {
      SplitStep(s, f, k, b, stop);
      HarmlessSplit(s, f, LineEnd(f, k, b) + 1, b, stop);
    } else {
      CutLine(s, f, k, b, stop);
      HarmlessLine(s, f, k, b, stop);
    }
  }

  /** A whole line in front of the cut. */
  lemma SplitStep(s: seq<int>, f: seq<int>, k: nat, b: nat, stop: nat)
    requires k < b <= stop <= |f| && LineEnd(f, k, b) < b
    ensures var e := LineEnd(f, k, b);
            && LineStart(f, k, b) == LineStart(f, e + 1, b)
            && Grep(s, f, k, stop) == Shown(s, f[k..e]) + Grep(s, f, e + 1, stop)
            && Grep(s, f, k, b) == Shown(s, f[k..e]) + Grep(s, f, e + 1, b)
  {
    hide Shown;
    LineEndIs(f, k, stop, LineEnd(f, k, b));
  }

  /** What a line shows that runs from k over b, whole and cut. */
  lemma CutLine(s: seq<int>, f: seq<int>, k: nat, b: nat, stop: nat)
    requires k < b <= stop <= |f| && LineEnd(f, k, b) == b
    ensures LineStart(f, k, b) == k
    ensures var end := LineEnd(f, b, stop);
            && Grep(s, f, k, stop) == Shown(s, f[k..end]) + Grep(s, f, end + 1, stop)
            && Grep(s, f, k, b) == Shown(s, f[k..b])
            && (b < stop ==> Grep(s, f, b, stop) == Shown(s, f[b..end]) + Grep(s, f, end + 1, stop))
            && (b == stop ==> Grep(s, f, b, stop) == [] && Grep(s, f, end + 1, stop) == [])
  {
    hide Shown;
    LineEndIs(f, k, stop, LineEnd(f, b, stop));
  }

  /** A line's end, or bytes that match nothing. */
  lemma HarmlessLine(s: seq<int>, f: seq<int>, k: nat, b: nat, stop: nat)
    requires k < b <= stop <= |f| && (LineEnd(f, b, stop) == b || Quiet(f, k, LineEnd(f, b, stop)))
    ensures var end := LineEnd(f, b, stop);
            Shown(s, f[k..end]) == Shown(s, f[k..b]) && Shown(s, f[b..end]) == []
  {
    hide Shown;
    var end := LineEnd(f, b, stop);
    if end == b {
      QuietShowsNothing(s, f, b, b);
    } else {
      QuietShowsNothing(s, f, k, end);
      QuietShowsNothing(s, f, k, b);
      QuietShowsNothing(s, f, b, end);
    }
  }

  lemma {:induction false} FitFrom(f: seq<int>, k: nat, b: nat, stop: nat)
    requires k <= b <= stop <= |f| && LinesFit(f, k, stop)
    ensures LinesFit(f, b, stop)
    decreases b - k
  {
    var e := LineEnd(f, k, stop);
    if e < b {
      FitFrom(f, e + 1, b, stop);
    } else if b < stop {
      LineEndIs(f, b, stop, e);
    }
  }

  /** A stretch of at most 1024 bytes holds no longer line. */
  lemma {:induction false} BufferFits(f: seq<int>, k: nat, stop: nat)
    requires stop <= |f| && stop <= k + BUFSIZE
    ensures LinesFit(f, k, stop)
    decreases stop - k
  {
    if k < stop {
      BufferFits(f, LineEnd(f, k, stop) + 1, stop);
    }
  }

  lemma {:induction false} HarmlessCut(s: seq<int>, f: seq<int>, k: nat)
    requires k <= |f| && LinesFit(f, k, |f|) && CutHarmless(f, k)
    ensures GrepCut(s, f, k) == Grep(s, f, k, |f|)
    decreases |f| - k
  {
    hide Shown, Grep, GrepPieces;
    var b := k + BUFSIZE;
    if b > |f| {
      FittingLines(s, f, k, |f|);
    } else {
      BufferFits(f, k, b);
      FittingLines(s, f, k, b);
      FitFrom(f, k, b, |f|);
      HarmlessSplit(s, f, k, b, |f|);
      if f[b - 1] == NL {
        HarmlessCut(s, f, b);
      } else {
        FittingLines(s, f, b, |f|);
      }
    }
  }

  /** A cut inside a line shows for each of the line's ASCII bytes: the whole line is not among the pieces. */
  lemma {:induction false} HarmfulSplit(s: seq<int>, f: seq<int>, k: nat, b: nat, stop: nat, i: nat)
    requires k <= b <= stop <= |f| && LineStart(f, k, b) < b < LineEnd(f, b, stop)
    requires LineStart(f, k, b) <= i < LineEnd(f, b, stop) && f[i] < 128 && s == [f[i]]
    ensures Grep(s, f, k, stop) != Grep(s, f, k, b) + Grep(s, f, b, stop)
    decreases b - k
  {
    hide Shown, Grep, LineStart, LineEnd;
    if LineEnd(f, k, b) < b {
      var e := LineEnd(f, k, b);
      SplitStep(s, f, k, b, stop);
      HarmfulSplit(s, f, e + 1, b, stop, i);
      SamePrefix(Shown(s, f[k..e]), Grep(s, f, e + 1, stop), Grep(s, f, e + 1, b) + Grep(s, f, b, stop));
    } else {
      CutLine(s, f, k, b, stop);
      CutShows(s, f, k, b, LineEnd(f, b, stop), i, Grep(s, f, LineEnd(f, b, stop) + 1, stop));
    }
  }

  lemma SamePrefix<T>(p: seq<T>, a: seq<T>, b: seq<T>)
    requires a != b
    ensures p + a != p + b
  {
    assert (p + a)[|p|..] == a && (p + b)[|p|..] == b;
  }

  lemma CutShows(s: seq<int>, f: seq<int>, k: nat, b: nat, end: nat, i: nat, rest: seq<seq<int>>)
    requires k < b < end <= |f| && k <= i < end && f[i] < 128 && s == [f[i]]
    ensures Shown(s, f[k..end]) + rest != Shown(s, f[k..b]) + (Shown(s, f[b..end]) + rest)
  {
    assert OccursAt(s, f[k..end], i - k);
    var whole, parts := Shown(s, f[k..end]) + rest, Shown(s, f[k..b]) + (Shown(s, f[b..end]) + rest);
    if |parts| == |whole| {
      assert |whole[0]| == end - k && |parts[0]| < end - k;
    }
  }

  /** A harmful cut is seen with a pattern of one byte. */
  lemma {:induction false} HarmfulCut(f: seq<int>, k: nat) returns (s: seq<int>)
    requires k <= |f| && LinesFit(f, k, |f|) && !CutHarmless(f, k)
    ensures |s| == 1 && s[0] in f && s[0] < 128 && GrepCut(s, f, k) != Grep(s, f, k, |f|)
    decreases |f| - k
  {
    hide Shown, Grep, GrepPieces;
    var b := k + BUFSIZE;
    BufferFits(f, k, b);
    FitFrom(f, k, b, |f|);
    if f[b - 1] == NL {
      s := HarmfulCut(f, b);
      FittingLines(s, f, k, b);
      HarmlessSplit(s, f, k, b, |f|);
      SamePrefix(Grep(s, f, k, b), GrepCut(s, f, b), Grep(s, f, b, |f|));
    } else {
      var i :| LineStart(f, k, b) <= i < LineEnd(f, b, |f|) && f[i] < 128;
      s := [f[i]];
      FittingLines(s, f, k, b);
      FittingLines(s, f, b, |f|);
      assert LineStart(f, k, b) < b;
      HarmfulSplit(s, f, k, b, |f|, i);
    }
  }

  lemma {:induction false} CutPiecesAreShort(s: seq<int>, f: seq<int>, k: nat)
    ensures forall line :: line in GrepCut(s, f, k) ==> |line| <= BUFSIZE
    decreases |f| - k
  {
    hide Shown, GrepPieces;
    var b := k + BUFSIZE;
    if b > |f| {
      PiecesAreShort(s, f, k, |f|);
    } else {
      PiecesAreShort(s, f, k, b);
      if f[b - 1] == NL {
        CutPiecesAreShort(s, f, b);
      } else {
        PiecesAreShort(s, f, b, |f|);
      }
    }
  }

  /** With a newline behind the buffer, every pattern finds exactly the matching lines exactly when the lines fit and
      the forced cut does no harm. */
  lemma CutExactlyLines(f: seq<int>)
    ensures (forall s :: GrepCut(s, f, 0) == Grep(s, f, 0, |f|)) <==> LinesFit(f, 0, |f|) && CutHarmless(f, 0)
  {
    hide LinesFit, CutHarmless, Grep, GrepCut;
    if LinesFit(f, 0, |f|) && CutHarmless(f, 0) {
      forall s ensures GrepCut(s, f, 0) == Grep(s, f, 0, |f|) {
        HarmlessCut(s, f, 0);
      }
    } else {
      var s := CutTelltale(f);
    }
  }

  /** A pattern of one byte of the file that a cut file is not searched well for. */
  lemma CutTelltale(f: seq<int>) returns (s: seq<int>)
    requires !LinesFit(f, 0, |f|) || !CutHarmless(f, 0)
    ensures |s| == 1 && s[0] in f && s[0] < 128 && GrepCut(s, f, 0) != Grep(s, f, 0, |f|)
  {
    hide LinesFit, CutHarmless, Grep, GrepCut;
    if LinesFit(f, 0, |f|) {
      s := HarmfulCut(f, 0);
    } else {
      s := LongLineIsShown(f, 0, |f|);
      CutPiecesAreShort(s, f, 0);
    }
  }

  /** An empty line and a line of 1024 letters: both fit, and yet the second is printed in two parts. */
  lemma CutFile(f: seq<int>, letter: int)
    requires 0 < letter < 128 && letter != NL
    requires |f| == BUFSIZE + 1 && f[0] == NL && forall i {:trigger f[i]} :: 1 <= i <= BUFSIZE ==> f[i] == letter
    ensures LinesFit(f, 0, |f|) && !CutHarmless(f, 0)
    ensures Grep([letter], f, 0, |f|) == [f[1..]] == GrepPieces([letter], f, 0, |f|)
    ensures GrepCut([letter], f, 0) == [f[1..BUFSIZE], f[BUFSIZE..]]
  {
    hide Grep, GrepPieces, GrepCut, LinesFit, CutHarmless, LineStart, LineEnd, Shown;
    CutFileLines(f, letter);
    CutFileShown(f, letter, 1, |f|);
    CutFileShown(f, letter, 1, BUFSIZE);
    CutFileShown(f, letter, BUFSIZE, |f|);
    FittingLines([letter], f, 0, |f|);
    assert f[1..|f|] == f[1..] && f[BUFSIZE..|f|] == f[BUFSIZE..];
    CutFilePieces(f, letter);
  }

  lemma CutFileShown(f: seq<int>, letter: int, a: nat, b: nat)
    requires 0 < letter < 128 && a < b <= |f| && f[a] == letter
    ensures Shown([letter], f[a..b]) == [f[a..b]]
  {
    assert OccursAt([letter], f[a..b], 0);
  }

  lemma CutFileLines(f: seq<int>, letter: int)
    requires 0 < letter < 128 && letter != NL
    requires |f| == BUFSIZE + 1 && f[0] == NL && forall i {:trigger f[i]} :: 1 <= i <= BUFSIZE ==> f[i] == letter
    ensures LinesFit(f, 0, |f|) && !CutHarmless(f, 0)
    ensures Grep([letter], f, 0, |f|) == Shown([letter], f[1..|f|])
  {
    hide Shown;
    var n := |f|;
    LineEndIs(f, 0, n, 0);
    LineEndIs(f, 1, n, n);
    LineEndIs(f, BUFSIZE, n, n);
    QuietShowsNothing([letter], f, 0, 0);
    BufferFits(f, 1, n);
    assert Grep([letter], f, 1, n) == Shown([letter], f[1..n]) + Grep([letter], f, n + 1, n);
    assert f[BUFSIZE] == letter;
  }

  lemma CutFilePieces(f: seq<int>, letter: int)
    requires 0 < letter < 128 && letter != NL
    requires |f| == BUFSIZE + 1 && f[0] == NL && forall i {:trigger f[i]} :: 1 <= i <= BUFSIZE ==> f[i] == letter
    ensures GrepCut([letter], f, 0) == Shown([letter], f[1..BUFSIZE]) + Shown([letter], f[BUFSIZE..|f|])
  {
    hide Shown, GrepPieces;
    var n, s := |f|, [letter];
    LineEndIs(f, 0, BUFSIZE, 0);
    TakeLine(s, f, 0, BUFSIZE, 0);
    TakeLine(s, f, 1, BUFSIZE, BUFSIZE);
    TakeLine(s, f, BUFSIZE, n, n);
    QuietShowsNothing(s, f, 0, 0);
    NothingLeft(s, f, BUFSIZE + 1, BUFSIZE);
    NothingLeft(s, f, n + 1, n);
  }
}
