/** A line editor as a cursor in a list of characters: the reference for student-distrib/terminal.c. It writes the sizes
    and characters out in numbers; the constants are for the code. */
module EditorSpec {
  import opened VideoFrames

  const BUF_SIZE := 128
  const LAST_CELL := ROWS * COLS - 1
  const NL := 10
  const CR := 13
  const BS := 8
  const BLANK := 32
  const START_POS := 10

  predicate IsText(c: int) {
    c != 0 && c != 10 && c != 13
  }

  /** Where the screen cursor goes when a character is printed; behind the last cell the screen scrolls by a row. */
  function NextCell(cell: int): int {
    if cell == 1999 then cell + 1 - 80 else cell + 1
  }

  /** The line, the cursor in it, and the screen cell of the line's first character. */
  datatype Doc = Doc(text: seq<int>, cursor: int, first: int)

  ghost predicate DocOk(d: Doc) {
    0 <= d.cursor <= |d.text| < 128 && forall i :: 0 <= i < |d.text| ==> IsText(d.text[i])
  }

  datatype Key = Char(c: int) | Backspace | Left | Right

  predicate IsKey(k: Key) {
    k.Char? ==> IsText(k.c) && k.c != 8
  }

  /** Characters go in at the cursor while there is room; one that is typed into the last cell of the screen scrolls
      the line up by a row. Backspace deletes at the end of the line, and the only character; elsewhere it blanks the
      character before the cursor and steps onto it, or blanks the first character. */
  function Typed(d: Doc, k: Key): Doc
    requires 0 <= d.cursor <= |d.text|
  {
    match k
    case Char(c) =>
      if |d.text| >= 127 then d
      else Doc(d.text[..d.cursor] + [c] + d.text[d.cursor..], d.cursor + 1,
               if d.first + d.cursor == LAST_CELL then d.first - COLS else d.first)
    case Backspace =>
      if d.text == [] then d
      else if d.cursor == |d.text| then d.(text := d.text[..d.cursor - 1], cursor := d.cursor - 1)
      else if d.cursor > 0 then d.(text := d.text[d.cursor - 1 := 32], cursor := d.cursor - 1)
      else d.(text := if |d.text| == 1 then [] else d.text[0 := 32])
    case Left => if d.cursor > 0 then d.(cursor := d.cursor - 1) else d
    case Right => if d.cursor < |d.text| then d.(cursor := d.cursor + 1) else d
  }

  // ----- The screen cursor -----

  /** Where the cursor is on the screen, and the first cell that the user may edit. Cells are numbered row by row; the
      row of the protected text can have been scrolled off the top. */
  datatype Position = Position(cell: int, start: int)

  /** move_left stops at the left edge of the top row, and of any row above it. */
  function LeftOf(cell: int): int {
    if cell % COLS != 0 || cell > 0 then cell - 1 else cell
  }

  function Printed(p: Position): Position {
    Position(NextCell(p.cell), if p.cell == LAST_CELL then p.start - COLS else p.start)
  }

  /** What a key does to the screen cursor, whether or not that is still the place of the document's cursor. */
  function Moved(p: Position, d: Doc, k: Key): Position
    requires 0 <= d.cursor <= |d.text|
  {
    match k
    case Char(_) => if |d.text| >= BUF_SIZE - 1 then p else Printed(p)
    case Backspace =>
      if p.cell <= p.start then p
      else if d.cursor > 0 then p.(cell := LeftOf(p.cell))
      else Printed(p).(cell := LeftOf(Printed(p).cell))
    case Left => if d.cursor > 0 && p.cell > p.start then p.(cell := LeftOf(p.cell)) else p
    case Right => if d.cursor < |d.text| && p.cell < LAST_CELL then p.(cell := p.cell + 1) else p
  }

  /** Where the code's buffer is that of the list editor: a backspace needs a non-empty line and must not come just
      before the last of several characters, and a step to the left must not be stopped by protected text. */
  predicate Sound(p: Position, d: Doc, k: Key) {
    && (k.Backspace? ==> d.text != [] && (d.cursor != |d.text| - 1 || |d.text| == 1))
    && (k.Left? ==> d.cursor == 0 || p.cell > p.start)
  }

  /** The screen cursor stands on the document's: every character of the line has its own cell. */
  predicate OnDoc(p: Position, d: Doc) {
    && p.cell == d.first + d.cursor <= LAST_CELL
    && p.start <= d.first && 0 <= d.first && (d.text != [] ==> d.first < LAST_CELL)
  }

  /** Where the screen shows the same as well: a backspace needs a non-empty line and must not come just before the last
      of several characters, and the cursor must not be moved to the right beyond the last cell of the screen. */
  predicate Clean(d: Doc, k: Key) {
    && (k.Backspace? ==> d.text != [] && (d.cursor != |d.text| - 1 || |d.text| == 1))
    && (k.Right? && d.cursor < |d.text| ==> d.first + d.cursor < LAST_CELL)
  }

  lemma TypedOk(d: Doc, k: Key)
    requires DocOk(d) && IsKey(k)
    ensures DocOk(Typed(d, k))
  {
  }

  ghost function TypedAll(d: Doc, keys: seq<Key>): (r: Doc)
    requires 0 <= d.cursor <= |d.text|
    ensures 0 <= r.cursor <= |r.text|
    decreases |keys|
  {
    if keys == [] then d else TypedAll(Typed(d, keys[0]), keys[1..])
  }

  /** Whether a backspace is right does not depend on the screen. */
  lemma SoundBackspace(p: Position, d: Doc)
    requires DocOk(d)
    ensures Sound(p, d, Backspace) <==> Clean(d, Backspace)
    ensures OnDoc(p, d) && Clean(d, Backspace) ==> OnDoc(Moved(p, d, Backspace), Typed(d, Backspace))
  {
  }

  lemma OnDocStep(p: Position, d: Doc, k: Key)
    requires DocOk(d) && IsKey(k) && OnDoc(p, d)
    ensures Clean(d, k) ==> Sound(p, d, k)
    ensures Sound(p, d, k) ==> (OnDoc(Moved(p, d, k), Typed(d, k)) <==> Clean(d, k))
  {
  }

  ghost function MovedAll(p: Position, d: Doc, keys: seq<Key>): Position
    requires 0 <= d.cursor <= |d.text|
    decreases |keys|
  {
    if keys == [] then p else MovedAll(Moved(p, d, keys[0]), Typed(d, keys[0]), keys[1..])
  }

  ghost predicate SoundAll(p: Position, d: Doc, keys: seq<Key>)
    requires 0 <= d.cursor <= |d.text|
    decreases |keys|
  {
    keys == [] || (Sound(p, d, keys[0]) && SoundAll(Moved(p, d, keys[0]), Typed(d, keys[0]), keys[1..]))
  }

  /** While the screen shows the document, keys that are clean up to the last one leave it so exactly if the last one is
      clean too. */
  lemma {:induction false} ShownRun(p: Position, d: Doc, keys: seq<Key>)
    requires DocOk(d) && OnDoc(p, d) && forall i :: 0 <= i < |keys| ==> IsKey(keys[i])
    requires keys != [] ==> CleanAll(d, keys[..|keys| - 1])
    ensures keys != [] ==> SoundAll(p, d, keys[..|keys| - 1])
    ensures DocOk(TypedAll(d, keys)) && (CleanAll(d, keys) ==> SoundAll(p, d, keys))
    ensures SoundAll(p, d, keys) ==> (OnDoc(MovedAll(p, d, keys), TypedAll(d, keys)) <==> CleanAll(d, keys))
    decreases |keys|
  {
    hide Sound, Clean, OnDoc, Typed, Moved;
    if keys != [] {
      var k, rest, front := keys[0], keys[1..], keys[..|keys| - 1];
      TypedOk(d, k);
      OnDocStep(p, d, k);
      if rest != [] {
        assert front[0] == k && front[1..] == rest[..|rest| - 1];
        ShownRun(Moved(p, d, k), Typed(d, k), rest);
      }
    }
  }

  ghost predicate CleanAll(d: Doc, keys: seq<Key>)
    requires 0 <= d.cursor <= |d.text|
    decreases |keys|
  {
    keys == [] || (IsKey(keys[0]) && Clean(d, keys[0]) && CleanAll(Typed(d, keys[0]), keys[1..]))
  }

  lemma {:induction false} ThenKeys(d: Doc, a: seq<Key>, b: seq<Key>)
    requires 0 <= d.cursor <= |d.text|
    ensures TypedAll(d, a + b) == TypedAll(TypedAll(d, a), b)
    ensures CleanAll(d, a + b) <==> CleanAll(d, a) && CleanAll(TypedAll(d, a), b)
    decreases |a|
  {
    if a == [] {
      assert a + b == b;
    } else {
      assert (a + b)[1..] == a[1..] + b;
      ThenKeys(Typed(d, a[0]), a[1..], b);
    }
  }

  lemma OneKey(d: Doc, k: Key)
    requires 0 <= d.cursor <= |d.text|
    ensures TypedAll(d, [k]) == Typed(d, k)
    ensures CleanAll(d, [k]) <==> IsKey(k) && Clean(d, k)
  {
  }

  lemma NoKeys(p: Position, d: Doc, keys: seq<Key>)
    requires 0 <= d.cursor <= |d.text| && keys == []
    ensures TypedAll(d, keys) == d && MovedAll(p, d, keys) == p && SoundAll(p, d, keys)
  {
  }

  /** One key of a run, and the run without it; m keys of it are meant to be sound. */
  lemma KeyStep(p: Position, d: Doc, keys: seq<Key>, i: nat)
    requires 0 <= d.cursor <= |d.text| && i < |keys|
    ensures var k, d', p', n := keys[i], Typed(d, keys[i]), Moved(p, d, keys[i]), |keys|;
            && 0 <= d'.cursor <= |d'.text|
            && TypedAll(d, keys[i..]) == TypedAll(d', keys[i + 1..])
            && MovedAll(p, d, keys[i..]) == MovedAll(p', d', keys[i + 1..])
            && (SoundAll(p, d, keys[i..]) <==> Sound(p, d, k) && SoundAll(p', d', keys[i + 1..]))
            && (i + 1 == n ==> SoundAll(p', d', keys[i + 1..]))
            && (i + 1 < n ==>
                  (SoundAll(p, d, keys[i..n - 1]) <==> Sound(p, d, k) && SoundAll(p', d', keys[i + 1..n - 1])))
  {
    hide Sound, Moved;
    assert keys[i..][0] == keys[i] && keys[i..][1..] == keys[i + 1..];
    if i + 1 < |keys| {
      assert keys[i..|keys| - 1][0] == keys[i] && keys[i..|keys| - 1][1..] == keys[i + 1..|keys| - 1];
    }
  }

  /** All but the last of sound keys are sound. */
  lemma {:induction false} SoundKeys(p: Position, d: Doc, keys: seq<Key>)
    requires 0 <= d.cursor <= |d.text| && SoundAll(p, d, keys)
    ensures keys != [] ==> SoundAll(p, d, keys[..|keys| - 1])
    decreases |keys|
  {
    hide Sound, Moved;
    if |keys| > 1 {
      var rest, front := keys[1..], keys[..|keys| - 1];
      assert front[0] == keys[0] && front[1..] == rest[..|rest| - 1];
      SoundKeys(Moved(p, d, keys[0]), Typed(d, keys[0]), rest);
    }
  }

  // ----- What editing in a list is to mean -----

  function Chars(cs: seq<int>): (keys: seq<Key>)
    ensures |keys| == |cs| && forall i :: 0 <= i < |cs| ==> keys[i] == Char(cs[i])
  {
    seq(|cs|, i requires 0 <= i < |cs| => Char(cs[i]))
  }

  /** Characters typed at the end of a line are added to it, as far as there is room. */
  lemma {:induction false} TypedText(p: Position, d: Doc, cs: seq<int>)
    requires d.cursor == |d.text| && |d.text| + |cs| <= 127
    ensures TypedAll(d, Chars(cs)).text == d.text + cs && TypedAll(d, Chars(cs)).cursor == |d.text| + |cs|
    ensures SoundAll(p, d, Chars(cs))
    decreases |cs|
  {
    if cs == [] {
      assert d.text + cs == d.text;
    } else {
      var d' := Typed(d, Char(cs[0]));
      assert d'.text == d.text + [cs[0]] && d.text + cs == d'.text + cs[1..];
      assert Chars(cs)[0] == Char(cs[0]) && Chars(cs)[1..] == Chars(cs[1..]);
      TypedText(Moved(p, d, Char(cs[0])), d', cs[1..]);
    }
  }

  /** Backspaces at the end of a line take its last characters off. */
  lemma {:induction false} ErasedText(p: Position, d: Doc, n: nat)
    requires d.cursor == |d.text| && n <= |d.text|
    ensures TypedAll(d, Times(Backspace, n)).text == d.text[..|d.text| - n]
    ensures SoundAll(p, d, Times(Backspace, n))
    decreases n
  {
    if n > 0 {
      assert Times(Backspace, n)[0] == Backspace && Times(Backspace, n)[1..] == Times(Backspace, n - 1);
      ErasedText(Moved(p, d, Backspace), Typed(d, Backspace), n - 1);
    }
  }

  /** An insertion leaves the text on both sides of the cursor as it was; a backspace behind it there leaves a blank, as
      it does before any character but the last. Left and right undo each other. */
  lemma OneKeyMeans(d: Doc, c: int)
    requires DocOk(d) && |d.text| < 127
    ensures var d' := Typed(d, Char(c));
            && |d'.text| == |d.text| + 1 && d'.cursor == d.cursor + 1 && d'.text[d.cursor] == c
            && d'.text[..d.cursor] == d.text[..d.cursor] && d'.text[d.cursor + 1..] == d.text[d.cursor..]
            && (d.cursor == |d.text| ==> Typed(d', Backspace).text == d.text)
            && (d.cursor < |d.text| ==> Typed(d', Backspace).text == d.text[..d.cursor] + [32] + d.text[d.cursor..])
            && Typed(d', Backspace).cursor == d.cursor
    ensures d.cursor > 0 ==> Typed(d, Left).cursor == d.cursor - 1 && Typed(Typed(d, Left), Right) == d
    ensures d.cursor < |d.text| ==> Typed(d, Right).cursor == d.cursor + 1 && Typed(Typed(d, Right), Left) == d
  {
  }

  lemma {:induction false} ThenSound(p: Position, d: Doc, a: seq<Key>, b: seq<Key>)
    requires 0 <= d.cursor <= |d.text|
    ensures SoundAll(p, d, a + b) <==> SoundAll(p, d, a) && SoundAll(MovedAll(p, d, a), TypedAll(d, a), b)
    decreases |a|
  {
    hide Sound, Moved;
    if a == [] {
      assert a + b == b;
    } else {
      assert (a + b)[0] == a[0] && (a + b)[1..] == a[1..] + b;
      ThenSound(Moved(p, d, a[0]), Typed(d, a[0]), a[1..], b);
    }
  }

  lemma TypedErased(p: Position, cs: seq<int>, erased: nat, first: int)
    requires erased <= |cs| <= 127
    ensures var keys := Chars(cs) + Times(Backspace, erased);
            TypedAll(Doc([], 0, first), keys).text == cs[..|cs| - erased] && SoundAll(p, Doc([], 0, first), keys)
  {
    hide SoundAll, MovedAll, TypedAll, Times, Chars;
    var d := Doc([], 0, first);
    TypedText(p, d, cs);
    ErasedText(MovedAll(p, d, Chars(cs)), TypedAll(d, Chars(cs)), erased);
    ThenKeys(d, Chars(cs), Times(Backspace, erased));
    ThenSound(p, d, Chars(cs), Times(Backspace, erased));
    assert [] + cs == cs;
  }

  /** The same key n times. */
  function Times(k: Key, n: nat): (keys: seq<Key>)
    ensures |keys| == n && forall i :: 0 <= i < n ==> keys[i] == k
  {
    seq(n, _ => k)
  }

  /** n characters at the end of a line, up to the last cell of the screen. */
  lemma {:induction false} FillRow(d: Doc, c: int, n: nat)
    requires 0 <= d.cursor == |d.text| && |d.text| + n < BUF_SIZE && d.first + d.cursor + n <= LAST_CELL
             && IsKey(Char(c))
    ensures TypedAll(d, Times(Char(c), n)) == Doc(d.text + seq(n, _ => c), d.cursor + n, d.first)
    ensures CleanAll(d, Times(Char(c), n))
    decreases n
  {
    if n > 0 {
      var d' := Typed(d, Char(c));
      FillRow(d', c, n - 1);
      assert Times(Char(c), n)[1..] == Times(Char(c), n - 1);
      assert d.text + seq(n, _ => c) == d'.text + seq(n - 1, _ => c);
    } else {
      assert d.text + seq(n, _ => c) == d.text;
    }
  }

  lemma {:induction false} LeftTimes(d: Doc, n: nat)
    requires 0 <= d.cursor <= |d.text|
    ensures TypedAll(d, Times(Left, n)) == d.(cursor := if n < d.cursor then d.cursor - n else 0)
    decreases n
  {
    if n > 0 {
      LeftTimes(Typed(d, Left), n - 1);
      assert Times(Left, n)[1..] == Times(Left, n - 1);
    }
  }

  /** A character put before the last of n like it. */
  lemma OneMore(c: int, n: nat, first: int)
    requires 0 < n < BUF_SIZE - 1 && first + n == LAST_CELL
    ensures var d := Doc(seq(n, _ => c), n, first);
            && Typed(d, Left) == d.(cursor := n - 1)
            && Typed(d.(cursor := n - 1), Char(c)) == Doc(seq(n + 1, _ => c), n, first)
            && Typed(Doc(seq(n + 1, _ => c), n, first), Right) == Doc(seq(n + 1, _ => c), n + 1, first)
  {
    var d := Doc(seq(n, _ => c), n, first);
    assert d.text[..n - 1] + [c] + d.text[n - 1..] == seq(n + 1, _ => c);
  }

  /** n characters, a step back, an insertion, a step forward, and back to the beginning. */
  lemma InsertionInList(c: int, n: nat, first: int)
    requires 0 < n < BUF_SIZE - 1 && first + n == LAST_CELL && IsKey(Char(c))
    ensures TypedAll(Doc([], 0, first), Times(Char(c), n) + [Left, Char(c), Right] + Times(Left, n + 1))
         == Doc(seq(n + 1, _ => c), 0, first)
  {
    hide TypedAll, CleanAll, Clean, Times;
    var empty, d := Doc([], 0, first), Doc(seq(n, _ => c), n, first);
    FillRow(empty, c, n);
    assert [] + d.text == d.text;
    OneMore(c, n, first);
    var keys := Times(Char(c), n) + [Left, Char(c), Right];
    assert keys == (Times(Char(c), n) + [Left] + [Char(c)]) + [Right];
    ThenKey(empty, Times(Char(c), n), Left);
    ThenKey(empty, Times(Char(c), n) + [Left], Char(c));
    ThenKey(empty, Times(Char(c), n) + [Left] + [Char(c)], Right);
    ThenKeys(empty, keys, Times(Left, n + 1));
    LeftTimes(Doc(seq(n + 1, _ => c), n + 1, first), n + 1);
  }

  lemma ThenKey(d: Doc, keys: seq<Key>, k: Key)
    requires 0 <= d.cursor <= |d.text|
    ensures TypedAll(d, keys + [k]) == Typed(TypedAll(d, keys), k)
  {
    ThenKeys(d, keys, [k]);
    OneKey(TypedAll(d, keys), k);
  }

  /** What an insertion does to the array that holds the line. */
  lemma InsertedRow(d: Doc, c: int, row: seq<int>, row': seq<int>)
    requires DocOk(d) && |row| == |row'| == BUF_SIZE && row[..|d.text|] == d.text && |d.text| < BUF_SIZE - 1
    requires forall i :: 0 <= i < d.cursor ==> row'[i] == row[i]
    requires row'[d.cursor] == c && forall i :: d.cursor < i <= |d.text| ==> row'[i] == row[i - 1]
    ensures row'[..|d.text| + 1] == Typed(d, Char(c)).text
  {
    var text' := Typed(d, Char(c)).text;
    forall i | 0 <= i <= |d.text| ensures row'[i] == text'[i] {
      assert i < d.cursor ==> row[i] == row[..|d.text|][i];
      assert i > d.cursor ==> row[i - 1] == row[..|d.text|][i - 1];
    }
  }

  /** What a backspace does to the array that holds the line. */
  lemma BackspaceRow(d: Doc, row: seq<int>)
    requires DocOk(d) && |row| == BUF_SIZE && row[..|d.text|] == d.text
    ensures var last, at, d' := d.cursor >= |d.text| - 1, if d.cursor > 0 then d.cursor - 1 else 0, Typed(d, Backspace);
            var row', size := row[at := if last then 0 else BLANK], if last then |d.text| - 1 else |d.text|;
            && DocOk(d') && d'.first == d.first && (d.text != [] ==> d'.cursor == at)
            && (Clean(d, Backspace) ==> d.text != [])
            && (size == |d'.text| <==> Clean(d, Backspace))
            && (Clean(d, Backspace) ==> row'[..size] == d'.text)
            && (d.text != [] && !Clean(d, Backspace) ==> row'[..size] == d.text[..at] + [0])
  {
    TypedOk(d, Backspace);
    assert d.text == [] ==> !Clean(d, Backspace);
  }

  // ----- What term_read takes from the buffer -----

  /** The characters up to the first newline or NUL. */
  function LineOf(s: seq<int>): (r: seq<int>)
    ensures |r| <= |s| && r == s[..|r|] && (|r| < |s| ==> s[|r|] == 0 || s[|r|] == 10)
    ensures forall i :: 0 <= i < |r| ==> r[i] != 0 && r[i] != 10
  {
    if s == [] || s[0] == 0 || s[0] == 10 then [] else [s[0]] + LineOf(s[1..])
  }

  lemma {:induction false} LineBegins(s: seq<int>, text: seq<int>)
    requires |text| <= |s| && s[..|text|] == text && forall i :: 0 <= i < |text| ==> IsText(text[i])
    ensures |text| <= |LineOf(s)| && LineOf(s)[..|text|] == text
  {
    var r := LineOf(s);
    assert forall i :: 0 <= i < |text| ==> s[i] == text[i];
  }

  lemma LineIs(s: seq<int>, text: seq<int>)
    requires |text| < |s| && s[..|text|] == text && (s[|text|] == 0 || s[|text|] == 10)
    requires forall i :: 0 <= i < |text| ==> IsText(text[i])
    ensures LineOf(s) == text
  {
    var r := LineOf(s);
    assert forall i :: 0 <= i < |text| ==> s[i] == text[i];
    assert forall i :: 0 <= i < |r| ==> s[i] == r[i];
  }

  // ----- What up_hist writes to the screen -----

  /** How many cells the recall of a row blanks. */
  function Span(text: seq<int>): int {
    if |text| < 69 then 69 else |text|
  }

  /** A history row: the text, and NULs behind it. */
  ghost predicate HoldsText(row: seq<int>, text: seq<int>) {
    && |row| == BUF_SIZE && |text| < BUF_SIZE
    && (forall i {:trigger row[i]} :: |text| <= i < BUF_SIZE ==> row[i] == 0)
    && forall i {:trigger row[i]} {:trigger text[i]} :: 0 <= i < |text| ==> row[i] == text[i] && IsText(text[i])
  }
}
