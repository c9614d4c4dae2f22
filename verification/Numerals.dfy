/** Number printing in lib.c: itoa with its in-place strrev, and the %#x and %d conversions of printf. */
module Numerals {

  /** The lookup string of itoa. */
  const LOOKUP: string := "0123456789ABCDEFGHIJKLMNOPQRSTUVWXYZ"

  /** The character of a digit in ASCII. */
  function Digit(d: int): int {
    if d < 10 then 48 + d else 55 + d
  }

  function DigitValue(c: int): int {
    if c < 65 then c - 48 else c - 55
  }

  /** c is the character of a digit below the radix. */
  predicate IsDigit(c: int, radix: int) {
    0 <= DigitValue(c) < radix && c == Digit(DigitValue(c))
  }

  lemma LookupDigit(d: nat)
    requires d < 36
    ensures |LOOKUP| == 36 && LOOKUP[d] as int == Digit(d)
  {
  }

  // ----- Reference: what a numeral means -----

  function Value(s: seq<int>, radix: int): int {
    if s == [] then 0 else Value(s[..|s| - 1], radix) * radix + DigitValue(s[|s| - 1])
  }

  ghost predicate Numeral(s: seq<int>, radix: int) {
    && s != []
    && (forall i :: 0 <= i < |s| ==> IsDigit(s[i], radix))
    && (|s| > 1 ==> s[0] != Digit(0))
  }

  function Pow(b: int, e: nat): int {
    if e == 0 then 1 else b * Pow(b, e - 1)
  }

  lemma {:induction false} PowPositive(b: int, e: nat)
    requires b >= 1
    ensures Pow(b, e) >= 1
  {
    if e > 0 {
      PowPositive(b, e - 1);
      assert b * Pow(b, e - 1) >= 1 * Pow(b, e - 1);
    }
  }

  lemma MulMono(a: int, b: int, r: int)
    requires a <= b && 0 <= r
    ensures a * r <= b * r
  {
  }

  /** A numeral of n digits denotes at least radix^(n-1), unless it is a lone digit. */
  lemma {:induction false} NumeralSize(s: seq<int>, radix: int)
    requires Numeral(s, radix) && radix >= 2
    ensures Value(s, radix) >= 0
    ensures s[0] != Digit(0) ==> Value(s, radix) >= Pow(radix, |s| - 1)
  {
    var init := s[..|s| - 1];
    if |s| == 1 {
      assert init == [] && Value(init, radix) == 0;
    } else {
      assert init[0] == s[0];
      NumeralSize(init, radix);
      if s[0] != Digit(0) {
        MulMono(Pow(radix, |s| - 2), Value(init, radix), radix);
        assert Pow(radix, |s| - 1) == radix * Pow(radix, |s| - 2);
      }
      MulMono(0, Value(init, radix), radix);
    }
  }

  /** No two numerals denote the same value. */
  lemma {:induction false} NumeralUnique(s: seq<int>, t: seq<int>, radix: int)
    requires radix >= 2
    ensures Numeral(s, radix) && Numeral(t, radix) && Value(s, radix) == Value(t, radix) ==> s == t
    decreases |s| + |t|
  {
    if Numeral(s, radix) && Numeral(t, radix) && Value(s, radix) == Value(t, radix) {
      var a, b := s[..|s| - 1], t[..|t| - 1];
      var x, y := DigitValue(s[|s| - 1]), DigitValue(t[|t| - 1]);
      SameQuotient(Value(a, radix), x, Value(b, radix), y, radix);
      if |s| == 1 || |t| == 1 {
        if |s| > 1 {
          Positive(a, radix);
        } else if |t| > 1 {
          Positive(b, radix);
        }
      } else {
        assert a[0] == s[0] && b[0] == t[0];
        NumeralUnique(a, b, radix);
      }
      assert s == a + [s[|s| - 1]] && t == b + [t[|t| - 1]];
    }
  }

  lemma Positive(s: seq<int>, radix: int)
    requires s != [] && s[0] != Digit(0) && (forall i :: 0 <= i < |s| ==> IsDigit(s[i], radix)) && radix >= 2
    ensures Value(s, radix) >= 1
  {
    NumeralSize(s, radix);
    PowPositive(radix, |s| - 1);
  }

  lemma SameQuotient(a: int, x: int, b: int, y: int, r: int)
    requires r >= 2 && 0 <= x < r && 0 <= y < r && a * r + x == b * r + y
    ensures a == b && x == y
  {
    if a < b {
      MulMono(a + 1, b, r);
    } else if b < a {
      MulMono(b + 1, a, r);
    }
  }

  /** At most eight hexadecimal digits for a 32-bit value. */
  lemma HexLength(s: seq<int>)
    requires Numeral(s, 16) && Value(s, 16) < 0x1_0000_0000
    ensures |s| <= 8
  {
    NumeralSize(s, 16);
    assert Pow(16, 4) == 0x10000 && Pow(16, 8) == 0x1_0000_0000;
    if |s| > 8 {
      PowGrows(16, 8, |s| - 1);
    }
  }

  lemma {:induction false} PowGrows(b: int, d: nat, e: nat)
    requires b >= 1 && d <= e
    ensures Pow(b, d) <= Pow(b, e)
  {
    if d < e {
      PowGrows(b, d, e - 1);
      PowPositive(b, e - 1);
      MulMono(1, b, Pow(b, e - 1));
    }
  }

  // ----- Digits lowest first, as the loop produces them -----

  /** The value of low-first digits s below a remaining quotient `high`. */
  function LowFirst(s: seq<int>, radix: int, high: int): int {
    if s == [] then high else DigitValue(s[0]) + radix * LowFirst(s[1..], radix, high)
  }

  lemma {:induction false} LowFirstAppend(s: seq<int>, c: int, radix: int, high: int)
    ensures LowFirst(s + [c], radix, high) == LowFirst(s, radix, DigitValue(c) + radix * high)
  {
    if s == [] {
      assert (s + [c])[1..] == [];
    } else {
      LowFirstAppend(s[1..], c, radix, high);
      assert (s + [c])[1..] == s[1..] + [c];
    }
  }

  function Reversed(s: seq<int>): (r: seq<int>)
    ensures |r| == |s| && forall i :: 0 <= i < |s| ==> r[i] == s[|s| - 1 - i]
  {
    seq(|s|, i requires 0 <= i < |s| => s[|s| - 1 - i])
  }

  lemma {:induction false} ReversedValue(s: seq<int>, radix: int)
    ensures Value(Reversed(s), radix) == LowFirst(s, radix, 0)
  {
    if s != [] {
      ReversedValue(s[1..], radix);
      assert Reversed(s)[..|s| - 1] == Reversed(s[1..]);
    }
  }

  // ----- The routines, on a character buffer -----

  /** The C string at offset `at`. */
  ghost predicate HoldsString(buf: array<int>, at: int, s: seq<int>)
    reads buf
  {
    && 0 <= at && at + |s| < buf.Length && buf[at + |s|] == 0
    && forall i {:trigger s[i]} :: 0 <= i < |s| ==> buf[at + i] == s[i] != 0
  }

  method StrLen(buf: array<int>, at: nat, ghost s: seq<int>) returns (len: nat)
    requires HoldsString(buf, at, s)
    ensures len == |s|
  {
    len := 0;
    while buf[at + len] != 0
      invariant len <= |s| && (len < |s| ==> s[len] != 0)
      decreases |s| - len
    {
      assert len < |s|;
      len := len + 1;
    }
  }

  method StrRev(buf: array<int>, at: nat, ghost s: seq<int>)
    requires HoldsString(buf, at, s)
    modifies buf
    ensures HoldsString(buf, at, Reversed(s))
    ensures forall i :: 0 <= i < buf.Length && !(at <= i < at + |s|) ==> buf[i] == old(buf[i])
  {
    var len := StrLen(buf, at, s);
    var beg: int, end: int := 0, len - 1;
    while beg < end
      invariant 0 <= beg && end == len - 1 - beg && beg <= end + 1
      invariant forall i {:trigger s[i]} :: beg <= i <= end ==> buf[at + i] == s[i]
      invariant forall i {:trigger Reversed(s)[i]} :: 0 <= i < beg || end < i < len ==> buf[at + i] == Reversed(s)[i]
      invariant forall i :: 0 <= i < buf.Length && !(at <= i < at + len) ==> buf[i] == old(buf[i])
    {
      assert buf[at + end] == s[end] == Reversed(s)[beg] && buf[at + beg] == s[beg] == Reversed(s)[end];
      buf[at + end], buf[at + beg] := buf[at + beg], buf[at + end];
      beg, end := beg + 1, end - 1;
    }
    forall i | 0 <= i < len ensures buf[at + i] == Reversed(s)[i] != 0 {
      assert s[len - 1 - i] != 0;
      if beg <= i <= end {
        assert Reversed(s)[i] == s[i];
      }
    }
  }

  /** itoa: for every 32-bit value and radix 2..36, the numeral of the value, at offset `at`. */
  method Itoa(value: nat, buf: array<int>, at: nat, radix: nat) returns (ghost s: seq<int>)
    requires value < 0x1_0000_0000 && 2 <= radix <= 36 && at + 33 <= buf.Length
    modifies buf
    ensures HoldsString(buf, at, s) && Numeral(s, radix) && Value(s, radix) == value && |s| <= 32
    ensures forall i :: 0 <= i < buf.Length && !(at <= i < at + 33) ==> buf[i] == old(buf[i])
  {
    if value == 0 {
      buf[at] := 48;
      buf[at + 1] := 0;
      s := [48];
      assert s[..0] == [];
      return;
    }
    ghost var low := LowDigits(value, buf, at, radix);
    StrRev(buf, at, low);
    s := Reversed(low);
    ReversedValue(low, radix);
  }

  /** The digit loop of itoa, up to and including the terminating NUL. */
  method LowDigits(value: nat, buf: array<int>, at: nat, radix: nat) returns (ghost low: seq<int>)
    requires 0 < value < 0x1_0000_0000 && 2 <= radix <= 36 && at + 33 <= buf.Length
    modifies buf
    ensures HoldsString(buf, at, low) && low != [] && |low| <= 32
    ensures forall i :: 0 <= i < |low| ==> IsDigit(low[i], radix)
    ensures LowFirst(low, radix, 0) == value && low[|low| - 1] != Digit(0)
    ensures forall i :: 0 <= i < buf.Length && !(at <= i < at + 33) ==> buf[i] == old(buf[i])
  {
    low := [];
    var newval, k := value, 0;
    PowTwo32();
    while newval > 0
      invariant 0 <= k <= 32 && |low| == k && 0 <= newval < Pow(2, 32 - k)
      invariant forall i {:trigger low[i]} :: 0 <= i < k ==> buf[at + i] == low[i]
      invariant LowFirst(low, radix, newval) == value
      invariant forall i :: 0 <= i < k ==> IsDigit(low[i], radix)
      invariant newval == 0 ==> k > 0 && low[k - 1] != Digit(0)
      invariant forall i :: 0 <= i < buf.Length && !(at <= i < at + 33) ==> buf[i] == old(buf[i])
      decreases newval
    {
      var i, rest := SplitDigit(low, newval, radix, 32 - k);
      LookupDigit(i);
      buf[at + k] := LOOKUP[i] as int;
      low := low + [Digit(i)];
      newval := rest;
      k := k + 1;
    }
    buf[at + k] := 0;
  }

  lemma PowTwo32()
    ensures Pow(2, 32) == 0x1_0000_0000
  {
    assert Pow(2, 4) == 0x10;
    assert Pow(2, 8) == 0x100;
    assert Pow(2, 12) == 0x1000;
    assert Pow(2, 16) == 0x1_0000;
    assert Pow(2, 20) == 0x10_0000;
    assert Pow(2, 24) == 0x100_0000;
    assert Pow(2, 28) == 0x1000_0000;
  }

  /** One pass of the digit loop, in numbers only. */
  method SplitDigit(ghost low: seq<int>, newval: nat, radix: nat, ghost room: nat) returns (i: nat, rest: nat)
    requires 0 < newval < Pow(2, room) && 2 <= radix <= 36
    ensures room > 0 && rest < newval && rest < Pow(2, room - 1)
    ensures i < radix && IsDigit(Digit(i), radix) && (rest == 0 ==> i != 0)
    ensures LowFirst(low + [Digit(i)], radix, rest) == LowFirst(low, radix, newval)
  {
    i, rest := newval % radix, newval / radix;
    Halves(newval, radix);
    LowFirstAppend(low, Digit(i), radix, rest);
  }

  lemma Halves(v: nat, r: nat)
    requires v > 0 && r >= 2
    ensures v / r < v && 2 * (v / r) <= v
    ensures v % r + r * (v / r) == v
    ensures v / r == 0 ==> v % r == v
  {
    MulMono(2, r, v / r);
  }

  // ----- printf conversions -----

  /** %#x: always exactly eight hexadecimal digits, with the value printed. */
  method FormatHex8(value: nat, convBuf: array<int>) returns (start: nat, ghost s: seq<int>)
    requires value < 0x1_0000_0000 && convBuf.Length == 64
    modifies convBuf
    ensures HoldsString(convBuf, start, s)
    ensures |s| == 8 && (forall i :: 0 <= i < 8 ==> IsDigit(s[i], 16)) && Value(s, 16) == value
  {
    ghost var digits := Itoa(value, convBuf, 8, 16);
    HexLength(digits);
    start := StrLen(convBuf, 8, digits);
    var i := start;
    while i < 8
      invariant start <= i <= 8
      invariant forall j :: start <= j < i ==> convBuf[j] == 48
      invariant HoldsString(convBuf, 8, digits)
    {
      convBuf[i] := 48;
      i := i + 1;
    }
    ghost var zeros := seq(8 - start, _ => 48);
    s := zeros + digits;
    forall j | 0 <= j < 8 ensures convBuf[start + j] == s[j] && IsDigit(s[j], 16) {
      if j >= 8 - start {
        assert s[j] == digits[j - (8 - start)];
      }
    }
    LeadingZeros(8 - start, digits);
  }

  lemma {:induction false} LeadingZeros(n: nat, s: seq<int>)
    ensures Value(seq(n, _ => 48) + s, 16) == Value(s, 16)
  {
    var z := seq(n, _ => 48);
    if s != [] {
      LeadingZeros(n, s[..|s| - 1]);
      assert (z + s)[..|z + s| - 1] == z + s[..|s| - 1];
    } else if n > 0 {
      LeadingZeros(n - 1, []);
      assert (z + s)[..n - 1] == seq(n - 1, _ => 48) + [];
    }
  }

  /** %d: for every 32-bit signed value, the most negative included. */
  method FormatSigned(value: int, convBuf: array<int>) returns (ghost s: seq<int>)
    requires -0x8000_0000 <= value < 0x8000_0000 && convBuf.Length == 36
    modifies convBuf
    ensures value >= 0 ==> HoldsString(convBuf, 0, s) && Numeral(s, 10) && Value(s, 10) == value
    ensures value < 0 ==> HoldsString(convBuf, 0, [45] + s) && Numeral(s, 10) && Value(s, 10) == -value
  {
    if value < 0 {
      convBuf[0] := 45;
      // -value as a 32-bit pattern read unsigned: the most negative value maps to itself.
      s := Itoa(-value % 0x1_0000_0000, convBuf, 1, 10);
      forall i | 0 <= i < |s| + 1 ensures convBuf[i] == ([45] + s)[i] != 0 {
        assert i > 0 ==> ([45] + s)[i] == s[i - 1];
      }
    } else {
      s := Itoa(value, convBuf, 0, 10);
    }
  }
}
