/** Names and the directory in zbigfs.c, over strncmp and strncpy of lib.c. */
module Directory {
  import opened Memory

  const NAME_SIZE := 32
  /** read_dentry_by_name compares FNAME_MAX_LEN - 1 characters. */
  const KEY_SIZE := 31
  const FTYPE_REGULAR := 2

  datatype Dentry = Dentry(fname: seq<int>, ftype: int, inode: int)

  type Listing = d: seq<Dentry> | forall i :: 0 <= i < |d| ==> |d[i].fname| == NAME_SIZE witness []

  // ----- Reference: the C string in the first n bytes -----

  function CString(s: seq<int>, n: nat): (r: seq<int>)
    ensures |r| <= n && |r| <= |s|
  {
    if n == 0 || s == [] || s[0] == 0 then [] else [s[0]] + CString(s[1..], n - 1)
  }

  function Zeros(n: nat): (r: seq<int>)
    ensures |r| == n && forall i :: 0 <= i < n ==> r[i] == 0
  {
    seq(n, _ => 0)
  }

  /** The string, filled up with NULs to n bytes. */
  function Padded(s: seq<int>, n: nat): (r: seq<int>)
    ensures |r| == n
    ensures forall i :: |CString(s, n)| <= i < n ==> r[i] == 0
  {
    CString(s, n) + Zeros(n - |CString(s, n)|)
  }

  /** The routines may look at n bytes of s. */
  predicate Readable(s: seq<int>, n: nat) {
    |s| >= n || 0 in s
  }

  lemma {:induction false} CStringSplit(s: seq<int>, n: nat, i: nat)
    requires i <= n && i <= |s| && forall j :: 0 <= j < i ==> s[j] != 0
    ensures CString(s, n) == s[..i] + CString(s[i..], n - i)
  {
    if i > 0 {
      CStringSplit(s[1..], n - 1, i - 1);
      assert s[1..][i - 1..] == s[i..] && s[..i] == [s[0]] + s[1..][..i - 1];
    } else {
      assert s[0..] == s;
    }
  }

  /** Padding keeps the string, seen through any window that fits. */
  lemma {:induction false} PaddedKeeps(s: seq<int>, n: nat, k: nat)
    requires k <= n
    ensures CString(Padded(s, n), k) == CString(s, k)
  {
    var p := Padded(s, n);
    if k > 0 && s != [] && s[0] != 0 {
      PaddedKeeps(s[1..], n - 1, k - 1);
      assert p == [s[0]] + Padded(s[1..], n - 1);
    }
  }

  /** A string that ends in its array is kept for windows of any size. */
  lemma {:induction false} EndedKeeps(s: seq<int>, n: nat, k: nat)
    requires |s| <= n && 0 in s
    ensures CString(Padded(s, n), k) == CString(s, k) && 0 in Padded(s, n)
  {
    var p := Padded(s, n);
    if s[0] == 0 {
      assert p[0] == 0;
    } else {
      EndedKeeps(s[1..], n - 1, if k > 0 then k - 1 else 0);
      assert p == [s[0]] + Padded(s[1..], n - 1);
    }
  }

  // ----- strncmp, strncpy -----

  /** r is the difference of the first two characters that differ, where a string's end counts as a NUL. */
  ghost predicate Differ(s: seq<int>, t: seq<int>, r: int) {
    exists i :: 0 <= i <= |s| && i <= |t| && s[..i] == t[..i] && r == CharAt(s, i) - CharAt(t, i)
  }

  function CharAt(s: seq<int>, i: nat): int {
    if i < |s| then s[i] else 0
  }

  method StrNCmp(a: seq<int>, b: seq<int>, n: nat) returns (r: int)
    requires Readable(a, n) && Readable(b, n)
    ensures r == 0 <==> CString(a, n) == CString(b, n)
    ensures r != 0 ==> Differ(CString(a, n), CString(b, n), r)
  {
    var i := 0;
    while i < n
      invariant 0 <= i <= n && i <= |a| && i <= |b|
      invariant forall j :: 0 <= j < i ==> a[j] == b[j] && a[j] != 0
    {
      if a[i] != b[i] || a[i] == 0 {
        CStringSplit(a, n, i);
        CStringSplit(b, n, i);
        assert a[..i] == b[..i];
        assert CString(a, n) == CString(b, n) <==> CString(a[i..], n - i) == CString(b[i..], n - i) by {
          assert |CString(a, n)| == i + |CString(a[i..], n - i)| && CString(a, n)[i..] == CString(a[i..], n - i);
          assert |CString(b, n)| == i + |CString(b[i..], n - i)| && CString(b, n)[i..] == CString(b[i..], n - i);
        }
        DifferAtHead(a[i..], b[i..], n - i);
        DifferBehind(a[..i], CString(a[i..], n - i), CString(b[i..], n - i));
        return a[i] - b[i];
      }
      i := i + 1;
    }
    CStringSplit(a, n, n);
    CStringSplit(b, n, n);
    assert a[..n] == b[..n];
    return 0;
  }

  lemma DifferBehind(p: seq<int>, s: seq<int>, t: seq<int>)
    ensures Differ(p + s, p + t, CharAt(s, 0) - CharAt(t, 0))
  {
    assert (p + s)[..|p|] == p == (p + t)[..|p|];
  }

  lemma DifferAtHead(a: seq<int>, b: seq<int>, n: nat)
    requires n > 0 && a != [] && b != [] && (a[0] != b[0] || a[0] == 0)
    ensures CString(a, n) == CString(b, n) <==> a[0] == b[0]
    ensures CharAt(CString(a, n), 0) == a[0] && CharAt(CString(b, n), 0) == b[0]
  {
    assert a[0] != 0 ==> CString(a, n)[0] == a[0];
    assert b[0] != 0 ==> CString(b, n)[0] == b[0];
  }

  method StrNCpy(dest: array<int>, at: nat, src: seq<int>, n: nat)
    requires Readable(src, n) && at + n <= dest.Length
    modifies dest
    ensures Overlaid(old(dest[..]), dest[..], at, Padded(src, n))
  {
    var i := 0;
    while i < n && src[i] != 0
      invariant 0 <= i <= n && i <= |src|
      invariant forall j :: 0 <= j < i ==> src[j] != 0
      invariant forall j {:trigger dest[j]} :: 0 <= j < dest.Length ==>
                  dest[j] == if at <= j < at + i then src[j - at] else old(dest[j])
      decreases n - i
    {
      dest[at + i] := src[i];
      i := i + 1;
    }
    CStringSplit(src, n, i);
    assert CString(src, n) == src[..i];
    while i < n
      invariant |CString(src, n)| <= i <= n
      invariant forall j {:trigger dest[j]} :: 0 <= j < dest.Length ==>
                  dest[j] == if at <= j < at + i
                             then (if j - at < |CString(src, n)| then src[j - at] else 0)
                             else old(dest[j])
    {
      dest[at + i] := 0;
      i := i + 1;
    }
  }

  // ----- Entries by index and by name -----

  /** What read_dentry_by_index fills in: the inode number only for regular files. */
  function Fetched(d: Dentry, stale: Dentry): Dentry {
    Dentry(Padded(d.fname, NAME_SIZE), d.ftype, if d.ftype == FTYPE_REGULAR then d.inode else stale.inode)
  }

  /** d tells of the entry what kopen needs: its type, the inode number of a regular file, and its name. The inode
      number of any other entry is what d held before. */
  ghost predicate Names(entry: Dentry, d: Dentry, stale: Dentry) {
    && d.ftype == entry.ftype
    && (entry.ftype == 2 ==> d.inode == entry.inode) && (entry.ftype != 2 ==> d.inode == stale.inode)
    && |d.fname| == 32 && CString(d.fname, 32) == CString(entry.fname, 32)
  }

  method ReadDentryByIndex(dir: Listing, i: nat, stale: Dentry) returns (err: int, d: Dentry)
    ensures err == 0 <==> i < |dir|
    ensures err == -1 <==> i >= |dir|
    ensures d == if i < |dir| then Fetched(dir[i], stale) else stale
    ensures err == 0 ==> Names(dir[i], d, stale)
  {
    if i >= |dir| {
      return -1, stale;
    }
    var fname := new int[NAME_SIZE];
    StrNCpy(fname, 0, dir[i].fname, NAME_SIZE);
    assert fname[..] == Padded(dir[i].fname, NAME_SIZE);
    PaddedKeeps(dir[i].fname, NAME_SIZE, NAME_SIZE);
    d := stale.(fname := fname[..], ftype := dir[i].ftype);
    if d.ftype == FTYPE_REGULAR {
      d := d.(inode := dir[i].inode);
    }
    err := 0;
  }

  predicate SameKey(a: seq<int>, b: seq<int>) {
    CString(a, 31) == CString(b, 31)
  }

  /** index is the first entry whose name agrees with `name` in its first 31 characters. */
  ghost predicate FirstMatch(dir: Listing, name: seq<int>, index: int) {
    && 0 <= index < |dir| && SameKey(name, dir[index].fname)
    && forall j :: 0 <= j < index ==> !SameKey(name, dir[j].fname)
  }

  method ReadDentryByName(dir: Listing, name: seq<int>, stale: Dentry) returns (err: int, d: Dentry, index: int)
    requires Readable(name, KEY_SIZE)
    ensures err == 0 || err == -1
    ensures err == 0 ==> FirstMatch(dir, name, index) && d == Fetched(dir[index], stale) && Names(dir[index], d, stale)
    ensures err == -1 ==> d == stale && forall j :: 0 <= j < |dir| ==> !SameKey(name, dir[j].fname)
  {
    index := 0;
    while index < |dir|
      invariant 0 <= index <= |dir|
      invariant forall j :: 0 <= j < index ==> !SameKey(name, dir[j].fname)
    {
      var r := StrNCmp(name, dir[index].fname, KEY_SIZE);
      if r == 0 {
        err, d := ReadDentryByIndex(dir, index, stale);
        return;
      }
      index := index + 1;
    }
    return -1, stale, -1;
  }

  // ----- directory_read -----

  class OpenDirectory {
    var pos: nat

    constructor ()
      ensures pos == 0
    {
      pos := 0;
    }

    /** directory_read. A name that fills its 32 bytes has no NUL for a longer read to stop at. */
    method DirectoryRead(dir: Listing, buf: array<int>, nbytes: nat) returns (count: int)
      requires nbytes <= buf.Length && (nbytes <= NAME_SIZE || (pos < |dir| ==> 0 in dir[pos].fname))
      modifies this, buf
      ensures old(pos) < |dir| ==>
                && count == nbytes && pos == old(pos) + 1
                && Overlaid(old(buf[..]), buf[..], 0, Padded(dir[old(pos)].fname, nbytes))
      ensures old(pos) >= |dir| ==> count == 0 && pos == old(pos) && buf[..] == old(buf[..])
    {
      var err, d := ReadDentryByIndex(dir, pos, Dentry([], 0, 0));
      if err != 0 {
        return 0;
      }
      if nbytes <= NAME_SIZE {
        PaddedKeeps(dir[pos].fname, NAME_SIZE, nbytes);
      } else {
        EndedKeeps(dir[pos].fname, NAME_SIZE, nbytes);
      }
      StrNCpy(buf, 0, d.fname, nbytes);
      pos := pos + 1;
      count := nbytes;
    }
  }

  /** The ls loop: 32-byte reads until one returns 0 list every name once, in order. */
  method ListNames(dir: Listing) returns (names: seq<seq<int>>)
    ensures |names| == |dir| && forall i :: 0 <= i < |dir| ==> names[i] == Padded(dir[i].fname, 32)
  {
    var f := new OpenDirectory();
    var buf := new int[NAME_SIZE];
    names := [];
    while true
      invariant f.pos == |names| <= |dir| && fresh(f) && fresh(buf)
      invariant forall i :: 0 <= i < |names| ==> names[i] == Padded(dir[i].fname, NAME_SIZE)
      decreases |dir| - f.pos
    {
      var count := f.DirectoryRead(dir, buf, NAME_SIZE);
      if count == 0 {
        break;
      }
      assert buf[..] == Padded(dir[f.pos - 1].fname, NAME_SIZE);
      names := names + [buf[..]];
    }
  }

  /** Looking up a listed name finds an entry, and it is the listed one exactly when no earlier entry shares
      its first 31 characters. */
  lemma ListedLookUp(dir: Listing, i: nat)
    requires i < |dir|
    ensures var name := Padded(dir[i].fname, NAME_SIZE);
            && SameKey(name, dir[i].fname)
            && (FirstMatch(dir, name, i) <==> forall j :: 0 <= j < i ==> !SameKey(dir[j].fname, dir[i].fname))
  {
    PaddedKeeps(dir[i].fname, NAME_SIZE, KEY_SIZE);
  }
}
