/** A process's eight file descriptors: get_new_fd, free_fd and get_file of tasking.c, kopen of zbigfs.c,
    syscall_open and syscall_close of syscall_funcs.c. */
module Descriptors {
  import opened Common
  import opened Directory

  const MAX_FILES := 8
  const FTYPE_SPECIAL := 0
  const FTYPE_DIRECTORY := 1

  datatype Operations = OpsNone | OpsStdin | OpsStdout | OpsRegular | OpsDirectory | OpsRtc

  datatype File = File(ops: Operations, inode: int, pos: int)

  datatype Table = Table(inUse: seq<bool>, files: seq<File>)

  predicate InBounds(t: Table) {
    |t.inUse| == MAX_FILES && |t.files| == MAX_FILES
  }

  type Fds = t: Table | InBounds(t) witness Table(seq(MAX_FILES, _ => false), seq(MAX_FILES, _ => File(OpsNone, 0, 0)))

  /** setup_new_process: a zeroed table with stdin and stdout opened on the first two free descriptors. */
  const INITIAL: Fds :=
    Table([true, true, false, false, false, false, false, false],
          [File(OpsStdin, 0, 0), File(OpsStdout, 0, 0), File(OpsNone, 0, 0), File(OpsNone, 0, 0), File(OpsNone, 0, 0),
           File(OpsNone, 0, 0), File(OpsNone, 0, 0), File(OpsNone, 0, 0)])

  /** kopen on a name that the directory lookup resolved. */
  function Opened(f: File, d: Dentry): File {
    if d.ftype == FTYPE_REGULAR then File(OpsRegular, d.inode, 0)
    else if d.ftype == FTYPE_SPECIAL then f.(ops := OpsRtc, pos := 0)
    else if d.ftype == FTYPE_DIRECTORY then f.(ops := OpsDirectory, pos := 0)
    else f.(pos := 0)
  }

  // ----- Reference -----

  /** fd is the lowest free descriptor above the two standard streams. */
  ghost predicate LowestFree(t: Fds, fd: int) {
    2 <= fd < 8 && !t.inUse[fd] && forall i :: 2 <= i < fd ==> t.inUse[i]
  }

  ghost predicate Full(t: Fds) {
    forall i :: 2 <= i < 8 ==> t.inUse[i]
  }

  datatype Request = Open(found: Option<Dentry>) | Close(fd: int)

  /** What one call may do to the table, and what it must return. */
  ghost predicate Served(t: Fds, t': Fds, r: Request, result: int) {
    match r
    case Open(None) => result == -1 && t' == t
    case Open(Some(d)) =>
      if Full(t) then result == -1 && t' == t
      else LowestFree(t, result) && t' == Table(t.inUse[result := true], t.files[result := Opened(t.files[result], d)])
    case Close(fd) =>
      if 2 <= fd < MAX_FILES && t.inUse[fd] then result == 0 && t' == t.(inUse := t.inUse[fd := false])
      else result == -1 && t' == t
  }

  /** A table a process can have: the standard streams are open and nobody touches them. */
  ghost predicate Sound(t: Fds) {
    t.inUse[0] && t.inUse[1] && t.files[0] == File(OpsStdin, 0, 0) && t.files[1] == File(OpsStdout, 0, 0)
  }

  class FdTable {
    const inUse: array<bool>
    const files: array<File>

    ghost predicate Valid()
      reads this, inUse, files
    {
      inUse.Length == MAX_FILES && files.Length == MAX_FILES && Sound(View())
    }

    ghost function View(): Fds
      requires inUse.Length == MAX_FILES && files.Length == MAX_FILES
      reads this, inUse, files
    {
      Table(inUse[..], files[..])
    }

    constructor ()
      ensures Valid() && View() == INITIAL && fresh(inUse) && fresh(files)
    {
      inUse := new bool[MAX_FILES](_ => false);
      files := new File[MAX_FILES](_ => File(OpsNone, 0, 0));
      new;
      assert !inUse[0];
      var stdin := GetNewFd();
      files[stdin] := files[stdin].(ops := OpsStdin);
      assert stdin == 0 && !inUse[1];
      var stdout := GetNewFd();
      files[stdout] := files[stdout].(ops := OpsStdout);
      assert stdout == 1;
      assert inUse[..] == INITIAL.inUse && files[..] == INITIAL.files;
    }

    /** get_new_fd: claims the lowest free descriptor, standard streams included. */
    method GetNewFd() returns (fd: int)
      requires inUse.Length == MAX_FILES
      modifies inUse
      ensures fd == -1 <==> forall i :: 0 <= i < MAX_FILES ==> old(inUse[i])
      ensures fd == -1 ==> inUse[..] == old(inUse[..])
      ensures fd != -1 ==> 0 <= fd < MAX_FILES && !old(inUse[fd]) && (forall i :: 0 <= i < fd ==> old(inUse[i]))
                           && inUse[..] == old(inUse[..])[fd := true]
    {
      fd := 0;
      while fd < MAX_FILES
        invariant 0 <= fd <= MAX_FILES && inUse[..] == old(inUse[..])
        invariant forall i :: 0 <= i < fd ==> old(inUse[i])
      {
        if !inUse[fd] {
          inUse[fd] := true;
          return;
        }
        fd := fd + 1;
      }
      fd := -1;
    }

    method FreeFd(fd: int) returns (r: int)
      requires inUse.Length == MAX_FILES
      modifies inUse
      ensures r == 0 <==> 2 <= fd < MAX_FILES && old(inUse[fd])
      ensures r == 0 || r == -1
      ensures inUse[..] == if r == 0 then old(inUse[..])[fd := false] else old(inUse[..])
    {
      if fd >= MAX_FILES || fd < 2 || !inUse[fd] {
        return -1;
      }
      inUse[fd] := false;
      return 0;
    }

    method SyscallOpen(found: Option<Dentry>) returns (r: int)
      requires Valid()
      modifies inUse, files
      ensures Valid() && Served(old(View()), View(), Open(found), r)
    {
      var fd := GetNewFd();
      if fd == -1 {
        return -1;
      }
      assert fd >= 2;
      if found.None? {
        var freed := FreeFd(fd);
        assert inUse[..] == old(inUse[..]);
        return -1;
      }
      files[fd] := Opened(files[fd], found.value);
      return fd;
    }

    /** The file that the found entry names has been opened on fd; the numbers are the types of the directory. */
    ghost predicate Opens(fd: int, entry: Dentry)
      requires files.Length == MAX_FILES && 0 <= fd < MAX_FILES
      reads this, files
    {
      && files[fd].pos == 0
      && (entry.ftype == 2 ==> files[fd] == File(OpsRegular, entry.inode, 0))
      && (entry.ftype == 0 ==> files[fd].ops == OpsRtc)
      && (entry.ftype == 1 ==> files[fd].ops == OpsDirectory)
    }

    /** syscall_open of a name: the lookup and the descriptor together. `stale` is what the entry on the stack held. */
    method OpenName(dir: Listing, name: seq<int>, stale: Dentry) returns (r: int)
      requires Valid() && Readable(name, 31)
      modifies inUse, files
      ensures Valid()
      ensures (forall j :: 0 <= j < |dir| ==> !SameKey(name, dir[j].fname)) || Full(old(View())) ==>
                r == -1 && View() == old(View())
      ensures forall i :: FirstMatch(dir, name, i) && !Full(old(View())) ==>
                LowestFree(old(View()), r) && View().inUse == old(View()).inUse[r := true] && Opens(r, dir[i])
                && (dir[i].ftype != 2 ==> files[r].inode == old(files[r]).inode)
                && (dir[i].ftype !in {0, 1, 2} ==> files[r].ops == old(files[r]).ops)
                && View().files == old(View()).files[r := files[r]]
    {
      var err, d, index := ReadDentryByName(dir, name, stale);
      r := SyscallOpen(if err == 0 then Some(d) else None);
      assert forall i :: FirstMatch(dir, name, i) && err == 0 ==> i == index;
    }

    /** Opening the listed name of a regular file opens that file, unless an earlier entry shares its first 31
        characters. */
    method OpenListed(dir: Listing, i: nat, stale: Dentry) returns (r: int)
      requires Valid() && i < |dir| && dir[i].ftype == 2
      modifies inUse, files
      ensures Valid() && (Full(old(View())) <==> r == -1)
      ensures r != -1 && (forall j :: 0 <= j < i ==> !SameKey(dir[j].fname, dir[i].fname)) ==>
                2 <= r < 8 && inUse[r] && files[r] == File(OpsRegular, dir[i].inode, 0)
    {
      var name := Padded(dir[i].fname, 32);
      ListedLookUp(dir, i);
      ghost var first := FirstOf(dir, name, i);
      r := OpenName(dir, name, stale);
    }

    method SyscallClose(fd: int) returns (r: int)
      requires Valid()
      modifies inUse
      ensures Valid() && Served(old(View()), View(), Close(fd), r)
    {
      if fd >= MAX_FILES || fd < 0 || !inUse[fd] {
        return -1;
      }
      r := FreeFd(fd);
    }
  }

  /** Where there is a match there is a first one. */
  lemma {:induction false} FirstOf(dir: Listing, name: seq<int>, i: nat) returns (first: nat)
    requires i < |dir| && SameKey(name, dir[i].fname)
    ensures first <= i && FirstMatch(dir, name, first)
  {
    if j: nat :| j < i && SameKey(name, dir[j].fname) {
      first := FirstOf(dir, name, j);
    } else {
      first := i;
    }
  }

  // ----- Every run of opens and closes -----

  ghost predicate ServedAll(ts: seq<Fds>, rs: seq<Request>, results: seq<int>) {
    && |ts| == |rs| + 1 && |results| == |rs|
    && forall i :: 0 <= i < |rs| ==> Served(ts[i], ts[i + 1], rs[i], results[i])
  }

  /** Which request last gave descriptor fd its file, if it is still open: an independent reading of the history. */
  ghost function OpenedBy(rs: seq<Request>, results: seq<int>, fd: int): Option<Dentry>
    requires |rs| == |results|
  {
    if rs == [] then None
    else
      var last := |rs| - 1;
      if rs[last].Open? && results[last] == fd && rs[last].found.Some? then rs[last].found
      else if rs[last] == Close(fd) && results[last] == 0 then None
      else OpenedBy(rs[..last], results[..last], fd)
  }

  /** After any run, the standard streams are untouched, and descriptor 2..7 is in use exactly when its last successful
      open has not been closed; then it still is the file that open asked for, at position 0: a regular file, an RTC
      or a directory with the operations of its type. */
  lemma {:induction false} RunOfCalls(ts: seq<Fds>, rs: seq<Request>, results: seq<int>)
    requires ServedAll(ts, rs, results) && ts[0] == INITIAL
    ensures Sound(ts[|rs|])
    ensures forall fd {:trigger ts[|rs|].inUse[fd]} :: 2 <= fd < MAX_FILES ==>
              (ts[|rs|].inUse[fd] <==> OpenedBy(rs, results, fd).Some?)
    ensures forall fd {:trigger ts[|rs|].files[fd]} :: 2 <= fd < MAX_FILES && ts[|rs|].inUse[fd] ==>
              var d := OpenedBy(rs, results, fd).value;
              && ts[|rs|].files[fd].pos == 0
              && (d.ftype == 2 ==> ts[|rs|].files[fd] == File(OpsRegular, d.inode, 0))
              && (d.ftype == 0 ==> ts[|rs|].files[fd].ops == OpsRtc)
              && (d.ftype == 1 ==> ts[|rs|].files[fd].ops == OpsDirectory)
  {
    if rs != [] {
      var last := |rs| - 1;
      RunOfCalls(ts[..|rs|], rs[..last], results[..last]);
      assert Served(ts[last], ts[last + 1], rs[last], results[last]);
    }
  }
}
