/** Page directories and tables as page.c fills them, and the two-level walk that the processor makes
    for a user access (sections 4.3 and 4.6 of the Intel SDM, Volume 3A). */
module Paging {
  import opened Common
  import opened VideoFrames

  const OFFSET_4M := 0x400000
  const OFFSET_4K := 0x1000
  const OFFSET_VIDEO := 0xB8000
  const ENTRIES := 1024
  const NUM_PDS := 11
  const USER_PAGE_DIR := 32
  const VIDEO_SLOT := OFFSET_VIDEO / OFFSET_4K

  /** A directory or table entry: the address in its upper bits and the flags page.c sets. */
  datatype Entry = Entry(base: int, present: bool, write: bool, user: bool, large: bool)

  const ABSENT := Entry(0, false, false, false, false)

  function KernelEntry(base: int): Entry {
    Entry(base, true, false, false, false)
  }

  function UserEntry(base: int): Entry {
    Entry(base, true, true, true, false)
  }

  function KernelImage(base: int): Entry {
    Entry(base, true, false, false, true)
  }

  function UserImage(base: int): Entry {
    Entry(base, true, true, true, true)
  }

  predicate UserAllowed(e: Entry, write: bool) {
    e.present && e.user && (write ==> e.write)
  }

  /** Physical address of a video frame: buffers lie past the last program image. */
  function Address(f: Frame): int {
    match f
    case Vga => OFFSET_VIDEO
    case Buffer(t) => (NUM_PDS + 1) * OFFSET_4M + t * OFFSET_4K
  }

  /** Where the two page tables themselves lie: page-aligned, inside the kernel image. */
  datatype Placement = Placement(low: nat, video: nat)

  predicate Placed(at: Placement) {
    && at.low % OFFSET_4K == 0 && at.video % OFFSET_4K == 0 && at.low != at.video
    && OFFSET_4M <= at.low < 2 * OFFSET_4M && OFFSET_4M <= at.video < 2 * OFFSET_4M
  }

  // ----- The tables -----

  /** A directory that init_pd has set up for a process. */
  ghost predicate UserDirectory(pd: seq<Entry>, pid: int, at: Placement) {
    && |pd| == ENTRIES
    && pd[0] == KernelEntry(at.low)
    && pd[1] == KernelImage(OFFSET_4M)
    && pd[USER_PAGE_DIR] == UserImage((pid + 1) * OFFSET_4M)
    && pd[USER_PAGE_DIR + 1] == UserEntry(at.low)
    && pd[NUM_PDS + 1] == KernelEntry(at.video)
    && (forall i | 0 <= i < ENTRIES && i !in {0, 1, USER_PAGE_DIR, USER_PAGE_DIR + 1, NUM_PDS + 1} :: pd[i] == ABSENT)
  }

  /** The low-memory table: only the video page is present, and it names frame f. */
  ghost predicate LowTable(table: seq<Entry>, f: Frame) {
    && |table| == ENTRIES
    && table[VIDEO_SLOT] == UserEntry(Address(f))
    && (forall i :: 0 <= i < ENTRIES && i != VIDEO_SLOT ==> table[i] == ABSENT.(base := i * OFFSET_4K))
  }

  method InitPd(pd: array<Entry>, pid: nat, at: Placement)
    requires pd.Length == ENTRIES
    modifies pd
    ensures UserDirectory(pd[..], pid, at)
  {
    for i := 0 to ENTRIES
      invariant forall j :: 0 <= j < i ==> pd[j] == ABSENT
    {
      pd[i] := ABSENT;
    }
    pd[0] := KernelEntry(at.low);
    pd[1] := KernelImage(OFFSET_4M);
    pd[USER_PAGE_DIR] := UserImage((pid + 1) * OFFSET_4M);
    pd[USER_PAGE_DIR + 1] := UserEntry(at.low);
    pd[NUM_PDS + 1] := KernelEntry(at.video);
  }

  /** The part of init_paging that fills the low-memory table. */
  method InitLowTable(table: array<Entry>)
    requires table.Length == ENTRIES
    modifies table
    ensures LowTable(table[..], Vga)
  {
    for i := 0 to ENTRIES
      invariant forall j :: 0 <= j < i ==> table[j] == ABSENT.(base := j * OFFSET_4K)
    {
      table[i] := ABSENT.(base := i * OFFSET_4K);
    }
    table[VIDEO_SLOT] := UserEntry(OFFSET_VIDEO);
  }

  /** The table behind the last image: the three back buffers, and the VGA frame behind them. */
  ghost predicate VideoTable(table: seq<Entry>) {
    && |table| == ENTRIES
    && (forall t: Terminal :: table[t] == UserEntry(Address(Buffer(t)))) && table[3] == UserEntry(OFFSET_VIDEO)
    && forall i :: 4 <= i < ENTRIES ==> table[i] == ABSENT
  }

  /** The part of init_paging that fills the video table. */
  method InitVideoTable(table: array<Entry>)
    requires table.Length == ENTRIES && forall i :: 0 <= i < ENTRIES ==> table[i] == ABSENT
    modifies table
    ensures VideoTable(table[..])
  {
    for t := 0 to 3
      invariant forall u :: 0 <= u < t ==> table[u] == UserEntry((NUM_PDS + 1) * OFFSET_4M + u * OFFSET_4K)
      invariant forall i :: t <= i < ENTRIES ==> table[i] == ABSENT
    {
      table[t] := UserEntry((NUM_PDS + 1) * OFFSET_4M + t * OFFSET_4K);
    }
    table[3] := UserEntry(OFFSET_VIDEO);
  }

  method SetVmemTable(table: array<Entry>, foreground: Terminal, t: Terminal)
    requires table.Length == ENTRIES && exists f :: LowTable(table[..], f)
    modifies table
    ensures LowTable(table[..], Mapped(foreground, t))
  {
    if foreground == t {
      table[VIDEO_SLOT] := UserEntry(OFFSET_VIDEO);
    } else {
      table[VIDEO_SLOT] := UserEntry((NUM_PDS + 1) * OFFSET_4M + t * OFFSET_4K);
    }
  }

  // ----- The walk -----

  /** What an access from user mode reaches, or None for a page fault. */
  function UserWalk(pd: seq<Entry>, low: seq<Entry>, video: seq<Entry>, at: Placement, va: nat,
      write: bool): Option<int>
    requires |pd| == |low| == |video| == ENTRIES && va < 0x1_0000_0000
  {
    var pde := pd[va / OFFSET_4M];
    if !UserAllowed(pde, write) then None
    else if pde.large then Some(pde.base + va % OFFSET_4M)
    else
      var i := (va / OFFSET_4K) % ENTRIES;
      var pte := if pde.base == at.low then low[i] else if pde.base == at.video then video[i] else ABSENT;
      if !UserAllowed(pte, write) then None else Some(pte.base + va % OFFSET_4K)
  }

  /** What a read in the kernel reaches: the user bits do not matter to it. */
  function KernelWalk(pd: seq<Entry>, low: seq<Entry>, video: seq<Entry>, at: Placement, va: nat): Option<int>
    requires |pd| == |low| == |video| == ENTRIES && va < 0x1_0000_0000
  {
    var pde := pd[va / OFFSET_4M];
    if !pde.present then None
    else if pde.large then Some(pde.base + va % OFFSET_4M)
    else
      var i := (va / OFFSET_4K) % ENTRIES;
      var pte := if pde.base == at.low then low[i] else if pde.base == at.video then video[i] else ABSENT;
      if !pte.present then None else Some(pte.base + va % OFFSET_4K)
  }

  /** The memory the kernel is meant to see, under any process: itself, the mapped video page, the back buffers, the VGA
      frame behind them, and what the process sees. */
  function KernelSpace(pid: int, f: Frame, va: int): Option<int> {
    if 0x40_0000 <= va < 0x80_0000 then Some(va)
    else if 0xB_8000 <= va < 0xB_9000 then Some(Address(f) + (va - 0xB_8000))
    else if 0x300_0000 <= va < 0x300_3000 then Some(va)
    else if 0x300_3000 <= va < 0x300_4000 then Some(0xB_8000 + (va - 0x300_3000))
    else UserSpace(pid, f, va)
  }

  lemma KernelTranslations(pd: seq<Entry>, low: seq<Entry>, video: seq<Entry>, at: Placement, pid: int, f: Frame,
      va: nat)
    requires Placed(at) && UserDirectory(pd, pid, at) && LowTable(low, f) && VideoTable(video)
    requires 1 <= pid < NUM_PDS && (f.Buffer? ==> IsTerminal(f.terminal)) && va < 0x1_0000_0000
    ensures KernelWalk(pd, low, video, at, va) == KernelSpace(pid, f, va)
  {
    var d, i := va / OFFSET_4M, (va / OFFSET_4K) % ENTRIES;
    assert va == d * OFFSET_4M + i * OFFSET_4K + va % OFFSET_4K;
  }

  /** The memory a process is meant to see: its 4M image at 128M, and one page of video at 132M + 0xB8000. */
  function UserSpace(pid: int, f: Frame, va: int): Option<int> {
    var image, screen := 0x800_0000, 0x840_0000 + 0xB_8000;
    if image <= va < image + 0x40_0000 then Some((pid + 1) * 0x40_0000 + (va - image))
    else if screen <= va < screen + 0x1000 then Some(Address(f) + (va - screen))
    else None
  }

  /** For every 32-bit address, the user-accessible translations of a process are exactly its own image
      and the video page that the low-memory table names. */
  lemma UserTranslations(pd: seq<Entry>, low: seq<Entry>, video: seq<Entry>, at: Placement, pid: int, f: Frame,
      va: nat, write: bool)
    requires Placed(at) && UserDirectory(pd, pid, at) && LowTable(low, f) && |video| == ENTRIES
    requires 1 <= pid < NUM_PDS && (f.Buffer? ==> IsTerminal(f.terminal)) && va < 0x1_0000_0000
    ensures UserWalk(pd, low, video, at, va, write) == UserSpace(pid, f, va)
  {
    var d, i := va / OFFSET_4M, (va / OFFSET_4K) % ENTRIES;
    assert va == d * OFFSET_4M + i * OFFSET_4K + va % OFFSET_4K;
  }

  /** Physical ranges, in bytes. */
  predicate Disjoint(a: int, aLen: int, b: int, bLen: int) {
    a + aLen <= b || b + bLen <= a
  }

  /** Images of different processes, low memory, the kernel and the video frames never overlap. */
  lemma FramesDisjoint(pid: int, other: int, f: Frame, g: Frame)
    requires 1 <= pid < NUM_PDS && 1 <= other < NUM_PDS
    requires (f.Buffer? ==> IsTerminal(f.terminal)) && (g.Buffer? ==> IsTerminal(g.terminal))
    ensures pid != other ==> Disjoint((pid + 1) * OFFSET_4M, OFFSET_4M, (other + 1) * OFFSET_4M, OFFSET_4M)
    ensures Disjoint((pid + 1) * OFFSET_4M, OFFSET_4M, 0, 2 * OFFSET_4M)
    ensures Disjoint((pid + 1) * OFFSET_4M, OFFSET_4M, Address(f), OFFSET_4K)
    ensures f != g ==> Disjoint(Address(f), OFFSET_4K, Address(g), OFFSET_4K)
    ensures f.Buffer? ==> Disjoint(Address(f), OFFSET_4K, 0, 2 * OFFSET_4M)
  {
  }

  /** Two processes can reach the same byte only at the same address of the video page. */
  lemma Isolation(pid: int, other: int, f: Frame, va: int, va': int)
    requires 1 <= pid < NUM_PDS && 1 <= other < NUM_PDS && pid != other && (f.Buffer? ==> IsTerminal(f.terminal))
    requires UserSpace(pid, f, va).Some? && UserSpace(pid, f, va) == UserSpace(other, f, va')
    ensures va == va' && (USER_PAGE_DIR + 1) * OFFSET_4M + OFFSET_VIDEO <= va
  {
    FramesDisjoint(pid, other, f, f);
  }

  /** No process reaches the kernel with its page tables, at any address, and of low memory it reaches at most the VGA
      page, and that only while the video page names it. */
  lemma KernelUnreached(pd: seq<Entry>, low: seq<Entry>, video: seq<Entry>, at: Placement, pid: int, f: Frame,
                        va: nat, write: bool)
    requires Placed(at) && UserDirectory(pd, pid, at) && LowTable(low, f) && |video| == ENTRIES
    requires 1 <= pid < NUM_PDS && (f.Buffer? ==> IsTerminal(f.terminal)) && va < 0x1_0000_0000
    requires UserWalk(pd, low, video, at, va, write).Some?
    ensures var pa := UserWalk(pd, low, video, at, va, write).value;
            && !(0x40_0000 <= pa < 0x80_0000)
            && !(at.low <= pa < at.low + 0x1000) && !(at.video <= pa < at.video + 0x1000)
            && (pa < 0x40_0000 ==> f == Vga && 0xB_8000 <= pa < 0xB_9000)
  {
    UserTranslations(pd, low, video, at, pid, f, va, write);
  }
}
