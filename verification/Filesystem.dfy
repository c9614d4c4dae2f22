/** The read-only filesystem of zbigfs.c: block-indexed reads, chunked reads through a file position,
    and the executable loader of syscall_funcs.c on top of them. */
module Filesystem {
  import opened Common
  import opened Memory

  const BLOCK_SIZE := 4096
  const TABLE_SIZE := 1023

  /** A file length and the table of data blocks that hold it. `beyond` is the word that follows the table in
      memory: read_data fetches it for a file that fills all 1023 blocks, and then copies nothing from there. */
  datatype Inode = Inode(length: nat, blocks: seq<nat>, beyond: nat)

  /** The inodes of the image and its data blocks, laid end to end. */
  datatype Image = Image(inodes: seq<Inode>, data: seq<int>)

  /** The blocks that hold the file's bytes exist. */
  ghost predicate WellFormed(img: Image, n: Inode) {
    && |n.blocks| == TABLE_SIZE
    && n.length <= TABLE_SIZE * BLOCK_SIZE
    && forall i :: 0 <= i < n.length ==> BLOCK_SIZE * (n.blocks[i / BLOCK_SIZE] + 1) <= |img.data|
  }

  function TableEntry(n: Inode, k: int): nat
    requires 0 <= k <= |n.blocks|
  {
    if k < |n.blocks| then n.blocks[k] else n.beyond
  }

  // ----- Reference: a file is a flat byte sequence -----

  ghost function Byte(img: Image, n: Inode, i: int): int
    requires WellFormed(img, n) && 0 <= i < n.length
  {
    img.data[4096 * n.blocks[i / 4096] + i % 4096]
  }

  ghost function Contents(img: Image, n: Inode): (s: seq<int>)
    requires WellFormed(img, n)
    ensures |s| == n.length
  {
    seq(n.length, i requires 0 <= i < n.length => Byte(img, n, i))
  }

  /** The inode's file, if there is such an inode, exists. */
  ghost predicate Readable(img: Image, inode: nat) {
    inode < |img.inodes| ==> WellFormed(img, img.inodes[inode])
  }

  /** What can be read through an inode number: nothing if it is out of range. */
  ghost function FileBytes(img: Image, inode: nat): (s: seq<int>)
    requires Readable(img, inode)
    ensures |s| <= TABLE_SIZE * BLOCK_SIZE
  {
    if inode < |img.inodes| then Contents(img, img.inodes[inode]) else []
  }

  /** The bytes a read of `length` at `offset` is to deliver: the file's slice, and none at all past the end
      or when offset + length does not fit in 32 bits. */
  ghost function Slice(s: seq<int>, offset: nat, length: nat): (r: seq<int>)
    ensures |r| <= length && offset + |r| <= Max(offset, |s|)
  {
    if offset > |s| || offset + length >= 0x1_0000_0000 then [] else s[offset..Min(offset + length, |s|)]
  }

  /** memcpy from the image into a buffer. */
  method CopyIn(buf: array<int>, at: nat, data: seq<int>, from: nat, n: nat)
    requires at + n <= buf.Length && from + n <= |data|
    modifies buf
    ensures Overlaid(old(buf[..]), buf[..], at, data[from..from + n])
  {
    for i := 0 to n
      invariant forall j {:trigger buf[j]} :: 0 <= j < buf.Length ==>
                  buf[j] == if at <= j < at + i then data[from + (j - at)] else old(buf[j])
    {
      buf[at + i] := data[from + i];
    }
  }

  /** Within one block the flat file and the data area agree. */
  lemma BlockRun(img: Image, n: Inode, offset: nat, k: nat)
    requires WellFormed(img, n) && offset + k <= n.length && offset % BLOCK_SIZE + k <= BLOCK_SIZE && k > 0
    ensures var from := BLOCK_SIZE * n.blocks[offset / BLOCK_SIZE] + offset % BLOCK_SIZE;
            from + k <= |img.data| && img.data[from..from + k] == Contents(img, n)[offset..offset + k]
  {
    var from := BLOCK_SIZE * n.blocks[offset / BLOCK_SIZE] + offset % BLOCK_SIZE;
    assert BLOCK_SIZE * (n.blocks[offset / BLOCK_SIZE] + 1) <= |img.data|;
    var here, there := img.data[from..from + k], Contents(img, n)[offset..offset + k];
    forall j | 0 <= j < k ensures here[j] == there[j] {
      assert (offset + j) / BLOCK_SIZE == offset / BLOCK_SIZE && (offset + j) % BLOCK_SIZE == offset % BLOCK_SIZE + j;
    }
  }

  lemma OverlaidMore(m: seq<int>, m1: seq<int>, m2: seq<int>, at: int, s: seq<int>, first: int, offset: int, k: nat)
    requires 0 <= first <= offset && offset + k <= |s|
    requires Overlaid(m, m1, at, s[first..offset])
    requires Overlaid(m1, m2, at + (offset - first), s[offset..offset + k])
    ensures Overlaid(m, m2, at, s[first..offset + k])
  {
    assert s[first..offset + k] == s[first..offset] + s[offset..offset + k];
  }

  /** The memcpy of read_data for one block, or for the part of one that is wanted. */
  method CopyRun(img: Image, n: Inode, offset: nat, buf: array<int>, out: nat, k: nat)
    requires WellFormed(img, n) && offset + k <= n.length && offset % BLOCK_SIZE + k <= BLOCK_SIZE
             && out + k <= buf.Length
    modifies buf
    ensures Overlaid(old(buf[..]), buf[..], out, Contents(img, n)[offset..offset + k])
  {
    var block := TableEntry(n, offset / BLOCK_SIZE);
    if k > 0 {
      BlockRun(img, n, offset, k);
      CopyIn(buf, out, img.data, BLOCK_SIZE * block + offset % BLOCK_SIZE, k);
    }
  }

  /** The loop of read_data and the copy after it: the file's bytes [start, last), whatever blocks they lie in. */
  method CopyBlocks(img: Image, n: Inode, start: nat, last: nat, buf: array<int>, at: nat)
    requires WellFormed(img, n) && start <= last <= n.length && at + (last - start) <= buf.Length
    modifies buf
    ensures Overlaid(old(buf[..]), buf[..], at, Contents(img, n)[start..last])
  {
    ghost var s, m := Contents(img, n), buf[..];
    var offset, out := start, at;
    while offset / BLOCK_SIZE < last / BLOCK_SIZE
      invariant start <= offset <= last && out == at + (offset - start)
      invariant Overlaid(m, buf[..], at, s[start..offset])
      decreases last - offset
    {
      var k := BLOCK_SIZE - offset % BLOCK_SIZE;
      BlockEnd(offset, last);
      ghost var before := buf[..];
      CopyRun(img, n, offset, buf, out, k);
      OverlaidMore(m, before, buf[..], at, s, start, offset, k);
      out, offset := out + k, offset + k;
    }
    var k := last % BLOCK_SIZE - offset % BLOCK_SIZE;
    ghost var before := buf[..];
    SameBlock(offset, last);
    CopyRun(img, n, offset, buf, out, k);
    OverlaidMore(m, before, buf[..], at, s, start, offset, k);
  }

  lemma BlockEnd(offset: nat, last: nat)
    requires offset / BLOCK_SIZE < last / BLOCK_SIZE
    ensures offset + (BLOCK_SIZE - offset % BLOCK_SIZE) <= last
  {
  }

  lemma SameBlock(offset: nat, last: nat)
    requires offset <= last && offset / BLOCK_SIZE >= last / BLOCK_SIZE
    ensures last % BLOCK_SIZE - offset % BLOCK_SIZE == last - offset
    ensures offset % BLOCK_SIZE + (last - offset) <= BLOCK_SIZE
  {
  }

  /** read_data, for every block table, offset and length. */
  method ReadData(img: Image, inode: nat, start: nat, buf: array<int>, at: nat, length: nat) returns (count: int)
    requires Readable(img, inode)
    requires start < 0x1_0000_0000 && length < 0x1_0000_0000
    requires at + |Slice(FileBytes(img, inode), start, length)| <= buf.Length
    modifies buf
    ensures inode >= |img.inodes| ==> count == -1 && buf[..] == old(buf[..])
    ensures inode < |img.inodes| ==>
              var got := Slice(FileBytes(img, inode), start, length);
              count == |got| && Overlaid(old(buf[..]), buf[..], at, got)
  {
    if inode >= |img.inodes| {
      return -1;
    }
    var n := img.inodes[inode];
    var last := (start + length) % 0x1_0000_0000;
    if last > n.length {
      last := n.length;
    }
    if last < start {
      return 0;
    }
    CopyBlocks(img, n, start, last, buf, at);
    return last - start;
  }

  // ----- Chunked reads -----

  /** An open regular file. */
  class OpenFile {
    var inode: nat
    var pos: int

    /** What kopen leaves for a regular file. */
    constructor (inode: nat)
      ensures this.inode == inode && pos == 0
    {
      this.inode := inode;
      pos := 0;
    }

    /** regular_read: nbytes is signed and reaches read_data as a 32-bit unsigned length. */
    method RegularRead(img: Image, buf: array<int>, at: nat, nbytes: int) returns (count: int)
      requires Readable(img, inode)
      requires 0 <= pos < 0x8000_0000 && -0x8000_0000 <= nbytes < 0x8000_0000
      requires at + |Slice(FileBytes(img, inode), pos, nbytes % 0x1_0000_0000)| <= buf.Length
      modifies buf, this`pos
      ensures var got := Slice(FileBytes(img, inode), old(pos), nbytes % 0x1_0000_0000);
              && count == (if inode < |img.inodes| then |got| else -1)
              && pos == old(pos) + |got| && Overlaid(old(buf[..]), buf[..], at, got)
    {
      count := ReadData(img, inode, pos, buf, at, nbytes % 0x1_0000_0000);
      if count < 0 {
        return -1;
      }
      pos := pos + count;
    }
  }

  /** A non-negative byte count, as a 32-bit signed integer. */
  type Count = n: int | 0 <= n < 0x8000_0000

  /** All bytes delivered by reads of the given sizes, one after the other: each takes what follows the
      position, and the position moves behind it. */
  ghost function Chunks(s: seq<int>, pos: nat, sizes: seq<Count>): seq<int>
    requires pos <= |s|
    decreases |sizes|
  {
    if sizes == [] then []
    else
      var e := Min(pos + sizes[0], |s|);
      s[pos..e] + Chunks(s, e, sizes[1..])
  }

  function Sum(sizes: seq<Count>): nat {
    if sizes == [] then 0 else sizes[0] + Sum(sizes[1..])
  }

  /** A read with a non-negative count inside the file is one such chunk. */
  lemma ReadIsChunk(s: seq<int>, pos: nat, n: Count)
    requires pos <= |s| < 0x8000_0000
    ensures Slice(s, pos, n % 0x1_0000_0000) == s[pos..Min(pos + n, |s|)] == Chunks(s, pos, [n])
  {
    assert [n][1..] == [];
  }

  /** Any sequence of reads concatenates to the stretch of the file that follows the position, cut at the end of
      the file; so the position never passes the length. */
  lemma {:induction false} ChunksConcatenate(s: seq<int>, pos: nat, sizes: seq<Count>)
    requires pos <= |s|
    ensures Chunks(s, pos, sizes) == s[pos..Min(pos + Sum(sizes), |s|)]
    decreases |sizes|
  {
    if sizes != [] {
      ChunksConcatenate(s, Min(pos + sizes[0], |s|), sizes[1..]);
    }
  }

  /** What a chunk adds to the bytes read so far. */
  lemma ChunkRead(s: seq<int>, from: nat, pos: nat, sizes: seq<Count>)
    requires from <= pos <= |s| < 0x8000_0000 && sizes != []
    ensures var got := Slice(s, pos, sizes[0] % 0x1_0000_0000);
            && got == s[pos..pos + |got|]
            && s[from..pos] + Chunks(s, pos, sizes) == s[from..pos + |got|] + Chunks(s, pos + |got|, sizes[1..])
  {
    hide Chunks, Slice;
    ReadIsChunk(s, pos, sizes[0]);
    ChunkStep(s, pos, sizes);
    var e := Min(pos + sizes[0], |s|);
    assert s[from..e] == s[from..pos] + s[pos..e];
  }

  lemma ChunkStep(s: seq<int>, pos: nat, sizes: seq<Count>)
    requires pos <= |s| && sizes != []
    ensures var e := Min(pos + sizes[0], |s|); Chunks(s, pos, sizes) == s[pos..e] + Chunks(s, e, sizes[1..])
  {
  }

  /** A program that reads an open file with any sequence of byte counts gets one stretch of the file, without a gap or
      a byte twice and never past the end, and the position stays behind what it got. */
  method ReadAll(img: Image, f: OpenFile, sizes: seq<Count>, buf: array<int>, at: nat) returns (total: nat)
    requires f.inode < |img.inodes| && WellFormed(img, img.inodes[f.inode])
    requires var s := Contents(img, img.inodes[f.inode]);
             0 <= f.pos <= |s| && at + (Min(f.pos + Sum(sizes), |s|) - f.pos) <= buf.Length
    modifies buf, f`pos
    ensures var s, from := Contents(img, img.inodes[f.inode]), old(f.pos);
            && f.pos == Min(from + Sum(sizes), |s|) && total == f.pos - from
            && Overlaid(old(buf[..]), buf[..], at, s[from..f.pos])
  {
    hide Contents, Chunks, Sum, Slice;
    ghost var s, from, m := Contents(img, img.inodes[f.inode]), f.pos, buf[..];
    ChunksConcatenate(s, from, sizes);
    total := 0;
    for i := 0 to |sizes|
      invariant from <= f.pos <= |s| && total == f.pos - from && Overlaid(m, buf[..], at, s[from..f.pos])
      invariant s[from..f.pos] + Chunks(s, f.pos, sizes[i..]) == s[from..Min(from + Sum(sizes), |s|)]
    {
      ghost var pos, before := f.pos, buf[..];
      assert sizes[i..][0] == sizes[i] && sizes[i..][1..] == sizes[i + 1..];
      ChunkRead(s, from, pos, sizes[i..]);
      var count := f.RegularRead(img, buf, at + total, sizes[i]);
      OverlaidMore(m, before, buf[..], at, s, from, pos, count);
      total := total + count;
    }
    NoMoreChunks(s, f.pos, sizes[|sizes|..]);
  }

  lemma NoMoreChunks(s: seq<int>, pos: nat, sizes: seq<Count>)
    requires pos <= |s| && sizes == []
    ensures Chunks(s, pos, sizes) == []
  {
  }

  /** From the open on: reads whose sizes add up to at least the file's length deliver the whole file. */
  method ReadFromOpen(img: Image, inode: nat, sizes: seq<Count>, buf: array<int>) returns (total: nat)
    requires inode < |img.inodes| && WellFormed(img, img.inodes[inode])
    requires Min(Sum(sizes), img.inodes[inode].length) <= buf.Length
    modifies buf
    ensures var s := Contents(img, img.inodes[inode]);
            && total == Min(Sum(sizes), |s|) && buf[..total] == s[..total] && buf[total..] == old(buf[total..])
  {
    var f := new OpenFile(inode);
    total := ReadAll(img, f, sizes, buf, 0);
  }

  /** A negative count is no error: one that reaches back no further than the start of the file reads nothing,
      any other reads everything that is left. */
  lemma NegativeCount(s: seq<int>, pos: nat, nbytes: int)
    requires pos <= |s| < 0x8000_0000 && -0x8000_0000 <= nbytes < 0
    ensures Slice(s, pos, nbytes % 0x1_0000_0000) == if pos + nbytes >= 0 then [] else s[pos..]
  {
  }

  // ----- The executable loader -----

  const HEADER_SIZE := 28
  const LOAD_OFFSET := 0x48000   // LOAD_ADDR within the user page at 128M
  const LOAD_SIZE := 0x3B8000    // EXE_LOAD_SZ
  const PAGE_SIZE := 0x400000
  const MAGIC: seq<int> := [0x7f, 0x45, 0x4c, 0x46]

  /** The header buffer after its read: a file shorter than the header leaves old bytes in it. */
  ghost function Header(s: seq<int>, garbage: seq<int>): (h: seq<int>)
    requires |garbage| == HEADER_SIZE
    ensures |h| == HEADER_SIZE
  {
    if |s| >= HEADER_SIZE then s[..HEADER_SIZE] else s + garbage[|s|..]
  }

  /** What the loader puts at LOAD_ADDR. */
  ghost function Loaded(s: seq<int>, garbage: seq<int>): seq<int>
    requires |garbage| == HEADER_SIZE
  {
    Header(s, garbage) + Slice(s, Min(HEADER_SIZE, |s|), LOAD_SIZE)
  }

  function Word(b: seq<int>): int
    requires |b| == 4
  {
    b[0] + 0x100 * b[1] + 0x1_0000 * b[2] + 0x100_0000 * b[3]
  }

  predicate IsBytes(s: seq<int>) {
    forall i {:trigger s[i]} :: 0 <= i < |s| ==> 0 <= s[i] < 256
  }

  /** Four bytes are those of the number w, lowest first. */
  predicate LittleEndian(b: seq<int>, w: int)
    requires |b| == 4
  {
    && 0 <= w < 0x1_0000_0000
    && b[0] == w % 256 && b[1] == w / 256 % 256 && b[2] == w / 256 / 256 % 256 && b[3] == w / 256 / 256 / 256
  }

  /** Only one number has these bytes. */
  lemma WordBytes(b: seq<int>)
    requires |b| == 4 && IsBytes(b)
    ensures LittleEndian(b, Word(b))
    ensures forall w :: LittleEndian(b, w) ==> w == Word(b)
  {
    var high := b[1] + 256 * (b[2] + 256 * b[3]);
    assert Word(b) == b[0] + 256 * high;
  }

  lemma ErrorBytes(b: seq<int>)
    requires |b| == 4 && IsBytes(b)
    ensures Word(b) == 1 <==> b == [1, 0, 0, 0]
    ensures Word(b) == 0xFFFF_FFFF <==> b == [0xFF, 0xFF, 0xFF, 0xFF]
  {
  }

  lemma HeaderBytes(s: seq<int>, garbage: seq<int>)
    requires |garbage| == HEADER_SIZE && IsBytes(s) && IsBytes(garbage)
    ensures IsBytes(Header(s, garbage))
  {
  }

  /** load_exec_to_mem once the name has been resolved. An inode number out of range makes both reads fail, which the
      loader does not notice: what it then tests is the old contents of the header buffer. mem starts at 128M and
      reaches past the user page. */
  method LoadExec(img: Image, inode: nat, buf: array<int>, mem: array<int>, slotFree: bool)
      returns (ok: bool, entry: int)
    requires Readable(img, inode)
    requires buf.Length == HEADER_SIZE && mem.Length >= PAGE_SIZE + HEADER_SIZE && buf != mem
    modifies buf, mem
    ensures var s, garbage := FileBytes(img, inode), old(buf[..]);
            && (ok <==> Header(s, garbage)[..4] == [0x7F, 0x45, 0x4C, 0x46] && slotFree)
            && (!ok ==> mem[..] == old(mem[..]))
            && (ok ==>
                  && Overlaid(old(mem[..]), mem[..], LOAD_OFFSET, Loaded(s, garbage))
                  && entry == Word(Header(s, garbage)[24..28])
                  && (IsBytes(Header(s, garbage)) ==> LittleEndian(Header(s, garbage)[24..28], entry)))
  {
    ghost var s, garbage := FileBytes(img, inode), buf[..];
    ok, entry := false, -1;
    var f := new OpenFile(inode);
    ReadHeader(img, f, buf);
    if buf[..4] != MAGIC || !slotFree {
      return;
    }
    ok := true;
    ghost var pos := f.pos;
    PlaceImage(img, f, buf[..], mem);
    entry := Word(mem[LOAD_OFFSET + 24..LOAD_OFFSET + 28]);
    EntryBytes(old(mem[..]), mem[..], Header(s, garbage), Slice(s, pos, LOAD_SIZE));
    if IsBytes(Header(s, garbage)) {
      WordBytes(Header(s, garbage)[24..28]);
    }
  }

  /** The header read of the loader. */
  method ReadHeader(img: Image, f: OpenFile, buf: array<int>)
    requires Readable(img, f.inode) && f.pos == 0 && buf.Length == HEADER_SIZE
    modifies buf, f`pos
    ensures var s := FileBytes(img, f.inode);
            buf[..] == Header(s, old(buf[..])) && f.pos == Min(HEADER_SIZE, |s|)
  {
    ghost var s, garbage := FileBytes(img, f.inode), buf[..];
    var got := f.RegularRead(img, buf, 0, HEADER_SIZE);
    forall i | 0 <= i < HEADER_SIZE ensures buf[..][i] == Header(s, garbage)[i] {
    }
  }

  /** The copy of the header to LOAD_ADDR and the read of the rest behind it. */
  method PlaceImage(img: Image, f: OpenFile, header: seq<int>, mem: array<int>)
    requires Readable(img, f.inode)
    requires 0 <= f.pos <= |FileBytes(img, f.inode)|
    requires |header| == HEADER_SIZE && mem.Length >= PAGE_SIZE + HEADER_SIZE
    modifies mem, f`pos
    ensures Overlaid(old(mem[..]), mem[..], LOAD_OFFSET,
            header + Slice(FileBytes(img, f.inode), old(f.pos), LOAD_SIZE))
  {
    hide Slice, FileBytes;
    ghost var m, body := mem[..], Slice(FileBytes(img, f.inode), f.pos, LOAD_SIZE);
    CopyIn(mem, LOAD_OFFSET, header, 0, HEADER_SIZE);
    ghost var m1 := mem[..];
    assert Overlaid(m, m1, LOAD_OFFSET, header) by {
      assert header[0..HEADER_SIZE] == header;
    }
    var got := f.RegularRead(img, mem, LOAD_OFFSET + HEADER_SIZE, LOAD_SIZE);
    ghost var m2 := mem[..];
    assert Overlaid(m1, m2, LOAD_OFFSET + HEADER_SIZE, body);
    OverlaidConcat(m, m1, m2, LOAD_OFFSET, header, body);
  }

  lemma EntryBytes(m: seq<int>, m': seq<int>, header: seq<int>, body: seq<int>)
    requires |header| == HEADER_SIZE && Overlaid(m, m', LOAD_OFFSET, header + body)
    ensures m'[LOAD_OFFSET + 24..LOAD_OFFSET + 28] == header[24..28]
  {
  }

  lemma OverlaidConcat(m: seq<int>, m1: seq<int>, m2: seq<int>, at: int, a: seq<int>, b: seq<int>)
    requires Overlaid(m, m1, at, a) && Overlaid(m1, m2, at + |a|, b)
    ensures Overlaid(m, m2, at, a + b)
  {
  }

  /** An executable with a full header arrives whole; it stays inside the user page exactly when it is no longer
      than 0x3B8000 bytes. */
  lemma LoadedWhole(s: seq<int>, garbage: seq<int>)
    requires |garbage| == HEADER_SIZE && HEADER_SIZE <= |s| <= TABLE_SIZE * BLOCK_SIZE
    ensures |s| <= 28 + 0x3B_8000 ==> Loaded(s, garbage) == s
    ensures LOAD_OFFSET + |Loaded(s, garbage)| <= PAGE_SIZE <==> |s| <= 0x3B_8000
    ensures LOAD_OFFSET + |Loaded(s, garbage)| <= PAGE_SIZE + 28
    ensures 0x800_0000 + LOAD_OFFSET == 0x804_8000 && PAGE_SIZE == 0x40_0000
  {
    if |s| <= HEADER_SIZE + LOAD_SIZE {
      assert s == s[..HEADER_SIZE] + s[HEADER_SIZE..];
    }
  }
}
