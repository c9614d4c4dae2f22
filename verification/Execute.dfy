/** execute of syscall.S over the loader of syscall_funcs.c: the file decides which image the process table sees. */
module Execute {
  import opened Filesystem
  import opened Stacks
  import opened Processes

  /** The image in a file, as the loader sees it. The header of a file that is too short is filled up with old bytes. */
  ghost function ImageOf(file: seq<int>, garbage: seq<int>): Stacks.Image
    requires |garbage| == HEADER_SIZE
  {
    var header := Header(file, garbage);
    if header[..4] == MAGIC then Loadable(Word(header[24..28])) else NotLoadable
  }

  /** execute, once the name has been resolved. */
  method ExecuteFile(table: TaskTable, img: Filesystem.Image, inode: nat, buf: array<int>, mem: array<int>, sp: int)
    returns (o: Outcome)
    requires table.Valid() && Filesystem.Readable(img, inode)
    requires buf.Length == HEADER_SIZE && mem.Length >= PAGE_SIZE + HEADER_SIZE && buf != mem
    modifies table`current, table`vmem, table.pcbs, buf, mem
    ensures table.Valid()
    ensures (table.View(), o) == ExecuteStep(old(table.View()), sp, ImageOf(FileBytes(img, inode), old(buf[..])))
  {
    hide ExecuteStep, Header, FileBytes;
    ghost var k, image := table.View(), ImageOf(FileBytes(img, inode), buf[..]);
    var pid := table.FindFreePcb();
    var ok, entry := LoadExec(img, inode, buf, mem, pid != -1);
    if !ok {
      NotSetUp(k, sp, image);
      return Failed;
    }
    o := table.ExecuteProgram(sp, Loadable(entry));
  }

  /** Without an image or without a slot nothing happens. */
  lemma NotSetUp(k: State, sp: int, image: Stacks.Image)
    ensures image.NotLoadable? || FindFree(k.pcbs, 1) == -1 ==> ExecuteStep(k, sp, image) == (k, Failed)
  {
  }

  /** From a state of three call stacks execute is a call, or fails without effect, exactly unless the file's entry word
      is misread while a slot is free. */
  lemma ExecuteIsCall(k: State, c: CallStacks, sp: int, file: seq<int>, garbage: seq<int>)
    requires LikeCalls(k, c) && |garbage| == HEADER_SIZE && IsBytes(file) && IsBytes(garbage)
    ensures var e := Event.Execute(sp, ImageOf(file, garbage));
            LikeCalls(ExecuteStep(k, sp, e.image).0, CallStep(c, e).0) <==>
            !(Header(file, garbage)[..4] == [0x7F, 0x45, 0x4C, 0x46] && Running(c) < 10
              && Header(file, garbage)[24..28] in {[1, 0, 0, 0], [0xFF, 0xFF, 0xFF, 0xFF]})
  {
    HeaderBytes(file, garbage);
    ErrorBytes(Header(file, garbage)[24..28]);
    hide LikeCalls, CallStep, ExecuteStep, Header, Word;
    StepIsCallStep(k, c, Event.Execute(sp, ImageOf(file, garbage)));
  }
}
