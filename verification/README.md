# A verified model of the zbiggie kernel and its programs

Dafny 4.11 models of the stateful parts of a small x86 teaching kernel (three virtual terminals, a process table
with a round-robin scheduler, a read-only block filesystem, a line editor with history) and of two of its user
programs (the `fish` blink list and `grep`), with proofs of what they do on every input and over every run.
`dafny verify dfyconfig.toml` checks everything.

Each component is modelled in the form it has in the source: globals that are updated in place are the fields and
arrays of a class, loops are loops. Every method is proved against a specification function or a reference
definition, and the properties below are proved about those.

| file | component | reference it is measured against |
|---|---|---|
| `Stacks.dfy`, `Processes.dfy`, `Execute.dfy` | PCB slots, parent links, run queue, saved stack pointers, execute on a file | three stacks of saved stack pointers with no pids at all, and the call stacks they are meant to be |
| `VideoFrames.dfy`, `TextLog.dfy`, `Terminals.dfy` | `putc`, `mt_putc`, `scroll`, `switch_video`, the 0xB8000 page | one unbounded log of wrapped rows per terminal, fed only with that terminal's characters |
| `Paging.dfy` | page directories and tables, and the processor's walk | the address map a process is meant to have |
| `Filesystem.dfy`, `Directory.dfy`, `Descriptors.dfy` | block reads, chunked reads, the loader, directory and names, file descriptors | flat byte sequences, C strings, the history of calls |
| `EditorSpec.dfy`, `LineEditor.dfy`, `History.dfy` | the input line, `term_read`, the command ring | a cursor in a list, the list of saved commands |
| `BlinkPhase.dfy`, `Blink.dfy` | blink list inside an array, its allocator, the tick | a sequence of items, and a phase modulo the period |
| `GrepSpec.dfy`, `Grep.dfy` | the buffered line search | the filter of the file's lines |
| `Memory.dfy`, `Numerals.dfy` | `memcpy`, `memmove`, `memset`, `itoa`, `strrev`, `%#x`, `%d` | the old bytes, the value of a numeral |

## Where the code falls short of the obvious claim

The code is modelled as it is. Where the obvious property is false of it, the exact condition is proved.

- `mt_putc` tests the foreground column when it decides to wrap. Under output, ticks, terminal switches and clears all
  screens stay right at every moment of a run exactly when no background process fills a row
  (`Terminals.InterleavingFaithful`); eighty characters in a row are enough to break one (`Terminals.LongBackgroundRow`),
  and a few more to lose visible text (`Terminals.LostText`). Recalling a command is not among those events.
- Enter and a read on the bottom row leave `write_y` at -1 until the program prints something. A command recalled in that
  time is stored as the line, and Enter and a read return it (`History.UpTimes`), but it can be seen exactly if `write_y` is
  not negative (`LineEditor.Editor.Recall`); otherwise it is written in front of the VGA frame, into visible cells of
  terminal 2's back buffer (`LineEditor.Editor.RecallAfterRead`, `Terminals.StrayWrite`).
- `execute` takes an entry word of 1 or 0xFFFFFFFF for an error of the loader, which has set the process up by then. The
  caller gets -1 and runs on as its own child, and its stack pointer has not been saved (`Processes.MisreadEntry`). The kernel
  is call and return at every moment of a run exactly when this does not happen while a slot is free
  (`Processes.RunIsCallStacks`); what it is in all runs is stated as well (`Processes.RunRefines`).
- The base shells get pids 1, 2 and 3 exactly when no program is started between the first and the third timer tick
  (`Processes.BootExact`); one early `execute` makes a shell's `halt` resume another terminal's shell
  (`Processes.EarlyExecuteTangles`). Halting a shell in that time does no harm.
- Backspace does what it should exactly on a non-empty line with the cursor not just before the last of several characters
  (`LineEditor.Editor.PutBackspace`). On an empty line it takes the line size to -1; just before the last of several
  characters it shortens the line and leaves a NUL in place of the character before the cursor.
- Moving the cursor to the right keeps it on a screen cell of its own exactly when it does not stand on the last cell of the
  screen (`LineEditor.Editor.TermMoveRight`). After a character has been inserted into a line that reaches up to that cell,
  the cursor gets out of step with the line, and the left arrow stops one character short of the line's beginning
  (`LineEditor.Editor.InsertedAtLastCell`). Over a whole run of keys the screen follows for as long as no such step and no
  such backspace comes (`LineEditor.Editor.PressShown`), and the buffer, from any state in which it holds the line, for as
  long as no such backspace and no left arrow that protected text stops comes (`LineEditor.Editor.PressAll`).
- `term_read` takes the line of the terminal that is shown when it copies. After a switch it gets the beginning of a line
  that is still being edited there, and takes it away (`LineEditor.Editor.ReadUnderEditing`).
- `grep` cuts lines longer than its buffer, and it reads one byte behind the buffer that nothing has written: if a newline
  stands there, the first full buffer that ends inside a line cuts that line as well. For every pattern it prints exactly the
  matching lines exactly when each line has at most 1024 bytes or no ASCII byte and, with a newline behind the buffer, that
  cut falls between lines or into a line without an ASCII byte (`Grep.GrepPrintsMatchingLines`). An empty line followed by
  1024 letters is a file of fitting lines that is cut (`GrepSpec.CutFile`).
- `grep` compares the pattern's first byte as a signed character with an unsigned byte, so it finds nothing for a pattern that
  starts above 127, nor for the empty one. "Matching" above includes that; it is the same as containing the pattern, in all
  files, exactly for patterns that start below 128 and for those that contain a newline (`GrepSpec.MatchingIsContaining`).
- A blink length of 0, or above 0x8000, lasts one tick, because the countdown is tested as a signed word. The phase law is
  stated for all 16-bit lengths (`BlinkPhase.PhaseLaw`); the law with the lengths as they are given holds exactly for lengths
  1 to 0x8000 (`BlinkPhase.PlainLengths`).
- A blink structure at location 0 passes the range test but marks its own slot as free: after it is added no well-formed list
  exists (`Blink.BlinkList.AddBlink`). The next add gets the same slot and links it to itself, so that the tick never comes to
  the end of the list (`Blink.BlinkList.AddAfterZero`).
- An empty command takes up one of the 25 places of the command history, but the up-arrow passes over it (`History.SearchLeads`).
- A negative byte count for `read` is no error: it reads nothing or everything that is left (`Filesystem.NegativeCount`).
- The loader's second read may store up to 28 bytes past the user page; it stays inside exactly for files of at most 0x3B8000
  bytes (`Filesystem.LoadedWhole`).
- `read_data` fetches one table word too many for a file that fills all 1023 blocks; it copies nothing from there, so the read is
  right for that length too (`Filesystem.ReadData`).
- Looking up a listed name finds that entry exactly when no earlier one shares its first 31 characters (`Directory.ListedLookUp`).

## Model

| member | source | states |
|---|---|---|
| `Processes.FindFree` | student-distrib/tasking.c:21-29 | the search gives the lowest free pid, or -1 exactly when all ten are present |
| `Processes.ChainsCount` | student-distrib/tasking.c:21-29 | the chains have as many members in all as there are present processes |
| `Processes.TaskTable.FindFreePcb` | student-distrib/tasking.c:21-29 | the loop finds that pid, looking one slot past the table before it stops |
| `Processes.TaskTable.constructor` | student-distrib/tasking.c:47-51 | the state before the first tick: no process present, empty run queue |
| `Processes.TaskTable.SetContext` | student-distrib/tasking.c:194-201 | the current process and the 0xB8000 page change together, nothing else does |
| `Processes.TaskTable.SetUpProcess` | student-distrib/tasking.c:174-186 | the lowest free slot gets a PCB whose parent is the caller, and becomes the current process; a full table changes nothing |
| `Processes.TaskTable.LaunchImage` | student-distrib/syscall.S:110-133 | that, and then the caller's stack pointer goes into the caller's PCB |
| `Processes.TaskTable.ExecuteProgram` | student-distrib/syscall.S:78-109 | the same for an image that loads, unless its entry word is misread: then the new process stays and the call fails; an image that does not load changes nothing |
| `Processes.TaskTable.HaltProgram` | student-distrib/syscall.S:58-71 | base shells are relaunched, others hand back their parent's saved stack pointer |
| `Processes.TaskTable.NextTask` | student-distrib/tasking_funcs.S:12-42 | the preempted stack pointer is saved and the next terminal's is restored, or a shell is launched on an unused terminal |
| `Processes.TaskTable.SwitchVideo` | student-distrib/page.c:153-171 | the foreground changes while the scheduled process stays, and the page is remapped |
| `Processes.FullExactlyAtTen` | student-distrib/tasking.c:21-29 | no slot is free exactly when the three chains have ten members in all |
| `Processes.ChainsPush` | student-distrib/tasking.c:174-186 | setting up a process pushes it on its terminal's parent chain and keeps the three chains disjoint and complete |
| `Processes.ChainsPop` | student-distrib/tasking.c:148-156 | clearing the top of a nested chain pops it and keeps the other chains |
| `Processes.BaseShells` | student-distrib/syscall.S:60-62 | the comparison with 4 singles out exactly the bottoms of the chains |
| `Processes.RootSlotIsLowest` | student-distrib/syscall.S:59-62 | halting a base shell gets the same pid back from the lowest-free search |
| `Processes.ParentWaits` | student-distrib/syscall.S:63-67 | the parent that halt returns to is the next on the chain and still holds the stack pointer last saved for it |
| `Processes.ExecuteRefines` | student-distrib/syscall.S:78-109 | execute is a push on the running terminal's stack, with the caller's stack pointer saved unless the entry word is misread; refused without effect exactly when nothing loads or ten run |
| `Processes.HaltRefines` | student-distrib/syscall.S:58-71 | a nested halt is a pop that restores the stack pointer last saved for the parent; halting a base shell leaves all chains as they are |
| `Processes.TickRefines` | student-distrib/tasking_funcs.S:12-36 | a tick restores exactly the stack pointer saved when the next terminal was last preempted |
| `Processes.StepRefines` | student-distrib/tasking_funcs.S:12-42 | every tick, execute, halt and terminal switch, failing ones included, is one step of three stacks of saved stack pointers, with the same outcome |
| `Processes.RunRefines` | student-distrib/syscall.S:58-133 | the same for every run; at its end the present pids are the disjoint union of three non-empty parent chains rooted at pids 1, 2 and 3, and the page names the scheduled terminal's frame |
| `Stacks.StepFollows` | student-distrib/syscall.S:58-109 | a step on the saved stacks is call and return exactly unless an entry word is misread while a slot is free |
| `Processes.StepIsCallStep` | student-distrib/syscall.S:58-109 | the same of a step of the kernel, for every way to arrange its processes in chains |
| `Processes.RunIsCallStacks` | student-distrib/syscall.S:58-133 | a run is call and return at every moment exactly when no entry word is misread in it; then every outcome is that of the call stacks |
| `Processes.MisreadEntry` | student-distrib/syscall.S:91-99 | with such an entry word the call fails although the process is set up and current, and its halt restores a stack pointer saved earlier |
| `Processes.LaunchedExactly` | student-distrib/syscall.S:91-99 | with fewer than ten running, a program that loads is launched exactly if its entry word is neither 1 nor 0xFFFFFFFF |
| `Processes.OrdinaryRun` | student-distrib/syscall.S:58-133 | a run in which no program with one of these two entry words is executed is call and return throughout |
| `Processes.ShownTerminal` | student-distrib/page.c:153-171 | a terminal switch makes the given terminal the shown one and touches nothing of the processes; no other step changes it |
| `Execute.ExecuteFile` | student-distrib/syscall_funcs.c:88-126 | execute on a file: the process table takes the step of the image that the file's magic number and entry word make it |
| `Execute.ExecuteIsCall` | student-distrib/syscall.S:86-94 | from a state of three call stacks that is a call, or a failure without effect, exactly unless the file has the magic number, its bytes 24..27 are 01 00 00 00 or FF FF FF FF, and fewer than ten run |
| `Processes.ShownBeforeBoot` | student-distrib/page.c:153-171 | terminal switches before the first tick change nothing but the shown terminal and its page |
| `Processes.KernelFromPowerOn` | student-distrib/tasking_funcs.S:12-42 | every run from power-on, after any terminal switches, in which no program is started before the third tick, gives the outcomes of the saved stacks and ends on three chains rooted at pids 1, 2 and 3; and it is call and return exactly when no entry word is misread |
| `Processes.BootExact` | student-distrib/tasking_funcs.S:23-28 | three ticks from power-on, with any terminal shown, give base shells 1, 2 and 3 with their stack pointers saved exactly when no program was started between them |
| `Processes.EarlyExecuteTangles` | student-distrib/syscall.S:60-67 | a program started after the first tick makes the third shell pid 4, whose halt resumes pid 3 on the wrong terminal |
| `Processes.TowerRun` | student-distrib/syscall.S:58-133 | between boot ticks the number of processes stays unless a program is started, and then never comes down to it again |
| `TextLog.EmitRenders` | student-distrib/lib.c:351-386 | one character keeps frame and cursor the 25-row window of the log; the window moves exactly when the code scrolls |
| `TextLog.EmitDraws` | student-distrib/lib.c:351-386 | a character other than 10 and 13 stands in the cell under the cursor afterwards, which is one column on or at the next row's start; 10 and 13 only begin a row; the frame moves up exactly behind row 24 |
| `TextLog.BlindEmitRenders` | student-distrib/lib.c:318-341 | with another terminal's column tested, the same holds exactly when the row does not fill up |
| `TextLog.BlindEmitDraws` | student-distrib/lib.c:318-341 | the same with another column tested, but behind column 79 the cursor runs on |
| `TextLog.ClearRenders` | student-distrib/lib.c:36-47 | a cleared frame shows the empty log |
| `Terminals.StepFaithful` | student-distrib/lib.c:311-386 | foreground output, background output, tick, terminal switch and clear keep all three screens, cursors and the 0xB8000 page right exactly unless a background row fills up |
| `Terminals.InterleavingFaithful` | student-distrib/lib.c:311-386 | in every interleaving all screens show only their own characters at every moment exactly when no background row fills up |
| `Terminals.FaithfulFromBoot` | student-distrib/page.c:71-86 | the same from the state that boot leaves |
| `Terminals.BootFaithful` | student-distrib/kernel.c:288-296 | boot leaves three empty logs, coloured per terminal |
| `Terminals.Display.constructor` | student-distrib/page.c:71-86 | the frames, cursors and mapping that boot leaves |
| `Terminals.SwitchStays` | student-distrib/page.c:153-171 | swapping frames shows the new terminal's text and loses none of the old one's |
| `Terminals.PutcDraws` | student-distrib/lib.c:351-386 | that is what putc does to the shown terminal, in its colour, and it changes no other |
| `Terminals.MtPutcDraws` | student-distrib/lib.c:311-344 | and what mt_putc does to the scheduled terminal |
| `Terminals.LongBackgroundRow` | student-distrib/lib.c:330-339 | filling up a background row, whatever stood in it, makes a screen wrong at some moment |
| `Terminals.LostText` | student-distrib/lib.c:318-341 | 81 background characters, a newline and one more: the last one overwrites the 81st on the screen |
| `Terminals.StrayWrite` | student-distrib/lib.c:363-369 | another character in a visible cell of a background terminal's frame makes that screen wrong |
| `Terminals.PutcWindow` | student-distrib/lib.c:538-563 | any characters leave the frame the window of the log with the cursor in bounds at its end, other terminals untouched, and write_y naming the same log row |
| `Terminals.CopyRowUp` | student-distrib/lib.c:514-520 | one row moves up, in place, no other changes |
| `Terminals.ScrollFrame` | student-distrib/lib.c:538-559 | the in-place loops shift all rows up by one and blank the last |
| `Terminals.ClearFrame` | student-distrib/lib.c:41-44 | all visible cells are blanked, the ones below stay |
| `Terminals.Display.WriteCell` | student-distrib/lib.c:318-339 | the character, the bounds test of the address and the wrap, for either column that is tested |
| `Terminals.Display.PutcForeground` | student-distrib/lib.c:351-386 | the whole video state after putc |
| `Terminals.Display.PutcScheduled` | student-distrib/lib.c:311-344 | the whole video state after mt_putc, written through the 0xB8000 page |
| `Terminals.Display.NextTerminal` | student-distrib/tasking.c:194-211 | the scheduled terminal moves on and the page follows |
| `Terminals.Display.SetVmemTable` | student-distrib/page.c:96-107 | the page names the VGA frame for the shown terminal and the back buffer for any other |
| `Terminals.Display.ShowTerminal` | student-distrib/page.c:153-171 | the whole video state after switch_video |
| `Terminals.Display.ClearForeground` | student-distrib/lib.c:36-47 | the whole video state after clear |
| `Paging.InitPd` | student-distrib/page.c:114-127 | the five entries of a process directory, all others absent |
| `Paging.InitLowTable` | student-distrib/page.c:40-45 | only the video page of low memory is present |
| `Paging.InitVideoTable` | student-distrib/page.c:50-53 | the three back buffers, and the VGA frame behind them |
| `Paging.SetVmemTable` | student-distrib/page.c:96-107 | the video entry names the frame of the given terminal |
| `Paging.UserTranslations` | student-distrib/page.c:114-127 | for every 32-bit address and every pid, user accesses reach exactly the process's 4M image at 128M and the mapped video page |
| `Paging.KernelTranslations` | student-distrib/page.c:114-127 | under any process the kernel reaches itself at 4M..8M, the mapped frame at 0xB8000, the back buffers, the VGA frame behind them and the process's memory, and nothing else |
| `Paging.FramesDisjoint` | student-distrib/page.c:47-53 | images, kernel, low memory, VGA frame and back buffers never overlap |
| `Paging.Isolation` | student-distrib/page.c:122-126 | two processes share no byte but the video page |
| `Paging.KernelUnreached` | student-distrib/page.c:114-127 | no process reaches the kernel or its page tables at any address, nor low memory except the VGA page while the video page names it |
| `Filesystem.CopyBlocks` | student-distrib/zbigfs.c:186-193 | the block loop and its last copy deliver the flat file's bytes, whatever the block table |
| `Filesystem.ReadData` | student-distrib/zbigfs.c:178-195 | exactly the slice from offset to the shorter of offset + length and the file length is written, its size returned, no other byte touched; 0 past the end or when offset + length wraps; -1 for an inode out of range |
| `Filesystem.OpenFile.RegularRead` | student-distrib/zbigfs.c:32-37 | the slice at the position is delivered and the position moves behind it; -1 and no change for an inode out of range |
| `Filesystem.ReadIsChunk` | student-distrib/zbigfs.c:32-37 | a read inside the file delivers what follows the position, cut at the end |
| `Filesystem.ChunksConcatenate` | student-distrib/zbigfs.c:32-37 | chunks of any sizes, each taken where the last one ended, join to one stretch of the file, never past its end |
| `Filesystem.ReadAll` | student-distrib/zbigfs.c:32-37 | any sequence of reads of an open file delivers one stretch of the file from the old position on, without gaps or repeats, and leaves the position behind it |
| `Filesystem.ReadFromOpen` | student-distrib/zbigfs.c:32-37 | reads after an open deliver the file's beginning, and the whole file once their sizes add up to its length |
| `Filesystem.NegativeCount` | student-distrib/zbigfs.c:32-35 | what a negative count reads |
| `Filesystem.LoadExec` | student-distrib/syscall_funcs.c:88-126 | loading succeeds exactly with the magic number 7F 45 4C 46 and a free slot; then header and body lie at LOAD_ADDR, the entry point is the 32-bit number whose bytes, lowest first, are 24..27, and nothing else changed; for an inode out of range the old header buffer decides |
| `Filesystem.WordBytes` | student-distrib/syscall_funcs.c:123 | four bytes are those of exactly one 32-bit number |
| `Filesystem.PlaceImage` | student-distrib/syscall_funcs.c:120-121 | header copy and body read join without a gap |
| `Filesystem.LoadedWhole` | student-distrib/syscall_funcs.c:103-121 | an executable with a full header arrives whole, and inside the user page exactly up to 0x3B8000 bytes |
| `Directory.StrNCmp` | student-distrib/lib.c:849-867 | zero exactly when the C strings in the first n bytes are equal, otherwise the difference of the first characters that differ |
| `Directory.StrNCpy` | student-distrib/lib.c:899-914 | the C string, padded with NULs to n bytes, and no byte beyond |
| `Directory.PaddedKeeps` | student-distrib/lib.c:899-914 | copying a name keeps the C string it denotes |
| `Directory.ReadDentryByIndex` | student-distrib/zbigfs.c:159-167 | the entry's type and name, and its inode number for type 2 only, or an error past the end |
| `Directory.ReadDentryByName` | student-distrib/zbigfs.c:142-150 | the same of the first entry that agrees in its first 31 characters, or an error when none does |
| `Directory.EndedKeeps` | student-distrib/lib.c:899-914 | a name that ends within its 32 bytes is kept by copies of any size |
| `Directory.OpenDirectory.DirectoryRead` | student-distrib/zbigfs.c:47-53 | the next name, padded to the requested size; 0 at the end, for ever |
| `Directory.ListNames` | syscalls/ece391ls.c:18-26 | repeated 32-byte reads list every entry once, in order, and stop |
| `Directory.ListedLookUp` | student-distrib/zbigfs.c:142-150 | a listed name leads back to its entry exactly when no earlier entry has the same first 31 characters |
| `Descriptors.FdTable.constructor` | student-distrib/tasking.c:174-186 | a new process has stdin and stdout on descriptors 0 and 1 |
| `Descriptors.FdTable.GetNewFd` | student-distrib/tasking.c:83-93 | the lowest free descriptor is claimed, or -1 when none is |
| `Descriptors.FdTable.FreeFd` | student-distrib/tasking.c:101-107 | succeeds exactly on descriptors 2..7 in use |
| `Descriptors.FdTable.SyscallOpen` | student-distrib/syscall_funcs.c:27-39 | a found name gets the lowest free descriptor of 2..7; a failed open leaves the table as it was |
| `Descriptors.FdTable.OpenName` | student-distrib/syscall_funcs.c:27-39 | opening a name gives the lowest free descriptor the file of the first entry that agrees, by its type and at position 0; without such an entry or descriptor nothing changes |
| `Descriptors.FdTable.OpenListed` | student-distrib/zbigfs.c:83-102 | opening the listed name of a regular file opens its inode, unless an earlier entry shares its first 31 characters |
| `Descriptors.FdTable.SyscallClose` | student-distrib/syscall_funcs.c:73-80 | frees exactly descriptors 2..7 in use and touches no other |
| `Descriptors.RunOfCalls` | student-distrib/tasking.c:70-107 | after any run the standard streams are untouched, and a descriptor is in use exactly when its last open has not been closed, and has that file's inode or its type's operations, at position 0 |
| `LineEditor.Editor.constructor` | student-distrib/terminal.c:93-106 | an empty line at the top left |
| `LineEditor.Editor.TermMoveLeft` | student-distrib/terminal.c:360-367 | the cursor moves left whenever it is not at the start and stands behind the protected text; the second never stops it while it has its own screen cell |
| `LineEditor.Editor.TermMoveRight` | student-distrib/terminal.c:373-380 | the cursor moves right up to the end of the line, and keeps its own screen cell exactly when it was not on the last one |
| `LineEditor.Editor.ShiftUp` | student-distrib/terminal.c:172-175 | the loop makes room at the cursor |
| `LineEditor.Editor.PutChar` | student-distrib/terminal.c:166-181 | a character is inserted at the cursor while there is room, and the cursor keeps its screen cell through the scroll |
| `LineEditor.Editor.PutBackspace` | student-distrib/terminal.c:129-163 | deletes at the end and blanks elsewhere, exactly on a non-empty line with the cursor not before the last of several characters; and what it does otherwise |
| `LineEditor.Editor.TermPutc` | student-distrib/terminal.c:112-183 | 10 and 13 finish the line, 8 is the backspace, any other character is inserted |
| `LineEditor.Editor.HoldLeft` | student-distrib/terminal.c:360-367 | repeated, it goes as far left as the line's beginning and the protected text let it |
| `LineEditor.Editor.InsertedAtLastCell` | student-distrib/terminal.c:166-181 | a line up to the last cell, an insertion, a step right: the way back left ends at character 1, in a list it ends at 0 |
| `LineEditor.Editor.PressAll` | student-distrib/terminal.c:112-183 | from any state in which the buffer holds the line, a run of keys is editing in a list up to and exactly up to the first backspace out of order or stopped left arrow, with 0 <= cur_pos <= cur_size <= 127 |
| `LineEditor.Editor.PressShown` | student-distrib/terminal.c:112-183 | with the cursor on the line's cell, the screen follows as well up to and exactly up to the first unclean key |
| `EditorSpec.ShownRun` | student-distrib/terminal.c:112-183 | clean keys are sound, and keep the screen cursor on the document's exactly as long as they are clean |
| `EditorSpec.OneKeyMeans` | student-distrib/terminal.c:129-181 | an insertion leaves the text on both sides; a backspace behind it takes it back at the end and blanks it elsewhere; left and right undo each other |
| `LineEditor.Editor.Enter` | student-distrib/terminal.c:116-127 | the finished line waits with its newline and the editor is empty |
| `LineEditor.Editor.TermRead` | student-distrib/terminal.c:318-344 | a large enough read returns the shown terminal's buffer up to its first newline or NUL, and a newline; a shorter one its beginning, a negative count nothing; what was read is cleared |
| `LineEditor.Editor.ReadLine` | student-distrib/terminal.c:318-344 | of a finished line that is the text, and an empty line at the start of a row remains |
| `LineEditor.Editor.ReadUnderEditing` | student-distrib/terminal.c:318-344 | of a line still being edited it is the line's beginning, which the buffer loses |
| `LineEditor.Editor.LineRoundTrip` | student-distrib/terminal.c:112-344 | from any state in which the buffer holds the line, keys, Enter and read return exactly the edited text and a newline |
| `LineEditor.Editor.TypeAndRead` | student-distrib/terminal.c:112-344 | up to 127 characters, some of them taken back with backspace, Enter and a read return exactly the remaining ones and a newline |
| `LineEditor.Editor.PutVideo` | student-distrib/lib.c:351-386 | the character at its cell, if the address test lets it pass, and behind the last cell all rows one up with a blank one at the bottom |
| `LineEditor.Editor.Advance` | student-distrib/lib.c:443-471 | a printed character moves the cursor one cell on, scrolling takes write_y along |
| `LineEditor.Editor.MoveLeft` | student-distrib/lib.c:127-140 | one cell back, except at the first |
| `LineEditor.Editor.MoveRight` | student-distrib/lib.c:106-119 | one cell on, except at the last |
| `LineEditor.Editor.Recall` | student-distrib/terminal.c:263-275 | the row's command becomes the line, with the cursor at its end, wherever the line begins; it is seen exactly if write_y is not negative; and which cells change |
| `LineEditor.Editor.RecallAfterRead` | student-distrib/terminal.c:263-275 | after Enter and a read on the bottom row a recalled command is stored, but written to the 80 cells in front of the screen, visible ones of terminal 2 among them |
| `LineEditor.BlankedThenWritten` | student-distrib/terminal.c:266-275 | the blanking and the copy leave text and blanks in their cells, with what stood before them moved up by whole rows and nothing outside the screen changed, or else exactly the cells in front of it |
| `History.AllKept` | student-distrib/terminal.c:225-237 | without empty commands the remembered ones are the last 25, or all there are |
| `History.Ring50.SaveHist` | student-distrib/terminal.c:225-237 | the command, empty or not, joins the remembered ones, the oldest of 25 goes, all other rows stay empty |
| `History.SearchLeads` | student-distrib/terminal.c:246-262 | downwards from the index, round the ring, the first row that is not empty is that of the next older non-empty command, or of the newest after the oldest |
| `History.Ring50.SeekUp` | student-distrib/terminal.c:246-262 | the search ends on that row, and fails exactly when no remembered command is non-empty |
| `History.RecalledSteps` | student-distrib/terminal.c:244-262 | one step of the search is one step of the closed form |
| `History.UpHist` | student-distrib/terminal.c:244-276 | the next older command is loaded into the line, wherever that begins, and is seen exactly if write_y is not negative; without a command the line stays |
| `History.UpTimes` | student-distrib/terminal.c:225-276 | with n non-empty commands among the last 25 saved, the j-th up-arrow, Enter and read return the (((j-1) mod n)+1)-th most recent of them, for every write_y |
| `BlinkPhase.TickMovesPhase` | fish/blink.S:64-86 | a tick moves an item one step through its period and leaves location and lengths |
| `BlinkPhase.PhaseLaw` | fish/blink.S:49-99 | n ticks after it was added a character is on exactly when n modulo the period is below the on-length, for all 16-bit lengths |
| `BlinkPhase.PlainLengths` | fish/blink.S:49-99 | a character is on exactly when n modulo (on + off) is below on, at every n, exactly when both lengths are in 1..0x8000 |
| `BlinkPhase.BlinkLaw` | fish/blink.S:105-162 | the same inside the list, through any run that neither removes nor synchronises the item |
| `BlinkPhase.SyncPutsInStep` | fish/blink.S:267-275 | a sync makes status, countdown and lengths of the target those of the source, keeps its location, and changes no other item |
| `BlinkPhase.StaysInStep` | fish/blink.S:267-275 | they stay equal through every later run, until one is removed or synchronised again |
| `BlinkPhase.SyncedStayInStep` | fish/blink.S:267-275 | from a sync on, through any run that spares both, they are in step |
| `BlinkPhase.AddedIsFound` | fish/blink.S:105-162 | an added item is in front, with its location and lengths, and is found there; removing it again gives the old list |
| `BlinkPhase.FindsLowWord` | fish/blink.S:351-379 | a 32-bit argument finds the first item at the location in its low word |
| `Blink.SpareSlot` | fish/fish.c:161-171 | a slot is free exactly while fewer than 2000 are on the list |
| `Blink.PushWellFormed` | fish/blink.S:159-162 | linking a free slot in keeps the list and puts the item in front |
| `Blink.PushAtZero` | fish/fish.c:165 | linking in an item at location 0 leaves no well-formed list |
| `Blink.AddedSpec` | fish/blink.S:105-184 | on a well-formed list the array after an add holds the item in front, and the free-slot search fails exactly when 2000 are on it |
| `Blink.ZeroTwiceLoops` | fish/fish.c:161-171 | after an add at location 0 the free-slot search gives the same slot again, and the next add links it to itself for ever |
| `Blink.BlinkList.AddAfterZero` | fish/blink.S:105-184 | the two adds: from the list head no number of links leads to the end |
| `Blink.CutSpec` | fish/blink.S:206-222 | unlinking and zeroing the first match deletes just that item and keeps the list |
| `Blink.SyncSpec` | fish/blink.S:267-275 | synchronising changes just the target item and no link |
| `Blink.BlinkList.Malloc` | fish/fish.c:161-171 | the first free slot, or NULL exactly when all 2000 are on the list |
| `Blink.BlinkList.FindHelper` | fish/blink.S:351-379 | the walk finds the first item at the location in the argument's low 16 bits, or NULL |
| `Blink.BlinkList.AddBlink` | fish/blink.S:105-184 | the array after the add, on any array; push-front on a well-formed one; fails exactly for a location off the screen or without a free slot; the list stays well-formed exactly for non-zero locations |
| `Blink.BlinkList.RemoveBlink` | fish/blink.S:187-237 | the first match is deleted and its slot is free again; fails exactly without a match |
| `Blink.BlinkList.AddThenRemove` | fish/blink.S:105-237 | a removal undoes an addition at the same non-zero location |
| `Blink.BlinkList.Unlink` | fish/blink.S:206-217 | the search for the pointer to the slot ends and redirects exactly that pointer |
| `Blink.BlinkList.SyncBlink` | fish/blink.S:240-300 | copies between the first matches; fails exactly when one is missing |
| `Blink.BlinkList.RtcTasklet` | fish/blink.S:49-99 | one pass ticks every item once and leaves the list as it is |
| `Blink.RunEvents` | fish/blink.S:105-237 | any run at non-zero locations keeps the list finite and acyclic, its nodes exactly the slots with a location |
| `GrepSpec.GrepFiltersLines` | syscalls/ece391grep.c:40-51 | the reference output is the filter of the lines |
| `GrepSpec.MatchingIsContaining` | syscalls/ece391grep.c:42-51 | matching is containing the pattern, in every file, exactly for patterns that start below 128 or contain a newline |
| `GrepSpec.FittingLines` | syscalls/ece391grep.c:29-57 | searching by buffer pieces finds what searching lines finds, if every line fits |
| `GrepSpec.PiecesExactlyLines` | syscalls/ece391grep.c:29-57 | for all patterns together it does so exactly when each line has at most 1024 bytes or no ASCII byte |
| `GrepSpec.HarmlessSplit` | syscalls/ece391grep.c:29-57 | cutting the text where a line starts or ends, or inside a line without ASCII bytes, changes nothing that is printed |
| `GrepSpec.HarmfulSplit` | syscalls/ece391grep.c:29-57 | any other cut is seen with the pattern that is one ASCII byte of the cut line |
| `GrepSpec.CutExactlyLines` | syscalls/ece391grep.c:29-57 | with the forced cut, for all patterns together, exactly the matching lines exactly when the lines fit and the cut is harmless |
| `GrepSpec.CutFile` | syscalls/ece391grep.c:29-57 | an empty line and 1024 letters: fitting lines, printed as 1023 letters and one |
| `Grep.StrNCmp` | syscalls/ece391support.c:35-46 | equal exactly when the whole pattern stands there before the line's end |
| `Grep.ShiftDown` | syscalls/ece391support.c:14-17 | the overlapping copy moves the unfinished line to the front, NUL included |
| `Grep.SearchLine` | syscalls/ece391grep.c:42-51 | true exactly when the line contains the pattern and the pattern starts with an ASCII byte |
| `Grep.ScanBuffer` | syscalls/ece391grep.c:28-57 | what one buffer shows, followed by what its carried-over rest and the file behind it show, is what was to be shown |
| `Grep.DoOneFile` | syscalls/ece391grep.c:20-60 | the search ends and prints exactly the matching pieces, once each and in order, wherever the buffers end and whatever stands behind the buffer |
| `Grep.GrepPrintsMatchingLines` | syscalls/ece391grep.c:20-60 | for all patterns that is exactly the matching lines exactly when each line fits and, with a newline behind the buffer, the forced cut does no harm |
| `Grep.GrepPrintsContainingLines` | syscalls/ece391grep.c:20-60 | for all patterns that start below 128 what is printed is exactly the lines that contain the pattern, under the same condition on the file |
| `Memory.CopyBytes` | student-distrib/lib.c:764-774 | the byte loop delivers old source bytes and stops at a word boundary or at the end |
| `Memory.CopyWords` | student-distrib/lib.c:778-782 | the word loop delivers old source bytes |
| `Memory.MemCpy` | student-distrib/lib.c:760-800 | for every alignment and length the old source bytes are delivered and no other byte changes, also where a destination lies below an overlapping source |
| `Memory.MemMove` | student-distrib/lib.c:812-833 | the same for every overlap in either direction |
| `Memory.MemSet` | student-distrib/lib.c:659-696 | exactly n bytes become the low byte of c, for every alignment and sign of c |
| `Numerals.NumeralUnique` | student-distrib/lib.c:573-606 | no two numerals without leading zeros have the same value |
| `Numerals.StrRev` | student-distrib/lib.c:615-631 | the string is reversed in place |
| `Numerals.LowDigits` | student-distrib/lib.c:594-602 | the digit loop ends within 32 digits, lowest first, with a non-zero last one |
| `Numerals.LookupDigit` | student-distrib/lib.c:576 | the lookup string holds the ASCII character of each digit |
| `Numerals.Itoa` | student-distrib/lib.c:573-606 | for every 32-bit value and radix 2..36, the numeral of the value without leading zeros, in ASCII digits and capital letters |
| `Numerals.HexLength` | student-distrib/lib.c:216-225 | a 32-bit value has at most eight hexadecimal digits |
| `Numerals.FormatHex8` | student-distrib/lib.c:216-225 | always eight hexadecimal digits with the value printed |
| `Numerals.FormatSigned` | student-distrib/lib.c:242-254 | a minus sign and the numeral of the magnitude, the most negative value included |

## Left out

- Hardware: port I/O, interrupt controllers, timer and RTC programming, the hardware cursor, IDT, GDT, TSS and multiboot set-up. The scheduled tick, the keys and the loaded image arrive as events and parameters.
- Interrupts inside system calls: tick, execute, halt and terminal switch are atomic steps, although `setup_new_process` runs with interrupts on.
- The boot shell, which ticks and halts of base shells launch, is taken to load and to have an entry word that is not misread.
- Execution in user mode: what a caller does when it runs on as its own child after a misread entry word, in that process's memory.
- Page-table flags are fields of an entry, not bits of a word; aliasing of two virtual addresses of one frame is modelled by naming the frame.
- `biggest_y` of lib.c is written but never read, and is not part of the model.
- Screen cells under the line editor: `scoot_text` overwrites column 0 of each row below the cursor before it shifts the row, so only the cursor is modelled for typed keys; for recalled commands the characters of the cells are, without their colours.
- `down_hist`, which neither resets the cursor nor clears the line.
- Blocking in `term_read` and `rtc_read`: a read starts when its line has been finished.
- Memory.MemCpy: its contract leaves out destinations that overlap their source from above, where the C library does not define the result either.
- Directory.OpenDirectory.DirectoryRead: reads of more than 32 bytes of a name that fills its 32 bytes, which go on into the entry's type field, and negative counts.
- Directory.StrNCpy: the source tests `src[i]` before `i < n`; the model tests the bound first, since the extra byte read has no effect.
- Grep.DoOneFile: files and patterns are free of NUL bytes, as C strings are; failing opens, reads and closes, and the file name printed before each line, are not modelled.
- LineEditor.Editor.PutBackspace: what later keys do to a line whose size is -1 is not modelled.
- LineEditor.Editor.TermRead: a buffer without any newline or NUL in its 128 characters, where the source goes on into the next terminal's buffer.
- LineEditor.Editor.Recall: more than 76 rows above the screen the source writes to pages that are not present; the fault is not modelled.
- Numerals.Itoa: `strlen` and the string results are kept as ghost sequences; the other conversions of `printf` only copy.
- The characters that the blink list writes to the screen; after a sync the source shows the off character in every case.
- The keyboard handler: keys arrive as characters, none of them NUL, and as arrows.
- Pointer validation, argument parsing, `getargs` and `vidmap`; the shell, cat, ls output, counter, pingpong and test programs.
