# Verified models of FuzzyOS

Dafny models of the hard parts of FuzzyOS, a small x86 kernel with three text terminals, and proofs about them.
`dafny verify dfyconfig.toml` checks everything.

| file | models |
|---|---|
| `Options.dfy` | an optional value |
| `CStrings.dfy` | C strings, `itoa`, `strrev`, `%#x` (`student-distrib/lib.c`, `syscalls/ece391support.c`) |
| `Memory.dfy` | `memcpy` over a flat memory |
| `FileSystem.dfy` | `read_data`, `file_read`, the loader's reads, `ece391cat` |
| `Directory.dfy` | directory lookup and listing |
| `Grep.dfy`, `GrepFiles.dfy` | `ece391grep`'s streaming line search, and which files it reads right |
| `Blink.dfy` | the blinking-character list of the `fish` program and its slot pool |
| `Screen.dfy`, `Console.dfy` | wrapped text, one 25x80 screen, and three terminals sharing one video memory |
| `Paging.dfy` | the page directory and the shared page table, the page walk, the TLB, the mapping functions |
| `Layout.dfy` | the addresses of frames, process control blocks and kernel stacks |
| `Processes.dfy` | the abstract machine: processes held by value, nothing computed from addresses |
| `Runs.dfy` | what whole runs of the abstract machine keep |
| `Video.dfy` | which page the user video page is, as `vidmap`, the scheduler and display switches move it |
| `KernelMemory.dfy` | how one flat memory holds all processes of the abstract machine, and what each kind of write to it keeps |
| `Kernel.dfy` | the kernel: that memory, counters and registers, stepped as `execute`, `halt`, `scheduler`, `open`, `close` and `vidmap` step them, proved to refine the abstract machine |
| `Guarantees.dfy` | what that means for counters, page tables, memory, resumed processes and the video page |
| `Commands.dfy` | the command line of `execute`, the program found under its name, and the two system calls that take a name, on the kernel |

The walk of the page tables follows sections 4.3 (32-bit paging) and 4.6 (access rights) of the Intel SDM, volume 3A, and
the TLB section 4.10.

## How the kernel model is built

`Kernels.Kernel` keeps what the C code keeps: `pid`, `terminal_process_num`, the executing and displayed terminal,
`terminal_esp` and `terminal_ebp`, `tss.esp0`, `exception_flag`, the stack and frame pointers, the two paging arrays, a TLB, and physical
memory by address. Control blocks and kernel stacks are ranges of that memory, found by the same arithmetic on terminal
and depth as in the source. Its ghost field `spec` is a state of the abstract machine, in which every process simply owns
its memory, its descriptors and its saved context (stack pointer, frame pointer and the whole stack above it).
`Valid()` relates the two; every operation keeps it and changes `spec` by the corresponding abstract step, so the theorems
of `Runs.dfy` about arbitrary runs are theorems about the kernel.

## Results about the source that are not what one would expect

- `read_data` restarts its block counter at 0 and its position at each block, so it is right only in the cases of
  `FileSystem.Exact`; `FileSystem.ReadExactIff` shows that this condition is exact for files with distinct blocks, and
  `FileSystem.TailMisread` gives an instance. The loader, `cat` and `fish` only make calls that meet it
  (`FileSystem.LoaderExact`, `FileSystem.ChunkedReads`). `grep` does not: after carrying a line over it asks for what is
  left of its buffer. It reads a file right for every disk content exactly when the file has at most 4096 bytes or
  between 5119 and 8192 (`GrepFiles.StreamIsFileIff`), and prints exactly the matching lines of every file of short lines
  exactly for these lengths (`GrepFiles.PrintsLinesIff`). For any other length there is a file from which it prints a
  line for a letter that is not in it, or fails, or misses a letter that is (`GrepFiles.Misread`).
- Terminals are not private: a write by a background terminal moves the deletion limit of the displayed one, and not its
  own (`Consoles.WriteInterferes`). `Consoles.PrivateIff` says exactly when this can be seen, and
  `Consoles.WritePrivateIff` when a single write does no harm. It cannot be seen without a backspace
  (`Consoles.PrivateWithoutErasing`), and nothing happens when only displayed terminals write
  (`Consoles.PrivateWhenShown`).
- `halt` calls `close` after it has decremented the depth, so what is closed is every open descriptor of the parent
  (`Runs.HaltResumes`); the parent keeps its table exactly when none was open (`Guarantees.ExecuteAndHalt`). The halted
  process's own entries are cleared directly.
- `vidmap` maps VIDEO even for a process whose terminal is hidden, which then writes on the displayed terminal's screen
  until its next turn, and a display switch leaves a process its old page (`VideoPages.StrayPage`). From any tick on the
  video page is the one its terminal's screen is in exactly as long as neither happens (`VideoPages.OnScreenIff`,
  `Guarantees.TickAndRun`).
- `halt` unmaps the video page, so a parent that had called `vidmap` has none until its next turn
  (`Guarantees.ExecuteAndHalt`, `Guarantees.PreemptAndResume`).
- A root shell that is stopped by an exception restarts without the exception flag being cleared, so the next child that
  halts, in whatever terminal, is reported with 256 (`Runs.StaleException`, `Runs.StatusReported`).
- `vidmap` accepts four pointers whose word does not lie inside the user page (`Kernels.ScreenStartStrays`).
- `open` of a file of unknown type returns a descriptor and leaves it free, so the next `open` returns the same one
  (`Processes.NextOpen`, `Guarantees.OpenTwice`).
- A root shell that restarts keeps its open descriptors (`Runs.RestartKeepsDescriptors`).
- A `halt` of a root shell, or a boot tick, with no loadable "shell" leaves the executing terminal without any process,
  with depth -1 (`Kernels.Kernel.Halt`, `Kernels.Kernel.Tick`).
- `execute` compares the magic bytes in a buffer it does not initialise, so of a file of fewer than four bytes some are
  what the kernel stack held (`Commands.ProgramIs`, `Commands.LoadedIff`).
- Every terminal gets its shell at boot exactly when no program is left running in a shell at the second and the third
  tick (`Runs.BootUndisturbed`).
- Apart from the files it reads, `grep` is right exactly for texts without lines over 1024 bytes (`Grep.GrepPrintsLines`, with an instance in
  `Grep.LongLineMissed`).
- `deletec` takes back a character exactly when its cell was blank and printing it neither scrolled nor left a protected
  row (`Screens.DeleteUndoesPut`). Through any typing and erasing the screen shows the text that is left exactly when no
  backspace goes back over a newline or over a row end after a scroll (`Screens.TypedShowsIff`).
- In `mp1_ioctl_sync` the conditional move after `testb` never happens, so the destination's cell is painted with the off
  character whatever its status. That is right exactly when the source is off or both characters are the same
  (`Blink.SyncedCell`), and otherwise stays wrong until the new countdown has run out (`Blink.SyncedCellLater`).
- An item added at location 0 is on the list while its slot looks free, so the pool no longer agrees with any list
  (`Blink.BlinkList.Add`, `Blink.NoListAtZero`).

## Assumptions

- System calls and timer ticks are atomic steps.
- Nothing is executed before the three boot ticks are over (without this, `Runs.BootUndisturbed`).
- Process control blocks start zeroed, and an executable file named "shell" exists wherever a run is considered.
- While a process is in the kernel, the kernel's code writes only that process's kernel stack, down to the end of the next
  slot's control block, besides what the modelled operations write.
- A program image fits between 0x08048000 and the end of its 4MB page.

## Model

| member | source | states |
|---|---|---|
| `CStrings.StrLen` | student-distrib/lib.c:444-449 | the length of the C string at an address, however much memory follows it; the byte there is 0 and none before it is |
| `CStrings.StrNCmp` | student-distrib/lib.c:617-631 | the kernel's comparison loop returns the first signed difference within n bytes, looking at no byte beyond it |
| `CStrings.UserStrNCmp` | syscalls/ece391support.c:35-46 | the user library's loop, which counts n down, returns the first unsigned difference within n bytes, looking at no byte beyond it |
| `CStrings.CompareZero` | student-distrib/lib.c:606-631 | a comparison gives 0 if and only if the two texts agree on their first n bytes |
| `CStrings.CompareSign` | student-distrib/lib.c:617-631 | a non-zero result is the difference of the first bytes that differ, a byte from 128 on counting as negative in the kernel's copy and not in the user library's |
| `CStrings.StrCpy` | syscalls/ece391support.c:14-17 | copying a string within one memory moves it whole and changes nothing else, apart or overlapping towards lower addresses |
| `CStrings.StrNCpy` | student-distrib/lib.c:654-665 | stores exactly the text cut or NUL-padded to n bytes and nothing else, from a source with or without a terminator |
| `CStrings.StrRev` | student-distrib/lib.c:425-438 | the in-place swap loop reverses exactly the string and leaves the rest of memory alone |
| `Numerals.PutLowDigits` | student-distrib/lib.c:404-415 | the digit loop stores the digits lowest place first, and a terminator |
| `Numerals.LowDigitsReversed` | student-distrib/lib.c:400-418 | reversing the digits the loop produces gives the numeral written most significant digit first |
| `Numerals.DigitGlyph` | student-distrib/lib.c:390 | the digits are 0 to 9 and A to Z |
| `Numerals.Itoa` | student-distrib/lib.c:389-419 | for every 32-bit value and radix 2 to 36 the buffer holds the numeral and a NUL, in at most 33 bytes |
| `Numerals.NumeralParse` | student-distrib/lib.c:383-419 | reading an itoa numeral back by Horner's rule gives the value, and the numeral has no leading zero |
| `Numerals.NumeralUnique` | syscalls/ece391support.c:48-81 | any digit string without leading zero is the numeral of what it denotes, so itoa is the inverse of reading in both directions |
| `Numerals.NumeralLength` | student-distrib/lib.c:389-419 | 1 to 32 characters for every 32-bit value in every radix, at most 8 in hexadecimal |
| `Numerals.AlternateHex` | student-distrib/lib.c:79-98 | printf's %#x shows the numeral padded with zeros to 8 characters, from a start inside its 64-byte buffer |
| `Numerals.AlternateHexDenotes` | student-distrib/lib.c:79-98 | what %#x shows is exactly eight hexadecimal digits denoting the value |
| `Memory.Memcpy` | student-distrib/lib.c:540-577 | the head, double-word and tail loops leave at the destination the bytes the source had at the start, for disjoint ranges and for moves towards lower addresses |
| `FileSystem.ReadData` | student-distrib/filesys.c:113-164 | stores and returns exactly what the byte-numbered scan says, on every inode of the format's size, block number 0 included, and every offset, length and disk; -1 for a bad inode number or a null buffer; an exact read of a well-formed file stores byte k from place (offset + k) % 4096 of the block listed at (offset + k) / 4096 |
| `FileSystem.CopyBytes` | student-distrib/filesys.c:138-163 | the loop with its two resetting counters is that scan |
| `FileSystem.ReadFailsIff` | student-distrib/filesys.c:151-155 | a read from the start fails if and only if it gets as far as a block number 0 |
| `FileSystem.ScanExact` | student-distrib/filesys.c:139-163 | from any byte of an exact read, the rest of the loop yields the rest of the flat file up to the request or its end |
| `FileSystem.ReadExact` | student-distrib/filesys.c:113-164 | an exact read returns the wanted slice of the flat file and its length |
| `FileSystem.FlatBytes` | student-distrib/filesys.c:130-147 | byte k of the file is at place k % 4096 of the block that the inode lists at k / 4096 |
| `FileSystem.ReadBytes` | student-distrib/filesys.c:108-165 | an exact read returns how many bytes there are, each from its own place in its own listed block |
| `FileSystem.ScanOverruns` | student-distrib/filesys.c:139-156 | from an offset inside the first block a request past the end of a file of several blocks returns too much or fails |
| `FileSystem.ScanStrays` | student-distrib/filesys.c:129-148 | from an offset past the first block, the first byte after its block is taken from block 1 of the file |
| `FileSystem.ReadExactIff` | student-distrib/filesys.c:113-164 | read_data returns the right bytes for every disk content if and only if the call meets a condition on offset, length and file length |
| `FileSystem.TailMisread` | student-distrib/filesys.c:129-148 | for instance, 1024 bytes at offset 4000 of a file of 5000 bytes: the read returns 1024 bytes where 1000 are left |
| `FileSystem.OpenFile.FileRead` | student-distrib/filesys.c:258-276 | the request is cut to the file length, the bytes read_data gives are stored, and the position advances by the count unless it is -1 |
| `FileSystem.ChunkExact` | student-distrib/filesys.c:258-276 | a read of a chunk size dividing 4096 at a multiple of it returns exactly the next chunk and lands on a multiple again or at the end |
| `FileSystem.ChunkedReads` | student-distrib/filesys.c:258-276 | after n reads of such a size the bytes are exactly the first n chunks of the file, and at the end every later read returns 0 |
| `FileSystem.SmallFileReads` | student-distrib/filesys.c:113-164 | on a file of one block every read at every position returns the request or all that is left |
| `FileSystem.LoaderExact` | student-distrib/system_call.c:207-236 | execute's three reads return what the file has of the four magic bytes, of the entry word and of the whole image |
| `FileSystem.Cat` | syscalls/ece391cat.c:21-28 | cat's loop outputs exactly the file, and terminates |
| `Directory.NameOf` | student-distrib/filesys.h:22-28 | the name in a 32-byte field: free of NULs and equal to the field up to its terminator or its end |
| `Directory.NamePrefixOf` | student-distrib/filesys.h:22-28 | any NUL-free text that a field shows up to its terminator or its end is the field's name |
| `Directory.ReadDentryByName` | student-distrib/filesys.c:43-70 | succeeds if and only if the name has 1 to 32 bytes and one of the 64 slots has exactly that name, and returns the first such slot's type and inode bytes |
| `Directory.OpenDir.DirRead` | student-distrib/filesys.c:352-388 | returns the next entry's name and steps on, and 0 without moving after the last one |
| `Directory.List` | syscalls/ece391grep.c:84-94 | successive directory reads return every name once, in order, then 0 |
| `Directory.LookUpOwn` | student-distrib/filesys.c:43-96 | with distinct non-empty names, looking up a listed name finds that entry's own type and inode |
| `Directory.ListAndLookUp` | student-distrib/filesys.c:43-96 | listing a directory and looking every name up again returns every entry's own type and inode, in order |
| `Grep.ShortRead` | student-distrib/filesys.c:258-276 | a read that returns less than was asked for has come to the end of the file, and one at the end returns 0 |
| `Grep.NextRead` | syscalls/ece391grep.c:22-27 | each read returns the next bytes of the stream, as many as fit or as are left |
| `Grep.SearchLine` | syscalls/ece391grep.c:42-51 | the inner loop finds a match if and only if the non-empty pattern occurs in the line |
| `Grep.SearchOne` | syscalls/ece391grep.c:40-51 | one line is terminated in the buffer, searched, and printed once if it matches |
| `Grep.CarryLine` | syscalls/ece391grep.c:33-38 | an unfinished line is moved whole to the front of the buffer |
| `Grep.SearchBuffer` | syscalls/ece391grep.c:28-57 | one pass over the buffer prints what the pieces in it call for and carries exactly the unfinished line to the front |
| `Grep.DoOneFile` | syscalls/ece391grep.c:9-66 | on the kernel's own reads, right or wrong, the search terminates and prints the matching pieces of what was read, once each and in order, however the buffer boundaries fall; -1 if a read fails |
| `Grep.TakePiece` | syscalls/ece391grep.c:29-57 | what a text prints is what its first piece prints followed by what the rest prints |
| `Grep.LinesAre` | syscalls/ece391grep.c:29-33 | a newline byte ends a line, and what follows the last one is a line if it is not empty |
| `Grep.ContainsIff` | syscalls/ece391grep.c:42-51 | a pattern is reported in a text if and only if it is not empty and the text is something, the pattern, and something |
| `Grep.MatchesAre` | syscalls/ece391grep.c:45-48 | what is printed, read line by line, is the file name, a colon and the whole line, for exactly the lines that contain the pattern, in order |
| `Grep.PiecesPrintLines` | syscalls/ece391grep.c:20-60 | when no line exceeds the buffer, the pieces print exactly what the lines print |
| `Grep.GrepPrintsLines` | syscalls/ece391grep.c:20-60 | grep prints exactly the lines containing the pattern, for every pattern, if and only if no line is longer than 1024 bytes |
| `Grep.LongLineMissed` | syscalls/ece391grep.c:33-43 | for instance, a line of 1025 letters is not found by itself |
| `Grep.LetterPrinted` | syscalls/ece391grep.c:42-51 | for a pattern of one letter, a line is printed if and only if the letter is in the text |
| `GrepFiles.ExactStream` | syscalls/ece391grep.c:20-60 | if every read along a file, of whatever size, is one that read_data gets right, what grep reads is exactly the file |
| `GrepFiles.StreamExactIff` | syscalls/ece391grep.c:20-60 | for files of at most two blocks it reads the file if and only if every such read is right |
| `GrepFiles.RightLengthExact` | syscalls/ece391grep.c:20-60 | in files of at most 4096 bytes, or of 5119 to 8192, every such read is right, whatever lines are carried over |
| `GrepFiles.ExactPrintsLines` | syscalls/ece391grep.c:20-60 | then, without lines over 1024 bytes, it prints exactly the lines of the file that contain the pattern |
| `GrepFiles.GrepRightFile` | syscalls/ece391grep.c:9-66 | on a file of such a length, without lines over 1024 bytes, the program succeeds and prints, line by line, the file name, a colon and the whole line, for exactly the lines of the file that contain the pattern, in order |
| `GrepFiles.Misread` | syscalls/ece391grep.c:22 | for every other length there is a file of short lines from which it fails, or prints a line for a letter that is not in the file, or prints none for one that is |
| `GrepFiles.StreamIsFileIff` | syscalls/ece391grep.c:20-60 | it reads the file, for every disk content, if and only if the length is at most 4096 or between 5119 and 8192 |
| `GrepFiles.PrintsLinesIff` | syscalls/ece391grep.c:9-66 | from files of short lines it prints exactly the matching lines, for every disk content and every pattern, if and only if the length is one of these |
| `GrepFiles.TwoBlocksMisread` | syscalls/ece391grep.c:22 | for instance, a file of 4200 bytes is misread |
| `Blink.TicksPhase` | fish/blink.S:64-89 | after k ticks an item is at its phase plus k modulo its period, with unchanged lengths |
| `Blink.BlinksOnSchedule` | fish/blink.S:60-90 | k ticks after it was added an item is on if and only if k mod (on + off) < on, with zero and oversized lengths lasting one tick |
| `Blink.Lockstep` | fish/blink.S:267-275 | two items with the same lengths, countdown and status keep the same countdown and status for ever |
| `Blink.LinkFront` | fish/blink.S:159-162 | linking a new item in front of a list over the pool gives a list of the pool with it in front |
| `Blink.UnlinkItem` | fish/blink.S:206-222 | skipping any item and clearing its slot leaves a list of the remaining items in the same order |
| `Blink.PoolConserved` | fish/fish.c:160-175 | free slots and list items always add up to 2000 |
| `Blink.FreeExists` | fish/fish.c:160-170 | a free slot exists if and only if the list has fewer than 2000 items |
| `Blink.NoListAtZero` | fish/fish.c:164-166 | no list that agrees with the pool starts at a slot whose location is 0 |
| `Blink.BlinkList.Malloc` | fish/fish.c:160-170 | returns the least free slot, and NULL only when there is none |
| `Blink.BlinkList.Add` | fish/blink.S:105-185 | prepends the item, on and with a full countdown, and shows its on character; fails and changes nothing for a location of 2000 or more or a full pool; with location 0 the pool no longer agrees with any list; the new item is the first at its location, on, with its whole on length to go and the characters and lengths of the user |
| `Blink.BlinkList.FindHelper` | fish/blink.S:351-379 | returns the first item of the list with the location, or NULL when there is none |
| `Blink.BlinkList.Remove` | fish/blink.S:187-237 | removes exactly the first item with the location and frees its slot, leaving it all zero; fails if and only if there is none |
| `Blink.BlinkList.Find` | fish/blink.S:302-349 | copies out the first item with the location; fails if and only if there is none |
| `Blink.BlinkList.Sync` | fish/blink.S:240-300 | gives the destination's first item the source's timer and paints the destination's off character; fails if and only if one of them is missing, changing nothing |
| `Blink.BlinkList.TickInPlace` | fish/blink.S:64-86 | one item's countdown, switch and repaint |
| `Blink.BlinkList.Tasklet` | fish/blink.S:49-99 | walking the list gives every item exactly one tick and repaints exactly those that switched |
| `Blink.BlinkList.Wait` | fish/fish.c:41-44 | n waits give every item exactly n ticks and repaint the screen n times |
| `Blink.SyncedInStep` | fish/blink.S:267-275 | after a sync the first items at source and destination have the same lengths, countdown and status |
| `Blink.StaysInStep` | fish/blink.S:49-300 | and they have after any run of commands and tasklets that adds, removes and syncs onto nothing at either location |
| `Blink.ItemTicks` | fish/blink.S:49-300 | through any run whose commands spare its location, the first item there has done exactly one tick for each tasklet, wherever it has moved in the list |
| `Blink.BlinksThrough` | fish/blink.S:49-300 | so an item that was new at the start is on if and only if k mod (on + off) < on after the k tasklets of the run |
| `Blink.BlinkList.Do` | fish/blink.S:49-349 | each command changes the list in place as stated, and not at all when it fails |
| `Blink.BlinkList.Run` | fish/fish.c:41-44 | on the list in memory, through any run of commands and tasklets: spared new items blink on schedule, and spared items in step stay in step |
| `Blink.CellAfterTicks` | fish/blink.S:64-86 | the cell of an item alone at its location stays as it is until the countdown has run out and shows the status from then on |
| `Blink.SyncedCell` | fish/blink.S:277-285 | a sync paints the destination's cell right if and only if the source is off or the destination's two characters are the same |
| `Blink.SyncMispaints` | fish/blink.S:277-285 | for instance, a source that is on leaves the cell showing the off character |
| `Blink.SyncedCellLater` | fish/blink.S:64-86 | after n more tasklets it is right if and only if it was at first or n is at least the source's countdown |
| `Blink.CellFollowsStatus` | fish/blink.S:68-86 | an item alone at its location whose cell shows its status keeps it so through every tasklet |
| `Wrapping.WrapPush` | student-distrib/lib.c:186-211 | wrapping a text with one more character is the wrapped text with that character pushed onto its last row |
| `Wrapping.WrapAtBreak` | student-distrib/lib.c:186-189 | a byte 10 or 13 ends the row, whatever comes before and after it |
| `Wrapping.WrapLine` | student-distrib/lib.c:190-205 | a text without these bytes is one row if it has fewer than 80 bytes, and a row of 80 and the wrapped rest otherwise |
| `Screens.CursorStays` | student-distrib/lib.c:182-289 | printing and deleting never take the cursor off the 80x25 screen |
| `Screens.PutPrints` | student-distrib/lib.c:182-212 | a byte 10 or 13 moves to the start of the next row and stores nothing, any other byte is stored at the cursor with its colour behind it; past the last row the rows move up one and the last is blank |
| `Screens.PutShows` | student-distrib/lib.c:182-268 | a screen showing the last 25 rows of a page shows the last 25 rows after any character, scrolling exactly when the screen is full |
| `Screens.ShowsPrintedText` | student-distrib/Terminal.c:64-91 | after a clear the 25x80 characters are the last 25 rows of all that was printed, wrapped at 80 columns and broken at newline or carriage return |
| `Screens.DeleteUndoesPut` | student-distrib/lib.c:274-289 | deletec takes back the last printed character if and only if its cell was blank, printing it did not scroll, and it was not the last cell of a protected row |
| `Screens.EraseShows` | student-distrib/lib.c:274-289 | a screen that shows a text shows it without its last character after deletec, or the same at the start of a protected row, if and only if the cursor is inside its row, or protected, or goes back over a full row with nothing scrolled |
| `Screens.TypedShowsIff` | student-distrib/lib.c:182-289 | from a clear on, through any printing, erasing, protecting and clearing, the screen shows what is left of the text all along if and only if every erased character met that condition |
| `Consoles.OneTerminal` | student-distrib/lib.c:218-268 | changing one terminal's page and cursor leaves what the other two terminals' users see alone |
| `Consoles.SwitchKeepsScreens` | student-distrib/system_call.c:518-535 | saving and loading video memory, keyboard buffer and caps flag changes no terminal's logical screen |
| `Consoles.Console.ScrollDown` | student-distrib/lib.c:330-380 | rows 1 to 24 move to rows 0 to 23, the characters of the last row become blanks, and the cursor goes to its start |
| `Consoles.Console.PutOn` | student-distrib/lib.c:182-268 | printing on a terminal, displayed or not, does to its logical screen what it would on a machine of its own, and nothing to the others |
| `Consoles.Console.Putc` | student-distrib/lib.c:182-212 | prints on the displayed terminal only; 10 and 13 go to the next row and store nothing, any other byte is stored with the colour of its terminal |
| `Consoles.Console.TerminalPutc` | student-distrib/lib.c:218-268 | prints on the given terminal only, in VIDEO or in its backing page, as `Putc` does |
| `Consoles.Console.Deletec` | student-distrib/lib.c:274-289 | deletes on the displayed terminal only |
| `Consoles.Console.Clear` | student-distrib/lib.c:19-26 | with reset_cursor, wipes the displayed terminal only; every character is a blank in the colour of its terminal |
| `Consoles.Console.StoreDeletedLine` | student-distrib/lib.c:321-324 | moves the deletion limit of the displayed terminal only |
| `Consoles.Console.ForgetDeletedLine` | student-distrib/keyboard.c:194 | Ctrl+L puts the deletion limit of the displayed terminal back to row 0 |
| `Consoles.Console.ChangeDisplayTerminal` | student-distrib/system_call.c:518-535 | switching the display changes no terminal's logical screen, keyboard buffer or caps flag |
| `Consoles.Console.TerminalWrite` | student-distrib/Terminal.c:64-91 | a write prints its bytes without NULs and with tabs as four spaces on the writer's terminal, moves the displayed terminal's deletion limit, and returns the byte count |
| `Screens.ExpandIs` | student-distrib/Terminal.c:74-86 | a NUL prints nothing, a tab four blanks, and a text without them itself |
| `Screens.ExpandJoin` | student-distrib/Terminal.c:74-86 | and a text in two parts prints what its parts print |
| `Consoles.Console.TypeKey` | student-distrib/keyboard.c:203-221 | a store into the live keyboard buffer belongs to the displayed terminal only |
| `Consoles.Console.ToggleCaps` | student-distrib/keyboard.c:135-139 | the live caps flag belongs to the displayed terminal only |
| `Consoles.Console.Handle` | student-distrib/keyboard.c:152-226 | every event, Enter's move of the deletion limit included, performs its own operations on each terminal and nothing else; showing the displayed terminal again does nothing |
| `Consoles.Console.Run` | student-distrib/system_call.c:518-535 | after any run each terminal is what the operations that reached it have made of it; it shows all it printed since its last clear, or all printed and not erased since a clear if every backspace could be followed; it is as on a machine of its own but for the deletion limit when no backspace reached it, and altogether when only displayed terminals wrote |
| `Consoles.InterleavedText` | student-distrib/Terminal.c:64-91 | in any run of events, a terminal whose last clear was event k, and that no backspace reached since, shows the last 25 wrapped rows of all it printed since, hidden or displayed |
| `Consoles.TypedText` | student-distrib/keyboard.c:200-226 | in any run of events, with backspaces and display switches, a terminal cleared by event k shows what was printed and not erased since, all along, if and only if every backspace that reached it could be followed |
| `Consoles.TypedTextShown` | student-distrib/keyboard.c:200-226 | and so it shows that text at the end of such a run |
| `Consoles.WriteInterferes` | student-distrib/Terminal.c:88 | a background write that prints nothing keeps the displayed terminal's backspace from going back over the row end, as it would on a machine of its own |
| `Consoles.EventAgrees` | student-distrib/lib.c:274-324 | one event keeps a terminal like its private copy, but for the limit, if and only if it is no backspace that meets limits on different sides of a cursor at the left margin |
| `Consoles.PrivateIff` | student-distrib/Terminal.c:64-91 | all through a run a terminal's page, cursor, keyboard buffer and caps flag equal those of a terminal of its own if and only if no such backspace occurs |
| `Consoles.PrivateWithoutErasing` | student-distrib/Terminal.c:64-91 | so they always do in a run without backspaces at that terminal |
| `Consoles.PrivateWhenShown` | student-distrib/Terminal.c:64-91 | when only displayed terminals write, the operations that reach a terminal are exactly its own |
| `Consoles.WritePrivateIff` | student-distrib/Terminal.c:64-91 | one write leaves all three terminals private, limits included, if and only if the writer is displayed, or the displayed terminal's limit is at its row and the writer's at the row it ends on |
| `Paging.EntryBits` | student-distrib/paging.h:14-24 | page address and flag bits of an entry do not disturb each other |
| `Paging.FlagsOf` | student-distrib/paging.h:14-24 | or-ing flags into an aligned address adds them |
| `Paging.WalkOfShape` | student-distrib/paging.c:12-116 | the page walk of every 32-bit address in a reachable state of the tables |
| `Paging.UserReaches` | student-distrib/paging.c:80-100 | a user read or write reaches exactly the process's own 4MB page and its one video page, although directory slots 0 and 33 share a table |
| `Paging.KernelReachesUser` | student-distrib/system_call.c:229-236 | the kernel's access to the user page reaches the same frame |
| `Paging.KernelReachesVideo` | student-distrib/system_call.c:452-456 | one byte past the user page the kernel reaches the user video page or faults |
| `Paging.KernelIdentity` | student-distrib/paging.c:15-38 | the kernel page and the four video pages stay mapped to themselves and out of the user's reach |
| `Paging.FlushedCoherent` | student-distrib/system_call.c:499-508 | after any change that keeps the kernel page, reloading CR3 leaves only cached translations that agree with the walk |
| `Paging.EarlyGlobals` | student-distrib/paging.c:16-38 | while the tables are being built the only global translation the processor can cache is the kernel page's |
| `Paging.Mmu.InitPaging` | student-distrib/paging.c:12-40 | leaves the kernel page, VIDEO and the three backing pages mapped and nothing for the user, and no stale translation, whatever was cached since paging was switched on |
| `Paging.Mmu.MapTerminalVidmem` | student-distrib/paging.c:110-116 | maps the page of any address for the supervisor and keeps only global translations |
| `Paging.Mmu.MapVirtualAddrToPhysical` | student-distrib/paging.c:80-84 | maps the 4MB page of any address and keeps only global translations; at 128MB the user page becomes the given frame, nothing else changes, and the TLB agrees, whatever the processor cached meanwhile |
| `Paging.Mmu.RemovePage` | student-distrib/paging.c:50-54 | unmaps the 4MB page of any address and keeps only global translations; at 128MB the user page goes, nothing else changes, and the TLB agrees |
| `Paging.Mmu.Map4kbPage` | student-distrib/paging.c:94-100 | maps the 4KB page of any address and keeps only global translations; at 132MB the user video page becomes the given page, nothing else changes, and the TLB agrees |
| `Paging.Mmu.Remove4kbPage` | student-distrib/paging.c:64-70 | unmaps the 4KB page of any address and keeps only global translations; at 132MB the user video page goes, nothing else changes, and the TLB agrees |
| `Paging.Mmu.Translate` | student-distrib/system_call.c:499-508 | a translation through the TLB is always the current walk |
| `Layout.AddressFormulas` | student-distrib/system_call.c:108-111 | the address expressions of halt, execute, getPCB and the scheduler are the frame and control block of one slot number |
| `Layout.Addresses` | student-distrib/system_call.h:13-28 | frames lie 4MB apart from 8MB up, control blocks 8KB apart from 8MB down, each stack 4 bytes below its block |
| `Layout.ProcessesApart` | student-distrib/system_call.c:588-590 | frames, control blocks and kernel stacks of any two processes, at any depth, are pairwise disjoint |
| `Layout.ReachableDepth` | student-distrib/system_call.h:13-25 | with at most six processes no depth exceeds 3, all frames end by 56MB and all stacks lie in the kernel page |
| `Processes.FreeFd` | student-distrib/system_call.c:373-381 | the least free descriptor from a given one on, or 8 when none is free |
| `Processes.StartsWithStdio` | student-distrib/system_call.c:241-250 | a program starts with descriptors 0 and 1 open on the terminal, with inode and position 0 and flags 1, and with the others of its slot |
| `Processes.OpensOne` | student-distrib/system_call.c:384-396 | open puts a descriptor of the file's kind, open, at position 0, with the inode of a regular file, at the least free place, and leaves every other one |
| `Processes.OpenKind` | student-distrib/system_call.c:384-393 | its operation table is that of files, of directories or of the RTC if and only if the file is one, and never that of the terminal |
| `Processes.NextOpen` | student-distrib/system_call.c:373-381 | the next open gets another descriptor if and only if the file was of a known type |
| `Processes.ClosesOne` | student-distrib/system_call.c:405-423 | close of an open descriptor from 2 on clears its flags and fields and leaves every other one; any other close changes nothing |
| `Processes.ClosesAll` | student-distrib/system_call.c:89-96 | after the closing of what is open no descriptor from 2 on is, and 0, 1 and those already closed are as they were |
| `Processes.ExecuteCounts` | student-distrib/system_call.c:149-156 | the abstract execute moves the counters as the code does, limit included, and not at all when nothing is loaded |
| `Processes.HaltCounts` | student-distrib/system_call.c:69-86 | the abstract halt moves the counters as the code does, for a child and for a root shell |
| `Processes.TickCounts` | student-distrib/scheduler.c:26-65 | the abstract tick moves the counters as the code does, in the boot branches and in the round robin |
| `KernelMemory.OwnStackApart` | student-distrib/system_call.h:45-65 | the kernel stack in use meets no control block, no frame and no other process's stack |
| `KernelMemory.OwnStackWrites` | student-distrib/scheduler.c:18-25 | writes to the kernel stack in use disturb no process's memory, descriptors or saved context |
| `KernelMemory.StartHolds` | student-distrib/system_call.c:226-300 | loading a frame and filling a control block disturbs no other process, and makes the control block describe the waiting parent |
| `KernelMemory.SwitchHolds` | student-distrib/scheduler.c:19-90 | after the arrays took the interrupted context, every terminal not running is described by them, and the next one's entry is its context |
| `KernelMemory.HaltHolds` | student-distrib/system_call.c:82-134 | tearing a child down disturbs no other process, and the pointers in its control block lead back to its parent's context |
| `KernelMemory.FdsHold` | student-distrib/system_call.c:384-420 | changing descriptors of the running process disturbs nothing else |
| `KernelMemory.StoreHolds` | student-distrib/system_call.c:229 | a user store into the running process's frame disturbs nothing else |
| `KernelMemory.VideoHolds` | student-distrib/system_call.c:465 | a store into a video page disturbs no process |
| `Kernels.Kernel.constructor` | student-distrib/paging.c:12-40 | boot leaves a valid state with no shell running and no descriptor open |
| `Kernels.Kernel.Load` | student-distrib/system_call.c:234-236 | storing the image through the user page just mapped fills the new process's own frame and nothing else |
| `Kernels.Kernel.FillPcb` | student-distrib/system_call.c:238-272 | the control block gets, word by word, descriptors 0 and 1 open on the terminal, the arguments, the process numbers and the caller's context; other descriptors stay |
| `Kernels.Kernel.StartImage` | student-distrib/system_call.c:226-300 | mapping, loading and filling in, then entering user mode, is exactly starting the process, with esp0 at its own stack |
| `Kernels.Kernel.ExecuteCommand` | student-distrib/system_call.c:146-303 | every failure path restores the counters and changes nothing; success counts one more process and starts it |
| `Kernels.Kernel.Execute` | student-distrib/system_call.c:146-303 | execute keeps the state valid and refines the abstract execute; it returns 0 at the limit and -1 for what is not a program; a started program's control block has, word by word, descriptors 0 and 1 open on the terminal |
| `Kernels.Kernel.CloseAt` | student-distrib/system_call.c:405-423 | clears exactly the given open descriptor, returning -1 if and only if it is out of range or not open |
| `Kernels.Kernel.TearDown` | student-distrib/system_call.c:82-96 | halt's loop closes the parent's open descriptors and clears all of the child's, and keeps the saved pointers |
| `Kernels.Kernel.RestartRoot` | student-distrib/system_call.c:69-75 | a root shell that halts is started afresh in place; without a shell to load its terminal is left with depth -1 and one process less is counted, which no good state allows |
| `Kernels.Kernel.MapParent` | student-distrib/system_call.c:97-108 | the child's pages go and the parent's frame is mapped, with no video page and no stale translation |
| `Kernels.Kernel.Unwind` | student-distrib/system_call.c:82-134 | halt's counters, mappings, esp0 and reloaded pointers all belong to the parent |
| `Kernels.Kernel.RaiseException` | student-distrib/create_handler.c:149-151 | an exception handler sets the flag and nothing else |
| `Kernels.Kernel.Halt` | student-distrib/system_call.c:65-137 | halt keeps the state valid and refines the abstract halt, unless a root shell has nothing to restart and leaves its terminal at depth -1; a child's parent gets 256 if the exception flag is up and the status otherwise, the flag is dropped and the video page goes; a root shell leaves both alone |
| `Kernels.Kernel.MapNext` | student-distrib/scheduler.c:67-77 | the next terminal's frame is mapped, with VIDEO or its backing page as its video page |
| `Kernels.Kernel.Rotate` | student-distrib/scheduler.c:64-81 | executing terminal, mappings and esp0 move on together |
| `Kernels.Kernel.BootShell` | student-distrib/scheduler.c:26-61 | a boot branch starts the shell of its terminal and sets the interrupted context aside; without a shell to load it executes a terminal at depth -1 |
| `Kernels.Kernel.RoundRobin` | student-distrib/scheduler.c:64-90 | the round robin branch refines the abstract switch to the next terminal |
| `Kernels.Kernel.Tick` | student-distrib/scheduler.c:14-92 | the scheduler keeps the state valid and refines the abstract tick, unless a boot branch has no shell to load |
| `Kernels.Kernel.FirstFree` | student-distrib/system_call.c:372-381 | the scan stops at the least free descriptor from 2 on, or at 8 |
| `Kernels.Kernel.Open` | student-distrib/system_call.c:362-396 | returns the least free descriptor from 2 on and installs the entry there, and -1 if and only if the name is missing or none is free; a file of unknown type is not installed; the entry installed is open, of the file's kind, and no other one changes |
| `Kernels.Kernel.Close` | student-distrib/system_call.c:405-423 | clears exactly the given open descriptor of the running process; every other one stays |
| `Kernels.Kernel.UserStore` | student-distrib/system_call.c:229 | a user store to any address changes the one cell the page walk gives, in the running process's own memory or a video page, or nothing |
| `Kernels.Kernel.Vidmap` | student-distrib/system_call.c:450-467 | stores the address through the user's pointer and maps VIDEO; refuses pointers outside the user page except its end, where it stores into the video page or faults |
| `Kernels.ScreenStartStrays` | student-distrib/system_call.c:452-454 | of the pointers the test accepts, exactly four do not have their word inside the user page, one of them 0x8400000 |
| `Kernels.Kernel.MoveTo` | student-distrib/scheduler.c:18-25 | kernel code moving about on its own stack is invisible to every other process |
| `Kernels.Kernel.Handle` | student-distrib/system_call.c:65-467 | every step of the kernel is the same step of the abstract machine, and moves the displayed terminal and the video page as stated in `Video.dfy` |
| `Kernels.Kernel.Run` | student-distrib/system_call.c:65-467 | every run of the kernel does to every process exactly what the abstract machine does, and to the display and the video page what `VideoPages.ViewOf` says; every state on the way is valid |
| `Runs.StepKeeps` | student-distrib/scheduler.c:19-90 | no step changes the saved context, the memory or the descriptors of a process that is frozen before and after it |
| `Runs.FrozenKept` | student-distrib/system_call.c:260-276 | through any run, a process that stays frozen keeps its saved context, memory and descriptors |
| `Runs.HaltResumes` | student-distrib/system_call.c:82-134 | in every run, a halt resumes exactly the context and memory its parent had at the matching execute; of the parent's descriptors the open ones from 2 on are closed, and no others change |
| `Runs.TickResumes` | student-distrib/scheduler.c:84-90 | in every run, the round robin resumes a terminal with exactly the context, memory and descriptors of its last preemption |
| `Runs.StepCounters` | student-distrib/scheduler.c:26-65 | only ticks change the executing terminal, and a terminal once booted stays booted |
| `Runs.BootCompletes` | student-distrib/scheduler.c:26-62 | the three shells run after three ticks, and in no run are the boot branches taken again |
| `Runs.Fair` | student-distrib/scheduler.c:64-65 | over any n ticks, interleaved with anything, each terminal is scheduled n / 3 times rounded down or up, at places fixed by the start |
| `Runs.RunFreeAbove` | student-distrib/system_call.c:82-96 | in every run no slot above a terminal's depth has a descriptor from 2 on open |
| `Runs.FreshDescriptors` | student-distrib/system_call.c:238-250 | in every run an executed process starts with descriptors 0 and 1, and no others, with flags other than 0, both on the terminal, and its first open gets 2 |
| `Runs.RestartKeepsDescriptors` | student-distrib/system_call.c:69-75 | a restarted root shell has no other descriptor open if and only if it had none open when it halted; 0 and 1 are open on the terminal again |
| `Runs.CloseOpenKeeps` | student-distrib/system_call.c:89-91 | closing what is open changes a descriptor table if and only if something from 2 on was open |
| `Runs.StepFlag` | student-distrib/system_call.c:69-80 | only a child's halt drops the exception flag, and only a root shell's exception leaves it up |
| `Runs.FlagPending` | student-distrib/system_call.c:69-80 | after any run the flag is up if and only if some event was a root shell's halt by an exception and no later one a child's halt, or it was up before and no event was one |
| `Runs.StatusReported` | student-distrib/system_call.c:77-80 | a child that halts of itself has its own status reported if and only if no such exception is pending |
| `Runs.StaleException` | student-distrib/system_call.c:69-80 | for instance, terminal 0's root shell has an exception and terminal 1's child then halts with 0: its parent sees 256 |
| `Runs.BootUndisturbed` | student-distrib/scheduler.c:26-62 | whatever is executed and halted between the three boot ticks, limit included, every terminal has a process after the third if and only if no program is left running in a shell at the second and at the third |
| `Guarantees.CountersAgree` | student-distrib/system_call.c:588-590 | in every reachable state pid + 1 is the number of processes, at most 6, directory entry 32 maps the frame of the executing terminal's top process, and esp0 is getPCB() - 4 |
| `Guarantees.UserIsolation` | student-distrib/paging.c:80-116 | in every reachable state a user read or write reaches the process's own frame, or its one video page, which is VIDEO or its terminal's backing page, or nothing, and every cached translation agrees |
| `Guarantees.NothingElseReached` | student-distrib/system_call.h:13-28 | none of what a user access can reach is part of another process's frame, a control block or a kernel stack |
| `Guarantees.KernelStaysMapped` | student-distrib/paging.c:15-38 | in every reachable state the kernel page and the four video pages are mapped to themselves, for the supervisor only |
| `Guarantees.RunningProcess` | student-distrib/system_call.c:260-276 | registers, kernel stack, memory and descriptors of the running process are those the abstract machine has for it |
| `Guarantees.RunAndHalt` | student-distrib/system_call.c:65-137 | any run and then the halt of a child, of itself or by an exception, refines the abstract run and halt, and returns the reported status |
| `Guarantees.ExecuteAndHalt` | student-distrib/system_call.c:65-303 | on the machine itself: execute, any run, and the matching halt bring back the parent's stack and frame pointer, its kernel stack contents and its user memory, without a video page, and with its descriptor table if and only if none from 2 on was open |
| `Guarantees.ExecuteLoads` | student-distrib/system_call.c:234-236 | on the machine itself: an executed program reads its image, byte by byte, from virtual address 0x08048000 on |
| `Guarantees.OpenTwice` | student-distrib/system_call.c:362-396 | on the machine itself: two opens in a row give two descriptors, unless the first file was of unknown type |
| `Guarantees.PreemptAndResume` | student-distrib/scheduler.c:14-92 | on the machine itself: a tick, any run of the other terminals, and the tick that comes back bring back the same registers, stack contents, user memory and descriptors, and the video page its screen is in |
| `VideoPages.StepOnScreen` | student-distrib/system_call.c:450-467 | from a video page that its terminal's screen is in, a step leads to one that it is not in if and only if it is a vidmap of a hidden process or a display switch that hides or shows the terminal of a process with a video page |
| `VideoPages.TickOnScreen` | student-distrib/scheduler.c:67-77 | after any tick the page is on the screen, whatever it was before |
| `VideoPages.OnScreenIff` | student-distrib/scheduler.c:67-77 | from any tick on, through any run, the page is on the screen all along if and only if no such step occurs |
| `VideoPages.StrayPage` | student-distrib/system_call.c:458-465 | after such a step the page is the displayed terminal's screen, or the backing page of a terminal that is displayed |
| `Guarantees.TickAndRun` | student-distrib/scheduler.c:67-77 | on the machine itself: after a tick and any run without such a step the video page, if any, is the one the executing terminal's screen is in |
| `Commands.CommandReadBack` | student-distrib/system_call.c:165-194 | a command written with any spaces before its name and before its arguments is read back as that name and those arguments |
| `Commands.ParseCommand` | student-distrib/system_call.c:165-194 | the parsing loops put the first word and what follows it after spaces into the two buffers |
| `Commands.FindProgram` | student-distrib/system_call.c:158-236 | parsing, lookup, magic test and the reads find the program of the command's name, and its arguments |
| `Commands.AbsentIff` | student-distrib/system_call.c:201-205 | nothing is found if and only if the name is empty, longer than 32 bytes, or no entry's |
| `Commands.ProgramIs` | student-distrib/system_call.c:207-236 | the program is exactly the file of the first entry with the name if its first four bytes are the magic, bytes it lacks being what the buffer held, and otherwise none |
| `Commands.LoadedIff` | student-distrib/system_call.c:207-236 | the file is loaded, whole and nothing else, whatever the buffer held, if and only if it has four bytes and they are the magic |
| `NamedCalls.ExecuteLine` | student-distrib/system_call.c:146-303 | execute of a command text keeps the state valid and refines the abstract execute of the program found under the command's name; a null command returns -1 and changes nothing |
| `NamedCalls.OpenNamed` | student-distrib/system_call.c:362-396 | open of a name installs what the directory holds under it in the least free descriptor, open and of its kind, and returns -1 if and only if the name is null, not found, or no descriptor is free |

## Left out

- Preemption inside a system call and the interrupt windows around it: steps are atomic, so the counters' intermediate values are not seen.
- Register-level assembly (iret frames, segment registers, TSS and descriptor tables, `set_paging_registers.S`): a context is a stack pointer, a frame pointer and the stack above it. Page size extension and global pages are taken to be on.
- Physical memory is kept by address with a 32-bit word in the cell of its first byte, so partial overwrites of words are not seen.
- What raises an exception: a store without a translation stores nothing, and a halt by an exception handler is an event of its own that may come at any time.
- Kernels.Kernel.ExecuteCommand: the program is given to it; `NamedCalls.ExecuteLine` joins it to the command text and the file system. The entry point, the word at byte 24, is read (`FileSystem.LoaderExact`) but user registers are not modelled.
- Commands.ParseCommand: names and arguments of 128 bytes and more, which overrun the two unchecked buffers, are excluded.
- NamedCalls.ExecuteLine: images that do not fit the 4MB page, as for `Kernels.Kernel.Execute`.
- Kernels.Kernel.Execute: images that do not fit the 4MB page, which the source would load over its end, and calls before the three shells run, are excluded.
- Kernels.Kernel.BootShell: the display switch and the clearing of the screen in a boot branch are not in it.
- Kernels.Kernel.Vidmap: a word occupies one cell, so a pointer in the last three bytes of the page does not straddle it.
- `getargs`, `read`, `write` dispatch, `set_handler` and `sigreturn`: thin wrappers.
- RTC, PIC and PIT ports, cursor hardware, and scancode decoding and line editing in the keyboard handler, which has no single bound on its line length.
- The screens and the processes are two models: the boot ticks' clearing of screens is not joined to the process steps.
- Ctrl+L prompt printing and `keyboard_puts`: more uses of `putc` and `clear`; Ctrl+L's clear and its reset of the deletion limit are events.
- CStrings.StrCpy: a copy upwards over itself, which does not end, is excluded.
- Memory.Memcpy: says nothing about overlapping moves towards higher addresses, which no caller makes.
- Directory.ReadDentryByName: the name copied into the result and the write one past the end of the local name buffer are not modelled; the 64th slot, which lies past the boot block's table, is any entry.
- Directory.OpenDir.DirRead: directories that claim more than 63 entries, for which `read_dentry_by_index` fails and leaves the entry undefined, are excluded; a full 32-byte name, whose `strlen` runs on into the next field, is cut at 32 as the code does.
- Directory.List: the loop's skipping of names that start with a dot, and its call of the search, are not in it.
- Directory.LookUpOwn: types and inode numbers above 255 are cut to a byte by the lookup, so they are excluded.
- Grep.DoOneFile: the bytes read hold no NUL, the uninitialised byte at index 1024 is not a newline, and the messages for failing open, read and close are not modelled.
- Grep.SearchBuffer: the same holds of one buffer.
- Blink.BlinkList.Wait: the RTC read between two tasklets is not modelled.
- Blink.BlinkList.Do: an add at location 0 is not among the commands of a run, as no list of the pool goes on from it (`Blink.BlinkList.Add` says what it does).
- Blink.BlinkList.Run: the same.
- Kernels.Kernel.Show: only the number of the displayed terminal matters to the scheduler; the memory copies are in `Consoles.Console.ChangeDisplayTerminal`.
- Kernels.Kernel.CloseAt: the operation table's own close functions, which do nothing, are not called.
- Unique process numbers and `parent_pid`: `pid` is a live count, so values repeat; terminal and depth identify a process.
- `ece391emulate.c`, `tests.c`, `ece391syserr.c`, `pingpong`, `hello`: foreign calls, tests or demonstrations.
