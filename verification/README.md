# Sore-OS: a verified model of its disk path, terminal and line editor

Sore-OS is a small 32-bit operating system for x86. A media utility lays out a FAT32 disk, a
16-bit boot loader finds the kernel on it, and the kernel mounts it and offers a scrolling
terminal with a line editor. This project models the parts of the system that hold state and
proves what they keep and what they compute. `dafny verify dfyconfig.toml` checks all of it.

**The disk path**

| file | what it models |
|---|---|
| `Drive.dfy` | the disk as a function from sector numbers to sectors, reads that may fail, the sectors asked for |
| `Header.dfy`, `Layout.dfy`, `Format.dfy` | the media utility: header writer, layout, boot area, clearing, installation |
| `FatWalk.dfy` | the walk along a FAT chain, through the one-sector cache and without it |
| `ShortName.dfy`, `Directory.dfy` | directory names, and the scan over a cluster of directory records with long names |
| `Volume.dfy`, `FileSystem.dfy`, `Printing.dfy` | the kernel's file system: its state as a value, the globals and buffers it is kept in, what is printed of a file |
| `KernelRuns.dfy`, `Shell.dfy` | the kernel from its start on: mounting and any number of `cd`, `cat` and `ls`, and the shell without caches and buffers that this amounts to |
| `FormatThenMount.dfy`, `FormattedDisk.dfy` | kernel and boot loader on a disk that has just been formatted, and what is on it byte by byte |
| `Cpu.dfy`, `Div32.dfy`, `ClusterAddress.dfy`, `Machine.dfy`, `LoadFile.dfy`, `FindFileBoot.dfy`, `BootLoader.dfy` | the boot loader, instruction by instruction, on 16-bit registers, carry flag, stack and memory |
| `Agreement.dfy`, `KernelFile.dfy` | boot loader and kernel on the same disk: the searches, the chains, and the kernel's own file |

**Terminal and line editor**

| file | what it models |
|---|---|
| `Terminal.dfy`, `ShiftedHistory.dfy`, `Screen.dfy` | the terminal over character cells with the unbounded log it should agree with, its history once it has been shifted, through typing and editing, and the driver that changes video memory in place |
| `Keymap.dfy`, `LineEditor.dfy`, `Keyboard.dfy`, `KeyLayout.dfy` | the key tables, the editor as a state machine with the simple editor it should agree with, the driver with its buffers, and what each key does by its scan code |

Code that works by changing things in place is a class or a method with loops. Each such method
is proved equal to a function on values (`View()` before and after), and the properties are
lemmas about those functions. Machine integers are mathematical integers with the range, the
wrap-around or the sign conversion written out (`Words.dfy`).

Where the code does not do what it is meant to do, the model keeps the code as it is and a lemma
says exactly when it is right:

* the history shift moves 18000 bytes where 24000 would be needed (`Terminal.ShiftKeepsHistoryIff`,
  `Terminal.DeleteAfterFillIff`, `ShiftedHistory.DeleteWhileEditingIff`, `ShiftedHistory.PagesShowLogIff`);
* page down on a screen that is not yet full moves the text to the bottom of the screen
  (`Terminal.NegativeLineIff`, `Terminal.PageDownDropsText`);
* the keyboard driver does not look at the length of its buffers (`LineEditor.BuffersHoldIff`);
* `div32` is exact for all dividends exactly up to divisor 16384 (`Div32.ExactForEveryDividendIff`);
* an empty FAT cache carries the sector number -1 (`FatWalk.ColdWalkIsPlainIff`, `KernelRuns.RootIsAlwaysFoundIff`);
* the extension branch of `getShortName` copies the extension over the base name
  (`ShortName.KeyIsDirectoryFormIff`), and a file does not always answer to the name it is listed
  under (`Directory.AnswersToListedNameIff`);
* `printFile` prints 2048 bytes for every cluster (`Printing.PrintIsExactIff`);
* `openDirectory` does not set the current directory (`KernelRuns.StaysOpenIff`), and when it fails the
  buffer may hold parts of two directories (`Volume.FailedOpenMixesBuffer`);
* `find_file` looks at every record and takes the name as it is, `findFile` looks at file records and
  long names and asks `getShortName` first (`Agreement.SearchesAgreeIff`);
* three address bytes reach 2^24 sectors (`Layout.ThreeBytesSufficeIff`).

## Model

| member | source | states |
|---|---|---|
| Terminal.RunIsFaithful | drivers/screen.c:89-200 | In every run of clears, characters, deletions and paging in which the log never fills the history, the counters are those of the log's length, the history is the log, all cells behind the log are blank, and the display shows the log from row `lineShow` on whenever `lineShow >= 0`. |
| Terminal.RunMirrors | drivers/screen.c:89-200 | The same in terms of cells: display rows equal history rows from `lineShow` on, cursor cells of display and history correspond when the typing position is shown, every history cell from the cursor on is blank. |
| Terminal.NegativeLineIff | drivers/screen.c:120-128 | In every run, `lineShow` is negative if and only if the last operation is a page down on a screen with fewer than 25 rows. |
| Terminal.DisplayShowsLog | drivers/screen.c:89-200 | So after every other run that never fills the history the display shows the log from row `lineShow` on. |
| Terminal.PageDownDropsText | drivers/screen.c:120-128 | After such a page down from the text's first rows, the text stands at the bottom of the display with blank rows above it. |
| Terminal.PageDownMovesCharacter | drivers/screen.c:120-171 | One character typed and page down pressed: its cell is blank and it stands on the last row. |
| Terminal.StepIsFaithful | drivers/screen.c:89-200 | One operation keeps the terminal equal to its log. |
| Terminal.PutIsFaithful | drivers/screen.c:144-171 | `putChar` appends to the log, wrapping at 80 columns and filling up the row at a newline, even from a paged view. |
| Terminal.DelIsFaithful | drivers/screen.c:174-200 | `delChar` takes the last cell off the log, across row boundaries. |
| Terminal.LineDownIsFaithful | drivers/screen.c:56-86 | `scrollLineDown` after a full row shows the last 25 rows of the log. |
| Terminal.LineUpIsFaithful | drivers/screen.c:89-106 | `scrollLineUp` shows the 25 rows that end with the row gone back to. |
| Terminal.ShowIsFaithful | drivers/screen.c:109-128 | Any page copied from the history to the display is a window on the log. |
| Terminal.BackIsFaithful | drivers/screen.c:131-141 | `scrollPageBack` shows the typing position again, also from a negative `lineShow`. |
| Terminal.TypingShowsLogEnd | drivers/screen.c:56-171 | For every text typed after a clear, of any length and with any number of history shifts, the display shows the last 25 rows of the unbounded log, `dispRow` is min(24, globRow), `lineShow` is max(0, globRow - 24), and `globRow` cycles through 150 to 174 once the history is full. |
| Terminal.TypedPut | drivers/screen.c:144-171 | One more character keeps that window. |
| Terminal.PagingIsInvisible | drivers/screen.c:109-183 | Any number of page-ups and page-downs before a character or a deletion leaves the whole resulting state as without them. |
| Terminal.PageUpsGoBack | drivers/screen.c:109-117 | From any row of the history, n page-ups lead 25 n rows back, or to row 0. |
| Terminal.PageDownsGoOn | drivers/screen.c:120-128 | And n page-downs 25 n rows on, or to the cursor's row less 24. |
| Terminal.PagingGoesBackAndForth | drivers/screen.c:109-128 | After every run that never fills the history, page down undoes page up and page up undoes page down, the whole state included, wherever neither stops short. |
| Terminal.FillShifts | drivers/screen.c:62-68 | What the shift leaves in the history: 112.5 rows moved down by 25, the rest in place; and the counters. |
| Terminal.ShiftKeepsHistoryIff | drivers/screen.c:62-68 | After the shift the history repeats the log without its first 25 rows if and only if the rows not moved equal those 25 rows further on. |
| Terminal.DeleteAfterFillIff | drivers/screen.c:62-98 | A deletion right after the shift shows the right rows if and only if the last two pages of text agree. |
| Terminal.DeleteAfterFillCanShowStaleRows | drivers/screen.c:62-98 | A text for which it shows the wrong rows. |
| ShiftedHistory.EditingHolds | drivers/screen.c:56-200 | After every run of clears, characters, deletions and paging, however often the history has been shifted, as long as from a shift to the next clear there is no paging and no deletion at the left edge: the display shows the last 25 rows of the text, and every history cell holds what `ShiftedHistory.Held` says. That is, with `s` shifts so far: cell `k` below 9000 holds the text's cell `Source(k, s)`, cells 9000 to 11999 the text first typed there, and each cell of the last page what was typed or deleted there last. |
| ShiftedHistory.SourceIs | drivers/screen.c:62-68 | `Source(k, s)` is `k` plus 2000 times the smaller of `s` and the number of shifts that still move something into the cell. |
| ShiftedHistory.HeldAfterPut | drivers/screen.c:62-171 | One more character changes the cursor's cell, shifts the cells below 9000 by a page when row 174 ends, and leaves the others alone. |
| ShiftedHistory.HeldAfterDelete | drivers/screen.c:174-200 | A deletion within the row blanks the cell before the cursor and no other. |
| ShiftedHistory.TypingIsSteady | drivers/screen.c:144-171 | Typing any text is such a run, and comes to the same state as `Terminal.TypingShowsLogEnd` speaks of. |
| ShiftedHistory.DeleteWhileEditingIff | drivers/screen.c:62-200 | For every such run after which the history has been shifted, once or more often, a deletion shows the right rows if and only if it stays within its row or the 25 rows it pastes from the history are the last 25 rows of the text. |
| ShiftedHistory.PagesShowLogIff | drivers/screen.c:109-128 | After every such run and any number of page-ups and page-downs the 25 rows shown are those of the text if and only if the history rows copied are. |
| ShiftedHistory.EarlyRowsAreRight | drivers/screen.c:62-128 | That is so for every page within the text's first 137.5 rows that the history still holds. |
| ShiftedHistory.PageUpAfterFillIff | drivers/screen.c:62-117 | One page up right after the first shift: if and only if cells 9000 to 10079 of the text repeat in 11000 to 12079. |
| ShiftedHistory.PageUpCanShowStaleRows | drivers/screen.c:62-117 | A text for which it shows a wrong row. |
| Screen.Screen.CopyForwards | libc/string/memcpy.c:3-13 | Copying byte by byte upwards to a lower address is exact although the ranges overlap. |
| Screen.CellAddresses | drivers/screen.c:5-6 | Where a cell's character lies: display cell k at 0xB8000 + 2 k, history cell k at 0xB8FA0 + 2 k. |
| Screen.Screen.MemCpy | libc/string/memcpy.c:3-13 | The same on character cells of video memory, with absolute addresses. |
| Screen.Screen.ClearScreen | drivers/screen.c:39-52 | The driver's state becomes the cleared terminal: both regions blank, counters zero. |
| Screen.Screen.DropOldestPage | drivers/screen.c:63-69 | The driver's shift is the model's shift. |
| Screen.Screen.EraseLastLine | drivers/screen.c:77-81 | The last display row becomes blank and nothing else changes. |
| Screen.Screen.ScrollLineDown | drivers/screen.c:56-86 | The driver in place does what the model does; every write lies in video memory. |
| Screen.Screen.ScrollLineUp | drivers/screen.c:89-106 | Likewise. |
| Screen.Screen.ScrollPageUp | drivers/screen.c:109-117 | Likewise. |
| Screen.Screen.ScrollPageDown | drivers/screen.c:120-128 | Likewise, also to a negative line. |
| Screen.Screen.ScrollPageBack | drivers/screen.c:131-141 | Likewise. |
| Screen.Screen.PutChar | drivers/screen.c:144-171 | Likewise, with the offsets computed before the view is scrolled back. |
| Screen.Screen.DelChar | drivers/screen.c:174-200 | Likewise. |
| Screen.Screen.PrintStr | drivers/iobuffers.c:76-81 | Printing a buffer puts its characters one after the other; a negative length prints nothing. |
| LineEditor.RunAgrees | drivers/keyboard.c:39-117 | For every run of key events, prompts and clears, with prompts and clears only between lines, the history not filled and room in the buffers before every key, the driver's state machine agrees with a plain editor (finished text, line being typed, input handed over, modifiers), and what is in the buffers fits them. |
| LineEditor.BuffersHoldIff | drivers/keyboard.c:57-113 | In every run at all, the contents of `tempBuffer` and `inputBuffer` stay within their 2048 bytes if and only if the line is shorter than that before every character, and input and line together before every Enter. |
| LineEditor.OrderlyRunFits | drivers/keyboard.c:39-117 | So the runs of these theorems never leave the buffers. |
| LineEditor.LongLineOverruns | drivers/keyboard.c:57-61 | A run that does: 2049 presses of one key, of which the first 2048 are in order. |
| LineEditor.LineIsOnScreen | drivers/keyboard.c:53-62 | In every such run, within the buffers, the `tempIndex` history cells before the cursor are `tempBuffer`, and everything behind the cursor is blank. |
| LineEditor.PromptIsKept | drivers/keyboard.c:94-102 | No key but Enter changes the cells before the line being typed. |
| LineEditor.BackspaceErasesTheSame | drivers/keyboard.c:94-102 | Backspace removes the last character of `tempBuffer` and blanks the very cell that shows it, across wraps and paging; with nothing typed it changes nothing. |
| LineEditor.EnterHandsOver | drivers/keyboard.c:103-115 | Enter appends the line as it stands on the screen and a newline to `inputBuffer` and begins a new row, the rest of the screen unchanged. |
| KeyLayout.KeyTypes | drivers/keyboard.c:14-69 | After every run of key events, pressing a letter, digit or symbol key types the character that the key has, by its scan code, on the PS/2 keyboard, the upper one if a shift is held or caps lock is on; letting go of it does nothing. |
| KeyLayout.ModifiersAre | drivers/keyboard.c:73-81 | After every run, a shift key counts as held if and only if it has been pressed and not released since, and caps lock is on if and only if it has been pressed an odd number of times. |
| KeyLayout.SystemKeys | drivers/keyboard.c:73-117 | Backspace, Enter, page up and page down by scan code; letting go of them does nothing. |
| KeyLayout.OtherKeys | drivers/keyboard.c:39-117 | The remaining keys of the tables do nothing. |
| KeyLayout.KeyCharIs | drivers/keyboard.c:14-70 | `keyChar` for each of the 90 scan codes of the tables. |
| Keymap.SystemKeysReachSysKey | drivers/keyboard.c:14-81 | No modifier state gives a system key a character, so it always reaches `sysKey`. |
| Keyboard.TableFits | drivers/keyboard.c:14-70 | The two character tables, with anything but a newline behind their end, meet what the editor's theorems ask of a key table: no newline, no character for a system key. |
| Keyboard.Keyboard.KeyboardHandler | drivers/keyboard.c:39-63 | The handler on its buffers does what the editor model does for every key code, those behind the end of the tables included; without pending data nothing changes. |
| Keyboard.Keyboard.Run | drivers/keyboard.c:39-117 | A whole run on the driver's own buffers and video memory, with room before every key: the driver is where the line editor is, and in an orderly run where the plain editor is. |
| Keyboard.Keyboard.Enter | drivers/keyboard.c:103-115 | The copy loop and the counters. |
| Keyboard.Keyboard.Backspace | drivers/keyboard.c:94-102 | Buffer and screen together. |
| Keyboard.Keyboard.SysKeyPress | drivers/keyboard.c:73-117 | Every system key. |
| Div32.ExactForSmallDivisors | boot/div_32.s:14-42 | For every 32-bit dividend and every divisor from 1 to 16384 the three 16-bit divisions, the signed comparison and the carry give quotient and remainder; no division overflows. |
| Div32.InexactForLargeDivisors | boot/div_32.s:31-36 | For every divisor above 16384 there is a dividend for which they do not. |
| Div32.ExactForEveryDividendIff | boot/div_32.s:14-42 | A divisor gives exact results for all dividends if and only if it is at most 16384. |
| Div32.DivideBy128 | boot/load_file.s:49-51 | Divided by 128 the results are the kernel's `>> 7` and `& 0x7F`. |
| Machine.Machine.DivideBy | boot/div_32.s:14-42 | The instructions leave those results in LOWER, UPPER and %dx, with %bx and the stack restored. |
| ClusterAddress.ScaleIsExact | boot/load_file.s:16-28 | Shift, rotate, mask and merge multiply the register pair by 2^s modulo 2^32, for every s up to 8. |
| ClusterAddress.LoaderLbaIsClusterLba | boot/load_file.s:13-33 | For every 32-bit cluster number the loader's registers hold the sector number the kernel's `load_Cluster` computes. |
| Machine.Machine.DescribeCluster | boot/load_file.s:10-42 | The instructions put that number, %bx and the cluster size in the address packet and the cluster number on the stack. |
| Machine.Machine.DescribeFatSector | boot/load_file.s:47-66 | The packet names the FAT sector of the cluster's entry, %cx is the entry's offset in it. |
| Machine.Machine.CompareWithEnd | boot/load_file.s:78-81 | The two comparisons recognise exactly 0x0FFFFFFF, and then clear the carry flag. |
| Machine.Machine.FetchNext | boot/load_file.s:71-76 | The next cluster number is the double word at that offset of the FAT page. |
| Machine.Machine.LoadDisk | boot/load_disk_LBA.s:8-17 | A read puts the sectors before the first failure in memory; the carry flag tells of a failure. |
| LoadFile.AskForCluster | boot/load_file.s:8-42 | The BIOS is asked for the sectors of the cluster, as the kernel computes them. |
| LoadFile.TakeTurn | boot/load_file.s:8-76 | One pass over the instructions reads the cluster to %bx and the FAT sector to 0x8000 and leaves the chain's next cluster in %dx:%ax. |
| LoadFile.Advance | boot/load_file.s:83-90 | %bx moves on by the bytes of one cluster. |
| LoadFile.LoadFile | boot/load_file.s:8-96 | On every chain ended by 0x0FFFFFFF for which there is room the loop ends, the remaining chain being its measure, with the stack balanced and the memory, trace and carry flag of the turn-by-turn specification. |
| LoadFile.LoadFileLoadsChain | boot/load_file.s:8-96 | The carry flag is clear exactly when no read failed; then the sectors read are those of the chain in order and memory from %bx on is the chain's clusters one behind the other; besides these bytes only the FAT page is written, apart from the loader's own words LOWER and UPPER, the address packet and the stack, which are fields of their own in the model. |
| LoadFile.TurnFollowsChain | boot/load_file.s:54-75 | The entry taken from the FAT page is the one on the disk. |
| LoadFile.ReadsInOrder | boot/load_file.s:8-90 | The sectors asked for, cluster and FAT sector in turn. |
| LoadFile.FillsMemory | boot/load_file.s:38-90 | When all goes well the clusters land one behind the other and stay. |
| LoadFile.LeavesOthers | boot/load_file.s:38-90 | Failed or not, a load writes to its own range and the FAT page only. |
| FindFileBoot.CompareNames | boot/find_file.s:21-35 | The inner loop compares eleven bytes. |
| FindFileBoot.FindFile | boot/find_file.s:10-52 | The carry flag is clear exactly when a record before the first zero record has the raw name; %dx:%ax is then the start cluster of the first such record; %bx, %cx, %si and the stack are as before. |
| FindFileBoot.InMemoryIff | boot/find_file.s:10-40 | What it means that the records stand in memory from %bx on. |
| BootLoader.KernelLoader | boot/boot.s:142-172 | Loading the root, finding the kernel and loading it succeeds exactly when no read failed and the root has a record of the kernel's name, and ends with the message that there is no kernel exactly when no read failed and it has none; after success the kernel's clusters stand in memory in order from 0x8200 on, and below 0x8000 nothing has changed but LOWER, UPPER, the address packet and the stack, which are fields of their own in the model. |
| Drive.ReadRunIs | drivers/filesys.c:77-116 | Reading sectors one after the other: the sectors before the first failure are in the buffer, the rest is as it was, and the drive has been asked for all of them and the failed one. |
| Drive.Drive.ReadMany | drivers/filesys.c:95-115 | The loop over the sectors does that. |
| FatWalk.WalkIsPlain | drivers/filesys.c:149-177 | From a coherent cache, for every start cluster, or from an empty one, whatever reads fail, `traverseFAT` yields the walk without a cache or, after a failed read, a proper beginning of it; a coherent cache stays coherent. |
| FatWalk.WalkFailsIffReadFails | drivers/filesys.c:118-177 | It fails exactly when a read it made failed. |
| FatWalk.EveryCallIsPlain | drivers/filesys.c:118-177 | The same for every call in every sequence of calls since the start, failed reads included, for every start cluster once some read has succeeded; before that the start cluster's FAT sector must not be numbered -1. |
| FatWalk.LoadedIsCoherent | drivers/filesys.c:118-177 | From the first read that succeeds on, the buffer is the disk sector `FATSecIdx` names. |
| FatWalk.ColdWalkIsPlainIff | drivers/filesys.c:18-164 | With nothing loaded, on every disk: the walk is right if and only if the start cluster's FAT sector is not numbered -1 or the entry in that sector is 0. |
| FatWalk.SentinelIsTaken | drivers/filesys.c:18-164 | Otherwise it goes on from cluster 0, whatever is on the disk. |
| FileSystem.FileSystem.ReadSector | drivers/filesys.c:77-116 | Three bytes of the sector number reach the drive: the number modulo 2^24. |
| FileSystem.FileSystem.LoadFatSect | drivers/filesys.c:120-129 | A successful read sets buffer and index together, a failed one leaves both. |
| FileSystem.FileSystem.LoadCluster | drivers/filesys.c:133-145 | Buffer, index and result as in the model, also for a read that fails half way. |
| FileSystem.FileSystem.TraverseFat | drivers/filesys.c:149-177 | The loop over the array is the walk through the cache; entries behind the walk are untouched. |
| FileSystem.FileSystem.OpenDirectory | drivers/filesys.c:181-189 | Loads the first cluster; currentDir is not assigned. |
| FileSystem.FileSystem.LoadFileSystem | drivers/filesys.c:193-212 | Header, root chain and root cluster, up to the first failure. |
| FileSystem.FileSystem.TakeLong | drivers/filesys.c:323-346 | A long-name record's number is checked and its 13 characters go to their place in the name buffer. |
| FileSystem.FileSystem.SearchCluster | drivers/filesys.c:314-396 | The loop over the buffered cluster ends and finds what the scan of its records finds. |
| FileSystem.FileSystem.FindFile | drivers/filesys.c:283-399 | 0 and the record's type, size and walk from its start cluster (0 standing for the root), or -1 and the file structure untouched; a failed walk is not reported. |
| FileSystem.FileSystem.ListFiles | drivers/filesys.c:402-490 | Prints the listing of the records and changes nothing else but the buffered cluster. |
| FileSystem.FileSystem.PrintFile | drivers/filesys.c:269-279 | The loop prints cluster by cluster, size going down by 2048 in 32-bit arithmetic, failed reads ignored. |
| ShortName.GetShortName | drivers/filesys.c:216-266 | The twelve bytes of the buffer and the result, for every name: accepted are exactly `.`, `..`, up to eight capitals, and one to nine capitals, a dot and at most two capitals. |
| ShortName.AcceptedIff | drivers/filesys.c:223-265 | The same of the function the searches use. |
| ShortName.CapitalsArePadded | drivers/filesys.c:230-255 | For up to eight capitals the buffer is the name, spaces up to eleven bytes, and a zero. |
| ShortName.ExtensionOverBase | drivers/filesys.c:258-262 | With an extension, byte by byte: the extension and a zero lie over the beginning of the base name, of which the last byte is missing. |
| ShortName.KeyWithoutExtension | drivers/filesys.c:242-255 | A name without an extension, `.` and `..` give the eleven bytes of the directory form. |
| ShortName.KeyWithExtension | drivers/filesys.c:258-262 | An accepted name with an extension gives the extension alone. |
| ShortName.KeyIsDirectoryFormIff | drivers/filesys.c:241-263 | An accepted name is looked for in its directory form if and only if the extension branch is not taken. |
| Directory.ScanSeesItems | drivers/filesys.c:314-468 | On every well-formed directory (deleted records, files with their long-name runs numbered k to 1, then nothing or a zero record) no fragment leaves the name buffer, the search finds the first file whose short or long name is the one looked for and misses exactly when there is none, and the listing is the list of the files' names. |
| Directory.RunScans | drivers/filesys.c:323-346 | A run of long-name records leaves its assembled name in the buffer, whatever is looked for. |
| Directory.LongNameRoundTrip | drivers/filesys.c:14-346 | Every name of 1 to 104 bytes, written as long-name records (section 7 of the Microsoft FAT specification), is a well-formed run that the scan assembles to exactly that name, multiples of 13 included. |
| Directory.FragmentUnits | drivers/filesys.c:14-346 | The characters of any long-name record: two-byte units at their thirteen places, a unit above 255 ending the name. |
| Directory.ShortRecordRoundTrip | drivers/filesys.c:10-363 | What the scans take from a short record (section 6 of the Microsoft FAT specification) is the name, first cluster, size and directory bit written into it. |
| Directory.MarkedRecords | drivers/filesys.c:314-322 | A record that begins with 0xE5 is passed over, one that begins with 0 ends both scans. |
| Directory.BrokenRunEndsScan | drivers/filesys.c:323-336 | So does a long-name record that has not the number expected, whatever follows. |
| Directory.UnannouncedFragmentEndsScan | drivers/filesys.c:285-336 | At the beginning of a directory that is any long-name record but the first of a run. |
| Directory.OrphansAreIgnored | drivers/filesys.c:323-376 | A file behind a run whose last fragments are missing is found and listed under its short name alone, and the scan goes on expecting the missing number. |
| Directory.EncodedRun | drivers/filesys.c:339-345 | The fragments of a name, last one first, are numbered downwards and assemble to the name and zeros. |
| Directory.ListedIsFound | drivers/filesys.c:216-468 | Every name the listing shows that its own file answers to is found, at the first file that bears the name looked for. |
| Directory.AnswersToListedNameIff | drivers/filesys.c:216-468 | Every file: it answers to the name it is listed under if and only if `getShortName` refuses that name or turns it into the name in the short record. |
| Directory.LegalShortIsRefused | drivers/filesys.c:219-265 | `getShortName` refuses every short name as it stands in a legal record, so these are always found. |
| Directory.AcceptedLongNameIsFoundIff | drivers/filesys.c:303-354 | A file listed under a long name that `getShortName` accepts answers to it if and only if no extension was split off and its short record is the directory form. |
| Volume.DirectoryOperations | drivers/filesys.c:283-490 | `findFile` and `listFiles` on a well-formed directory, as operations on the volume: name too long, cluster not readable, no such file, or the first file of that name; the listing. |
| Volume.LongNameIsFound | drivers/filesys.c:283-363 | Every name of 1 to 104 bytes that `getShortName` refuses, written in long-name records anywhere in a well-formed directory: `findFile` finds the first file that bears it. |
| Volume.ListedFileIsFound | drivers/filesys.c:283-468 | The same of every listed name of at most 104 bytes that its own file answers to. |
| Volume.LongerNamesAreMissed | drivers/filesys.c:291-293 | A longer name is turned away before anything is read. |
| Volume.BufferIsNamed | drivers/filesys.c:133-146 | `load_Cluster` fails exactly when a read it made failed; otherwise the buffer begins with the cluster and is named after it. |
| Volume.FailedOpenMixesBuffer | drivers/filesys.c:133-191 | A directory that cannot be opened: what counts as opened stays as it was, but the sectors read before the failure are in the buffer in front of the old ones. |
| Volume.FailedReadPrintsBuffer | drivers/filesys.c:269-279 | A cluster of which nothing can be read is not left out: what the buffer holds is printed once more. |
| Volume.PrintsAsMany | drivers/filesys.c:269-279 | Whatever reads fail, as many bytes are printed as size and number of clusters ask for. |
| Volume.PrintsFile | drivers/filesys.c:269-279 | With clusters of 2048 bytes and no failed read, exactly the bytes of the file's clusters that its size covers are printed. |
| Volume.FoundFileIsPrinted | drivers/filesys.c:149-399 | From a name to its contents: what is printed of a file found by name is its chain followed on the disk without a cache, as far as eight clusters and the recorded size go; with a coherent cache for every start cluster. |
| Volume.MountLoadsCache | drivers/filesys.c:193-212 | Mounting with nothing loaded yet leaves a coherent cache. |
| Volume.MountFailsIffReadFails | drivers/filesys.c:193-212 | Mounting fails exactly when a read it made failed. |
| Volume.MountReadsSectorOne | drivers/filesys.c:193-202 | Sector 1 is asked for first; if it cannot be read nothing else changes. |
| Volume.MountedFileIsPrinted | drivers/filesys.c:193-399 | Mount, find and print one after the other, on any disk whose root the walk can start from. |
| Volume.PrintReads | drivers/filesys.c:269-279 | `printFile` asks the drive for the sectors of the file's clusters, in order, and for no others. |
| Volume.PrintForgetsDirectory | drivers/filesys.c:181-312 | A directory opened is the one searched until a file is printed; then the searches are back at the first cluster of currentDir. |
| KernelRuns.RunSettles | drivers/filesys.c:133-490 | After mounting and any number of `cd`, `cat` and `ls`, failed reads included: the header is the one on the disk, currentDir begins with the root, no directory but the buffered one counts as opened, and nothing has come behind the sectors of a cluster in the buffer. |
| KernelRuns.RunStaysWarm | drivers/filesys.c:118-212 | From a root whose FAT sector is not numbered -1, the FAT cache is coherent after every such run. |
| KernelRuns.ExecuteSettles | kernel/kernel.c:12-68 | One command keeps all of that. |
| KernelRuns.MountSettles | drivers/filesys.c:193-212 | Mounting from the zeroed globals establishes it. |
| KernelRuns.RootIsAlwaysFoundIff | drivers/filesys.c:18-212 | `loadFileSystem` finds the root's chain on every disk with a given boot sector if and only if the FAT sector of the root's first cluster is not numbered -1, or is the boot sector itself and holds a 0 there. |
| KernelRuns.RootIsMissed | drivers/filesys.c:18-212 | Otherwise a disk with that boot sector on which it does not. |
| KernelRuns.StaysOpenIff | drivers/filesys.c:181-312 | On every disk with a given boot sector and after every run on it, a directory opened is also the one searched after a file was printed, if and only if it begins in the sector in which the root begins. |
| KernelRuns.AnotherDirectoryIsSearched | drivers/filesys.c:181-312 | A disk with that boot sector on which it is another one. |
| Shell.RunIsShell | kernel/kernel.c:12-104 | On every disk whose root the walk can start from and without failed reads: after mounting and any number of commands, what has been printed and which directory commands look at are those of a shell that has neither caches nor buffers, reads directories and chains off the disk, and goes back to the root after every `cat`. |
| Shell.CommandMirrors | kernel/kernel.c:12-68 | One command keeps kernel and shell together. |
| Shell.PrintsPadded | drivers/filesys.c:269-279 | What `printFile` prints in any such state: each cluster filled up to 2048 bytes with zeros, as far as the size, which goes down in 32-bit arithmetic, covers it. |
| Shell.WholeClustersPrinted | drivers/filesys.c:269-279 | With clusters of 2048 bytes that is the part of the file its size covers. |
| Printing.PrintIsExactIff | drivers/filesys.c:269-279 | What is printed is right on every disk with a given boot sector and after every run of commands on it, if and only if clusters have 2048 bytes or the file ends in its first cluster. |
| Printing.TailIsPrinted | drivers/filesys.c:274-277 | Behind a cluster of less than 2048 bytes zeros are printed. |
| Printing.TailIsWrong | drivers/filesys.c:274-277 | A disk with that boot sector on which the file goes on otherwise, or ends there. |
| Header.WriteBinary | _media_utility/src/FAT32.cpp:115-163 | The kernel's decoder gets every field back from the sector written; jump, boot signature; boot code and the gaps between the reserved words are untouched, and so is everything outside the sector. |
| Header.RegionsMakeHeader | drivers/FAT32.c:5-42 | The fields by region are together what `readHeader` decodes. |
| Header.FatHeader.ReadHeader | drivers/FAT32.c:5-42 | The decoder fills the structure in field by field; together the fields are those of the sector. |
| Layout.RegionsFollow | _media_utility/src/FAT32.cpp:24-30 | For every partition size and 1, 2, 4 or 8 sectors per cluster: boot sectors, both FATs and data clusters follow one another, and the entry of every data cluster lies inside the first FAT. |
| Layout.NoSpareFatSector | _media_utility/src/FAT32.cpp:24-30 | All but the last sector of a FAT are full of entries of the partition's clusters. |
| Layout.NothingOverlaps | _media_utility/src/FAT32.cpp:24-30 | Two different data clusters share no sector. |
| Layout.ClusterLbaIsStart | _media_utility/src/FAT32.cpp:24-30 | The 32-bit address arithmetic does not wrap on a cluster of the partition. |
| Layout.ThreeBytesSufficeIff | drivers/filesys.c:87-90 | Every sector of a partition survives the three address bytes if and only if it has fewer than 2^24 sectors. |
| Format.SetVolumeName | _media_utility/src/FAT32.cpp:9-20 | The name, cut off or padded to eleven bytes. |
| Format.SetSize | _media_utility/src/FAT32.cpp:24-30 | The four assignments in their order, later ones using earlier ones, are the layout. |
| Format.AddPartition | _media_utility/src/Format.cpp:11-37 | The partition entry and the boot signature, nothing else touched. |
| Format.RoundsTowardsZero | _media_utility/src/Format.cpp:23-25 | The division used there is C's, for negative ends of very large partitions, too. |
| Format.AddSignature | _media_utility/src/Format.cpp:110-115 | The signature's bytes and nothing else. |
| Format.AddFsInfo | _media_utility/src/Format.cpp:40-63 | An information sector (section 5 of the Microsoft FAT specification). |
| Format.AddFileSystem | _media_utility/src/Format.cpp:67-93 | Header, information sector and trailer, with the loader's code in between kept. |
| Format.MakeImage | _media_utility/src/Format.cpp:139-162 | The thirteen sectors: record, file system, backup at 7 to 9, nothing in the others. |
| Format.ClearStorage | _media_utility/src/FAT32.cpp:81-110 | Both FATs begin with the two reserved entries and the root's end mark, the root is four zero sectors, no other sector changes; -1 exactly when a write was refused. |
| Format.Build | _media_utility/src/Format.cpp:137-189 | 0 exactly when drive, loader file, lock and all four writes are in order, and then the disk is formatted around the loader's code; nothing is written when it fails before the first write. |
| Format.SafetyCheck | _media_utility/src/Format.cpp:119-133 | -1 for a failed read, 0 if the first sector holds the signature, -2 if not. |
| FormatThenMount.FormatThenMount | _media_utility/src/Format.cpp:110-183 | On every disk as formatting leaves it, with any layout the kernel can address: mounting succeeds and recovers the header written, the root's chain is [2, end], every search misses, the listing is empty, the signature is in place. |
| FormatThenMount.FormatAndMount | _media_utility/src/Format.cpp:110-183 | The same by running the modelled operations one after the other: format, check the signature, mount, look for any name, list. |
| FormatThenMount.FreshRuns | kernel/kernel.c:71-105 | On a formatted disk every sequence of `cd`, `cat` and `ls` at all prints nothing and leaves the volume as mounting has left it. |
| FormatThenMount.MountSucceeds | drivers/filesys.c:193-212 | The mounting part of it. |
| FormatThenMount.RootChain | _media_utility/src/FAT32.cpp:93-95 | The walk from the root's cluster over the first FAT sector written. |
| FormatThenMount.BuiltIsMountable | _media_utility/src/Format.cpp:142-149 | The header the utility builds, 8388608 sectors in clusters of four, is one of those layouts. |
| FormattedDisk.LoaderIsOnDisk | _media_utility/src/Format.cpp:97-107 | On every formatted disk the first 1024 bytes of the loader's file stand in sectors 0 and 1, byte for byte, but for the places of signature, partition entry, header and boot signatures. |
| FormattedDisk.BootSectorIsFat32 | _media_utility/src/Format.cpp:137-160 | The fields of its boot sector, with their places and values (section 3 of the Microsoft FAT specification), the scale and the mask for the loader, and the signature. |
| FormattedDisk.InformationSector | _media_utility/src/Format.cpp:40-63 | The free clusters: all but the root's. |
| FormattedDisk.PartitionEntry | _media_utility/src/Format.cpp:11-37 | The bytes of the partition entry. |
| FormattedDisk.TablesAndBackup | _media_utility/src/FAT32.cpp:81-110 | The first sector of both FATs, the empty root, and the copies of sectors 1 to 3. |
| FormattedDisk.ParametersAreConsistent | boot/load_file.s:16-33 | Scale, mask and sectors per cluster on a formatted disk belong together, as the loader takes for granted. |
| FormattedDisk.LoaderOnFormattedDisk | boot/boot.s:142-152 | What kernel_loader asks for holds on a formatted disk, and there is no kernel to be found. |
| Agreement.SearchesAgreeIff | boot/find_file.s:10-52 | On every well-formed directory and for every raw name without zeros, `find_file` given that name and `findFile` given it as a file name find the same record or both none, if and only if neither has anything to find, or the first item with a record of that raw name matches by its short record and the first file bearing the name `getShortName` makes of it has that same record. |
| Agreement.RefusedNamesAgreeIff | boot/find_file.s:10-52 | For a raw name `getShortName` refuses: if and only if the first item with anything to match is a file that matches by its short record and not by a long-name record. |
| Agreement.OrdinaryDirectoriesAgree | drivers/filesys.c:314-376 | So for such a name they agree wherever long names consist of one-byte characters and none is the raw name itself. |
| Agreement.RawSeesItems | boot/find_file.s:13-40 | What `find_file` finds in a well-formed directory. |
| Agreement.LongNameIsRawName | drivers/filesys.c:354 | A directory in which only `findFile` finds the name: a file with the raw name as its long name. |
| Agreement.AcceptedRawNameIsMissed | drivers/filesys.c:258-262 | One in which only `find_file` finds it: a raw name that `getShortName` accepts. |
| Agreement.StartClustersAgreeIff | drivers/filesys.c:355-361 | For the same record they take the same start cluster if and only if it is not 0, or the root's is 0. |
| Agreement.WalkIsChain | drivers/filesys.c:149-177 | The kernel's walk is the loader's chain with the end mark behind it where there is room, for cluster numbers of either sign. |
| Agreement.LoaderAndKernelAgree | drivers/filesys.c:133-177 | For every chain of at most eight clusters within reach the kernel reads the same data sectors in the same order as the loader, and the bytes are the same. |
| Agreement.DataReadsAreReads | boot/load_file.s:44-68 | After the sectors of each cluster the loader reads one sector of the FAT; the others are the chain's data sectors in order. |
| Agreement.OperationsAgree | drivers/filesys.c:133-279 | The same of the operations' own traces: what `load_file` asks the drive for, without its FAT sectors, is what `load_Cluster` asks for on the clusters `traverseFAT` yields, and the bytes loaded are those printed from. |
| Agreement.BothReadTheHeader | drivers/FAT32.c:38-41 | Loader and kernel take FAT, cluster region and cluster size from the same header bytes. |
| KernelFile.RootBegins | boot/boot.s:144-148 | The root directory the loader has in memory begins with the records the kernel scans. |
| KernelFile.SameRecordIff | boot/find_file.s:10-52 | The kernel, at the root and asked for the raw name as a file name, finds the record the loader has found if and only if the loader comes to a short record first and the first file that bears the name has that same record. |
| KernelFile.SameFile | boot/boot.s:155-157 | The chain the loader has put in memory for a record is the file the kernel prints for it. |
| KernelFile.CatShowsKernel | kernel/kernel.c:45-68 | Mounting, any commands that lead back to the root and `cat` of the kernel's name print what the loader has put in memory, as far as the recorded size goes. |

## Left out

- Ports, status polling, `identify`, BIOS interrupts: one operation remains, the read of a sector, which fails or delivers it. A drive that identifies itself is assumed in `LoadFileSystem`; a read of several sectors fails as one of its sectors does.
- The 28-bit address a drive counts up to: a run of sectors that starts below 2^24 goes on beyond it in the model as it does on the drive.
- Attribute bytes of screen cells, colours and the hardware cursor: only character bytes are followed.
- FileSystem: the characters printed are collected in a sequence; `Screen.Screen.PrintStr` says what such a sequence does to the terminal.
- Console input waiting, `trimInput`, how kernel.c comes by its commands, `addPath` and `delPath`: input waiting or one-line text handling.
- GDT, A20, interrupt tables and the switch to 32-bit mode: straight-line hardware set-up.
- Windows calls of the media utility: what the drive reports, whether volumes could be locked and whether a write is accepted are parameters of `Build`; the volume number is a parameter too.
- KernelRuns.RunSettles: follows runs after a successful mount; the kernel goes on after a failed one. kernel.c's own messages, the newline it prints behind a file and the prompt are not part of what is printed.
- Shell.RunIsShell: commands whose scan would leave the buffered cluster are not followed, for the reason given at `FileSystem.FileSystem.FindFile`.
- ShiftedHistory.EditingHolds: what follows a deletion at the left edge or paging after a shift, which may leave the display on stale rows, is not followed further than that one display.
- Machine: memory and registers are fields with value types; segment registers and the upper half of the 64-bit sector number are zero as in the source.
- FileSystem.FileSystem.FindFile: asks for a zero record in the buffered cluster or no further cluster, because `recordOffset` goes on behind the buffer when a second cluster is loaded; directories of several clusters are therefore not covered.
- FileSystem.FileSystem.SearchCluster: the same condition.
- FileSystem.FileSystem.ListFiles: the same condition.
- FileSystem.FileSystem.LoadFileSystem: asks for clusters of at most four sectors, what the 2048-byte cluster buffer holds.
- FileSystem.FileSystem.LoadCluster: the same condition; the code would write behind the buffer.
- FileSystem.FileSystem.OpenDirectory: the same condition.
- FileSystem.FileSystem.PrintFile: the same condition.
- FileSystem.FileSystem.TakeLong: asks that a numbered fragment is one of 1 to 8, the fragments the name buffer has room for; the code would write outside it.
- Keyboard.Keyboard.KeyboardHandler: asks for room in the 2048-byte buffers, behind which the code would write (`LineEditor.LongLineOverruns`); what stands behind the key tables is any table of bytes that does not change.
- Keyboard.Keyboard.SysKeyPress: asks for room for the line when Enter is pressed.
- Keyboard.Keyboard.Enter: the same condition.
- BootLoader.KernelLoader: LOWER, UPPER, the address packet and the stack, which the code keeps below 0x8000, are fields apart from the memory of the model, so that they do not overlap anything is taken from the layout of the loader and not proved.
- LoadFile.LoadFileLoadsChain: the same.
- LineEditor.RunAgrees: holds until the history first fills, after which the history is not the log (`Terminal.ShiftKeepsHistoryIff`); prompts and clears come between lines.
- LoadFile.LoadFile: asks for a finite chain with room in 64 KiB behind the FAT page, and for scale, mask and sectors per cluster that belong together.
- FindFileBoot.FindFile: asks for a match or a zero record among the records in memory; without one the code runs on through memory.
- BootLoader.KernelLoader: asks that the root directory, as loaded, holds the kernel's record or a zero record.
