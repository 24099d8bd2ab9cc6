# a64dbg, modelled and verified in Dafny

a64dbg is a small native debugger for arm64 Linux. This project models the parts of it that keep state across
commands and proves what those parts promise, over every input, every run or every reachable state.

`dafny verify dfyconfig.toml` checks the whole project.

## The parts

- **Memory.dfy** – the tracee's memory: mapped bytes, moved eight at a time. A word is its eight bytes; a read or
  write that would touch an unmapped byte fails (a failing read gives -1), as PEEKTEXT and POKETEXT do.
- **ScanModel.dfy, ScanHistory.dfy, ScanRestore.dfy, ScanSession.dfy, Scanner.dfy** – the differential memory scanner.
  `Scanner` holds the areas with their heap buffers, the 300-row hit table (the four parallel C arrays as one array of
  rows) and the loops; its ghost `heap` is the set of buffers malloc has handed out and free has not taken back, and
  every access and every free requires its buffer to be in it. `ScanModel` says pointwise what a round does,
  `ScanHistory` compares that with a specification that remembers every snapshot, `ScanRestore` is about writing old
  values back, `ScanSession` about what each command of the loop does to memory and prints. What reading an area gives
  is an input of each round, so the tracee may change anything at any time and any read may fail.
- **Tracee.dfy, Connector.dfy, Injection.dfy, Debugger.dfy, Effects.dfy, Overlay.dfy, HwSlots.dfy, Overlap.dfy,
  TrapRuns.dfy** – breakpoints, hardware slots and system calls injected into the tracee. What a resume or a single
  step leads to is an input (`Stop`, `Step`); `KernelStep` states what Linux guarantees of a stepped `svc`. `Effects`
  says in plain numbers what each command changes; `Overlay` and `HwSlots` follow whole runs of commands; `Overlap` and
  `TrapRuns` are about breakpoints that share bytes.
- **SyscallTrace.dfy** – telling entry from exit stops, and following clones. The table of names is a set of numbers.
- **MapsLine.dfy, MapsList.dfy** – `/proc/pid/maps`: the field splitter and the linked list.
- **Tokenizer.dfy, Commands.dfy, Hexdump.dfy** – the input line, the command table, and the layout of a dump.

The classes and their methods follow the C and C++ loops and assignments, long bodies cut into several methods, and are
proved equal to functions on values; the lemmas below are about those functions. What a function computes is also told
a second time without it, in literal numbers and characters (`ScanModel.RowsExactly`, `ScanSession.RecordPromised`,
`Effects`, `SyscallTrace.CallTakes`, `Commands.LineServed`, `MapsLine.SplitPlainly`, `MapsList.ChunksCut`,
`Hexdump.DumpedRows`).

## Where the program differs from its intent or its documentation

The model follows the code. Where it depends on the input whether the intent is met, the exact condition is proved.

- Breakpoints patch eight bytes although an instruction has four. Setting one address and then the one four above it
  loses code: hitting the first erases the trap of the second and leaves the four bytes behind that zero
  (`TrapRuns.SecondTrapLost`). Hits, in any order, that leave no trap give back every code exactly when no address was
  set four above one set before it (`TrapRuns.HitsRestoreExactly`). A SIGTRAP at a breakpoint address is taken for its
  hit whatever raised it; stops at all addresses in the order they were set give back every code exactly when the
  addresses are pairwise eight bytes apart (`Overlap.SameOrderExactly`).
- A refused single step leaves registers changed and, for mmap, the planted code in place
  (`Injection.MmapTransparentExactly`, `Injection.MprotectTransparentExactly`).
- After an mmap that fails with an error other than -1 the error number counts as private memory
  (`Injection.PrivateMemoryUsable`).
- Clearing a hardware slot zeroes all slots below it (`Connector.ClearingAtPc`).
- `while (!feof)` processes what was read last (or the uninitialised buffer) once more, exactly when the text after the
  last newline is empty or fills whole buffers (`MapsList.EachPieceOnceExactly`); so it does for every file that ends in
  a newline (`MapsList.LastLineTwice`). A list of one node is linked to itself and cannot be freed safely, longer ones
  can (`MapsList.FreeSafeExactly`).
- A line beginning with `readm` selects one of two commands, depending on the order of an unordered map
  (`Commands.OrderMattersExactly`).
- The repository's README lists `b`, `break`, `r`, `hpb`, `hbreak`, `s`, `syscall` and `strace`; the command table has
  none of them, so the system call trace cannot be started from the prompt (`Commands.SyscallsUnreachable`).
- Byte dumps advance their row labels by 20 for every five bytes (`Hexdump.BytesReadBackExactly`).

## Model

| member | source | states |
|---|---|---|
| ScanHistory.OneSnapshotSuffices | src/src/Utils/mem_checker.c:149-204 | for every sequence of rounds and read failures: an area is still valid exactly when all reads succeeded and some word satisfied every round; a word is live exactly when each two consecutive full snapshots satisfied that round's predicate; a live word's kept value is the latest snapshot |
| ScanHistory.SessionByArea | src/src/Utils/mem_checker.c:285-300 | in any session of scans, writes, restores and observations an area's state is that of its own rounds alone |
| ScanHistory.SessionRefinesHistory | src/src/Utils/mem_checker.c:274-301 | the same equivalence for every area and word after any session of the command loop |
| ScanHistory.SessionOnlyShrinks | src/src/Utils/mem_checker.c:120-147 | after any further commands no area or word has come back, and a valid area that went through a round has a live word |
| ScanModel.HitsAreLiveWords | src/src/Utils/mem_checker.c:151-207 | the hit count is the number of live words of the areas still valid after the round, though areas are given up only at its end |
| ScanModel.SurvivorRow | src/src/Utils/mem_checker.c:188-195 | every surviving word has its row, at the place given by the number of survivors before it in area and index order |
| ScanModel.RowOrigin | src/src/Utils/mem_checker.c:188-195 | every row is the row of a surviving word: address, previous snapshot value, new value, name |
| ScanModel.RowsSpaced | src/src/Utils/mem_checker.c:192-192 | over disjoint areas no two rows share a byte |
| ScanModel.RowsExactly | src/src/Utils/mem_checker.c:173-195 | every row of a CHANGED round shows two different values and of an UNCHANGED one twice the same, at area start + 8 i, with snapshot, new value and name; every watched and newly read word whose values differ, or agree, has its row |
| ScanRestore.RestoreUndoesRound | src/src/Utils/mem_checker.c:238-254 | up to and including 300 hits every live word reads its previous snapshot again whatever the tracee did meanwhile, no other byte changes, a second restore changes nothing; above 300 nothing happens |
| ScanRestore.RestoreThenScan | src/src/Utils/mem_checker.c:168-199 | after a restore with the tracee idle, the same round keeps exactly the same words with old and new values exchanged, and the opposite round gives up every area |
| ScanRestore.RescanArea | src/src/Utils/mem_checker.c:173-186 | a word showing its earlier value passes the same predicate again and fails the opposite one |
| ScanSession.RecordPromised | src/src/Utils/mem_checker.c:209-301 | after any commands: write puts the eight bytes; restore, over disjoint areas, gives every watched word its value before the last round, if at most 300 are left, and no other byte changes, else nothing does; observe shows the word now at each row, or repeats the value before; a round lists its rows if fewer than 300 |
| Scanner.MemChecker.InitialMemoryRead | src/src/Utils/mem_checker.c:95-118 | new separate buffers for every area, allocated also where the read fails; the areas stand as after their initial read |
| Scanner.MemChecker.FilterWord | src/src/Utils/mem_checker.c:169-198 | one word: a word not out stays exactly when its values differ in a CHANGED round or agree in an UNCHANGED one; then its row with address, old and new value is recorded and the snapshot renewed, else it is marked out |
| Scanner.MemChecker.FilterArea | src/src/Utils/mem_checker.c:154-202 | the in-place loop filters the area pointwise, appends its rows, and frees its temporary buffer on both paths |
| Scanner.MemChecker.ReleaseArea | src/src/Utils/mem_checker.c:125-145 | a valid area without live words becomes invalid and both its buffers are freed; nothing else changes |
| Scanner.MemChecker.InvalidateMemory | src/src/Utils/mem_checker.c:120-147 | exactly the valid areas without live words are released; of each both buffers, and no others, leave the heap |
| Scanner.MemChecker.CheckForChanges | src/src/Utils/mem_checker.c:149-224 | a whole round: states, count, table, the rows printed (none for 300 or more), and exactly which snapshots and bitmaps it frees |
| Scanner.MemChecker.RestoreMemory | src/src/Utils/mem_checker.c:238-254 | the memory that results from the restore command |
| Scanner.MemChecker.ObserveMemory | src/src/Utils/mem_checker.c:256-272 | what is shown for each hit, a failed read repeating the value before it |
| Scanner.MemChecker.Execute | src/src/Utils/mem_checker.c:285-300 | the areas, the memory and the output after any one command |
| Scanner.MemChecker.RunMemChecking | src/src/Utils/mem_checker.c:274-301 | the command loop leaves areas, count and table as the session prescribes, and each command does to memory and prints what `ScanSession.RecordPromised` says, using no freed buffer |
| Connector.Connector.AllocateMemoryInChild | src/src/Connector.cpp:144-183 | tracee and private memory after planting, stepping and restoring, or after a refused step |
| Connector.Connector.MprotectMemory | src/src/Connector.cpp:185-222 | tracee and result for each guard, a refused step and a step that ran |
| Connector.Connector.SetHwBreakpoint | src/src/Connector.cpp:224-252 | slot n alone changes although slots 0 to n are written; nothing changes on failure |
| Connector.Connector.ClearHwBreakpoint | src/src/Connector.cpp:254-273 | slots 0 to idx become zero and the slots above stay |
| Connector.Connector.ClearSlotsAt | src/a64dbg.cpp:140-149 | the loop zeroes all slots up to the highest that held the stopped pc |
| Connector.ClearingAtPc | src/a64dbg.cpp:137-149 | afterwards no armed slot holds the pc and the slots above the highest match survive; only matching slots are cleared exactly when no armed slot for another address lies below one |
| Injection.MmapTransparent | src/src/Connector.cpp:144-183 | registers and all mapped bytes end as they began, on whatever word pc stands; the call was mmap with its arguments; the new page starts with an svc |
| Injection.MmapTransparentExactly | src/src/Connector.cpp:164-176 | registers and mapped bytes are kept exactly when the step ran, whether the call then succeeded or failed, or everything already looked as planted |
| Injection.PrivateMemoryUsable | src/src/Connector.cpp:169-180 | private memory holds an svc exactly when mmap did not fail; mprotect relies on it exactly when the result was not -1 |
| Injection.MprotectTransparent | src/src/Connector.cpp:198-221 | number 226 runs with the caller's arguments and nothing else changes |
| Injection.MprotectTransparentExactly | src/src/Connector.cpp:210-220 | registers and memory are kept exactly when the step ran, or the registers already held the arguments |
| Debugger.Debugger.SetBreakPoint | src/a64dbg.cpp:36-54 | the trap word is written and the word read before it is saved, unless one is saved already |
| Debugger.Debugger.Continue | src/a64dbg.cpp:114-161 | state after any stop: restored word, cleared slots, or neither; `Effects.StopEffects` tells it in full |
| Debugger.Debugger.MprotMem | src/a64dbg.cpp:237-262 | the command does nothing on an unparsable argument and otherwise what the connector does |
| Effects.StopEffects | src/a64dbg.cpp:114-161 | after a stop the registers are those it stopped with, pc included; at a breakpoint the saved bytes are written, else the memory is as found; slots change only at a SIGTRAP elsewhere |
| Effects.SetBpEffects | src/a64dbg.cpp:47-53 | the bytes 00 00 20 D4 and four zeros are written and the bytes that stood there remembered, all ones if unmapped; an address set before keeps its bytes |
| Effects.SetHwEffects | src/src/Connector.cpp:224-252 | one slot becomes the address rounded down to a multiple of four with control 0x781; nothing else changes |
| Effects.NextEffects | src/a64dbg.cpp:270-272 | a step leaves the memory and registers it stops with and makes one call exactly at an svc |
| Effects.RefusedMmapEffects | src/src/Connector.cpp:149-168 | a refused step leaves svc at pc and 0, 1024, 7, 0x22, -1, 0 and 222 in x0 to x5 and x8; nothing else changes |
| Effects.RefusedMprotEffects | src/src/Connector.cpp:185-213 | the call is not tried on -1 or on the private memory; a refused step leaves the arguments, 226 and the private pc in the registers; nothing else changes |
| Effects.RegistersOverRuns | src/a64dbg.cpp:114-161 | over any run without refused injections the registers are those the tracee last stopped with |
| Overlay.StepKeepsOverlay | src/a64dbg.cpp:264-300 | each command that touches the tracee or the table keeps: memory is the image plus exactly the armed patches, the table holds original words, private memory holds an svc |
| Overlay.OverlayOverRuns | src/a64dbg.cpp:360-372 | the same over every run of setting breakpoints of both kinds, hitting, re-arming, stepping, mmap and mprotect; saved words are never replaced |
| Overlay.ImageRestored | src/a64dbg.cpp:129-136 | once every armed breakpoint has been hit, in any order, the original image is back; every saved word is the original one |
| Overlay.InjectionsTransparent | src/src/Connector.cpp:144-222 | over any run of injections registers, slots and mapped bytes are kept and the calls made are exactly those asked for |
| HwSlots.SlotsOverRuns | src/a64dbg.cpp:56-72 | over any run each slot holds the aligned address last accepted for it unless the tracee has since trapped at the address of that slot or one above it; then it is zero |
| Overlap.ByteAfterSameOrder | src/a64dbg.cpp:129-136 | each byte after setting breakpoints and stopping with SIGTRAP at each in the same order, whether its trap still stands or something else raised the signal: original unless two cover it, else a byte of the last but one trap |
| Overlap.SameOrderExactly | src/a64dbg.cpp:129-136 | such stops give back every code image exactly when the addresses are pairwise eight bytes apart |
| Overlap.OppositeOrderRestores | src/a64dbg.cpp:129-136 | in the opposite order each trap stands when its turn comes, and the hits restore the code however the breakpoints overlap |
| TrapRuns.SecondTrapLost | src/a64dbg.cpp:47-53 | with a and then a + 4 set, hitting a gives back a's eight bytes, so the second trap is gone, and leaves the next four bytes zero; nothing else changes |
| TrapRuns.HitsKeep | src/a64dbg.cpp:129-136 | when no address was set four above an earlier one, at any time in any run of hits each four-byte cell shows its trap, or zeros hidden under a trap below, or the code |
| TrapRuns.HitsRestoreExactly | src/a64dbg.cpp:129-136 | for distinct aligned addresses: all runs of hits whose traps stood when hit and that leave no trap give back every code exactly when no address was set four above one set before it |
| SyscallTrace.Tracer.SyscallContinue | src/a64dbg.cpp:163-234 | one call takes exactly one stop; in strace mode all it takes but the last are traps and the last is none unless the stops have run out; the state is what those stops prescribe |
| SyscallTrace.Tracer.TraceAll | src/a64dbg.cpp:163-234 | calls repeated over a stream end in the same state whether strace mode is on or off |
| SyscallTrace.CallTakes | src/a64dbg.cpp:163-234 | how many stops a call takes, told by their kinds |
| SyscallTrace.LogAlternates | src/a64dbg.cpp:199-206 | for any stops at all the plugin calls alternate over the reported traps, and the toggle is their parity |
| SyscallTrace.ReportExactly | src/a64dbg.cpp:182-207 | after any stops a further one makes a plugin call exactly when it is a trap of a named call other than 98, 124, 226 and 233: Before or After by the parity of those made |
| SyscallTrace.LogPairedExactly | src/a64dbg.cpp:182-207 | the log pairs Before and After of the same call exactly when the reported traps come in pairs |
| SyscallTrace.TraceCorrect | src/a64dbg.cpp:163-234 | over every stream of calls, cut off anywhere: log, toggle, and the tracee changing exactly at the second stop of each clone |
| SyscallTrace.CompletedCalls | src/a64dbg.cpp:199-207 | completed calls give Before(n), After(n) for each reported call in order and the toggle back at entry |
| SyscallTrace.SwitchExactly | src/a64dbg.cpp:199-219 | after any stops a trap switches the tracee exactly when forks are followed, it is a clone's and the toggle stood at exit, which the parity of the reported traps decides; the toggle is then at entry for the child |
| SyscallTrace.ConnectorAgrees | src/src/Connector.cpp:13-15 | after any run debugger and connector trace the same process exactly when its pid fits pid_t |
| MapsLine.SplitRendered | src/src/Utils/pmparser.c:114-183 | splitting a rendered line gives back its fields for all blank runs, an empty pathname and anything after it |
| MapsLine.SplitInverse | src/src/Utils/pmparser.c:114-183 | every line that splits is the rendering of the fields found |
| MapsLine.SplitExactly | src/src/Utils/pmparser.c:114-183 | all scans end inside the line exactly when it is such a rendering |
| MapsLine.SplitPlainly | src/src/Utils/pmparser.c:114-183 | a line splits into fields exactly when it is their writing with '-', spaces, tabs and newline only where they separate |
| MapsLine.SplitLine | src/src/Utils/pmparser.c:114-183 | the seven buffers hold the seven fields as terminated strings |
| MapsList.LastLineTwice | src/src/Utils/pmparser.c:28-33 | for any lines and an unfinished last one the buffers are told: a finished last line comes twice, an unfinished one once unless it fills the buffer |
| MapsList.ChunksCut | src/src/Utils/pmparser.c:28-29 | what fgets takes of any file: up to and with a newline, or 4195 characters, or the rest |
| MapsList.BuffersOfFile | src/src/Utils/pmparser.c:28-29 | for every file the loop body sees what fgets takes, in order, and the last of it again exactly when the text after the last newline fills whole buffers |
| MapsList.EachPieceOnceExactly | src/src/Utils/pmparser.c:28-29 | for every file the buffers joined give the file back exactly when the text after its last newline is not empty and does not fill whole buffers |
| MapsList.Attach | src/src/Utils/pmparser.c:57-66 | attaching keeps an acyclic list of distinct nodes, except that a first node alone is linked to itself |
| MapsList.PmparserParse | src/src/Utils/pmparser.c:22-78 | one distinct node per buffer, in order, with the fields the in-place splitter left in its arrays; a list from two nodes on, a single node linked to itself |
| MapsList.Iterator.Next | src/src/Utils/pmparser.c:81-95 | the nodes in order, then null for ever |
| MapsList.Traverse | src/src/Utils/pmparser.c:81-95 | calling it until null takes exactly the nodes of the list, in order |
| MapsList.Heap.PmparserFree | src/src/Utils/pmparser.c:99-112 | needs only that each node is live when freed and when its link is read; then it ends, and a list is freed whole, each node once |
| MapsList.FreeSafeExactly | src/src/Utils/pmparser.c:59-66 | of the nodes that parsing builds the freeing loop touches live ones only exactly when there are at least two |
| Tokenizer.SplitString | src/src/Utils/Utils.cpp:7-20 | exactly the maximal delimiter-free runs, in order |
| Tokenizer.TokensConcat | src/src/Utils/Utils.cpp:7-20 | splitting s, a delimiter and t together is splitting s and splitting t |
| Tokenizer.SplitRender | src/src/Utils/Utils.cpp:7-20 | tokens joined by any delimiter runs are given back |
| Tokenizer.RenderSplit | src/src/Utils/Utils.cpp:7-20 | every line is such a joining of its tokens |
| Commands.OrderIrrelevantExactly | src/src/CmdParser.cpp:107-129 | for any table: a line selects the same entry in every order exactly when no two entries match it |
| Commands.ReadmIsAmbiguous | src/src/CmdParser.cpp:33-94 | of this table two entries match exactly the lines beginning with readm |
| Commands.OrderMattersExactly | src/src/CmdParser.cpp:107-129 | the selected command is independent of the map's order exactly when the line does not begin with readm |
| Commands.CmdParser.GetCmd | src/src/CmdParser.cpp:96-136 | command, lines read and memory for any input are those of `Deliver`, which `Commands.DeliverExactly` tells |
| Commands.LineServed | src/src/CmdParser.cpp:107-129 | in any order of the table a line delivers the command its beginning says, which is remembered; for the five commands with arguments these are its tokens after the first, for others the old ones stay; an unknown line does nothing |
| Commands.DeliverExactly | src/src/CmdParser.cpp:96-136 | exactly the lines up to the first that delivers are read; that one is served so and those before it do nothing |
| Commands.DeliverFollowsHistory | src/src/CmdParser.cpp:96-136 | commands taken one after the other leave what the whole history prescribes |
| Commands.EmptyLineRepeats | src/src/CmdParser.cpp:103-105 | over any history an empty line delivers the last selected command, with exactly the arguments of the line that set it if it takes any |
| Commands.SyscallsUnreachable | src/src/CmdParser.cpp:33-94 | no input delivers the syscall or strace command |
| Hexdump.Dump | src/src/Utils/Utils.cpp:40-77 | the printed rows for any data, length and format; none in an invalid format |
| Hexdump.DumpedRows | src/src/Utils/Utils.cpp:40-77 | the whole layout: label, up to five items and a newline for each row, a second newline after a full last row, labels 20 apart; nothing in a format other than 1 and 4 |
| Hexdump.ReadEmitted | src/src/Utils/Utils.cpp:60-76 | every item appears once, in order, at most five to a row, and with which row label and place |
| Hexdump.WordsReadBack | src/src/Utils/Utils.cpp:54-77 | in format 4 the map from addresses to the little-endian words of the data is read back from the rows |
| Hexdump.BytesReadBackExactly | src/src/Utils/Utils.cpp:61-75 | in format 1 the map from addresses to bytes is read back exactly for at most five bytes |

## Left out

- ptrace, waitpid, fork, execvp, personality and the /proc files themselves: their results are inputs.
- stdio buffering in `fread` and `fwrite`, a partial write across an unmapped byte, and all message text but hit lists and observed values.
- Scanner.MemChecker.CheckForChanges: `hits` is unbounded, the C `int` overflows beyond 2^31 - 1 live words (16 GiB).
- Scanner.MemChecker.ReadMem: a short read leaves part of the buffer written; the area is dropped at once, so only the failure is modelled.
- Overlay.StepKeepsOverlay: commands that only read (memory, registers, help) are no events; the system call commands are in `SyscallTrace`.
- Overlay.OverlayOverRuns: page protections are not modelled, so mprotect appears as a call with arguments and no effect on bytes.
- Overlay.ImageRestored: the tracee writing its own code, execve, and plugins that write memory are excluded by `Allowed`.
- TrapRuns.HitsRestoreExactly: addresses are multiples of four, as pc is on arm64; a trap set elsewhere is never hit.
- MapsLine.SplitLine: the sizes of the caller's buffers are a precondition.
- MapsList.PmparserParse: numbers are kept as text; `sscanf` and `atoi` are library code. Every buffer must split into fields that fit the arrays and the record and hold no NUL, as the C code needs.
- SyscallTrace.TraceCorrect: numbers beyond the table (an unchecked index) and clones that fail are outside the streams considered; names are numbers.
- Connector.Connector.SetHwBreakpoint: reading the slots is taken to succeed, and the slot count to be the kernel's.
- Hexdump.Dump: the `int` index is unbounded, so dumps of 2^31 items and more are not covered.
- `stringToU64`, start-up arguments, help text, plugin registry, register printing, hardware capability probing: thin or library code.
- `pmparser_print`, `pmparser_print_minimal`: printing only.
