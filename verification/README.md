# The debugger front ends of a multi-machine emulator

This project models the debugger side of the emulator and states what its commands, file
formats and protocols keep. The machine behind them is plain RAM behind an address mask, a
register file, and an arbitrary `step`; the disassembler is an arbitrary function of the address.

- `RoutineAnalyser`: `analyze routine`, a worklist over the control-flow graph with a visited set
  and an instruction budget.
- `MemorySearch`, `BlockTools`: `search`, `findnext`, `findprior`, `copy` and `swap` over a circular
  address space.
- `Snapshot`: the VICE snapshot saver and loader.
- `GdbCodec`, `ContinueLoop`, `GdbPackets`, `GdbSession`, `GdbServer`: the GDB remote server, from
  hex digits to whole sessions. Framing follows the GDB manual, appendix "GDB Remote Serial
  Protocol", section "Overview".
- `LineSplitter`, `SerialMonitor`, `MonitorText`, `TestBridge`, `DumpParser`, `PythonSdk`: the text
  monitors and the two clients of the serial one, each together with the server's printed text, and
  with responses that arrive in pieces.
- `TraceRing`, `TimeTravel`, `TraceProfile`: the instruction trace, reverse execution, `trace dump`
  and `profile`.
- `MapTranslation`, `TestHistory`, `ViceMonitor`: MAP address translation, the extension's test
  history, and the VICE monitor's addresses and checksums.
- `Machine`, `Modular`, `HexText`, `Text`, `Iteration`, `Options`: memory, arithmetic of masked
  addresses, number formats and words shared by the rest.

Objects that the source updates in place are classes here (`Bus`, `Cpu`, `Searcher`, `Connection`,
`Server`, `Bridge`, `Client`, `CircularBuffer`, `Debugger`, `TestPersistence`). Each of their methods
is tied to a function of the old state, and the properties are lemmas about those functions. No
lemma rests on Dafny's automatic induction.

## Where the code does less than it promises

Each point is stated by the lemma named, with the exact condition under which the code is right.

- `backstep`: the bytes a back step restores go through the observed bus and are recorded on the
  entry in front, so a second back step first puts them back. What every cell holds afterwards is
  `TimeTravel.BackstepCells`; `backstep k` is right exactly under `TimeTravel.BackstepExactly`, and
  all of its prefixes are under `TimeTravel.BackstepsExactly`. `TimeTravel.SecondBackstepRedoes` and
  `TimeTravel.ThirdBackstepRestores` are runs where it is wrong, and wrong and right again.
- The trace buffer reads by index from slot 0 as soon as it is not full, also after a back step from
  an overflowed buffer (`TraceRing.ReadsPushExactly`, `TraceRing.PoppedIsRead`), and so does
  `trace dump` (`TraceProfile.DumpIsTrueExactly`).
- `findnext` prints nothing at all in some cases without a match (`MemorySearch.SilentExactly`).
- The truncation note is also printed for a routine of exactly the budgeted size
  (`RoutineAnalyser.CompleteExactly`).
- `swap` of overlapping ranges is not an exchange (`BlockTools.ExchangesExactly`), and the second
  range keeps the first one's bytes only if the ranges fit the bus
  (`BlockTools.SecondGetsFirstExactly`).
- A snapshot cut at the first byte of a payload fails like one cut further in
  (`Snapshot.LoadCutFile`).
- A snapshot taken on one bus and loaded into a smaller one can lose bytes
  (`Snapshot.RestoredRamExactly`).
- A GDB packet whose two checksum bytes arrive apart ends the session (`GdbSession.ReceivesAll`).
- A GDB continue polls the client's stream, and the wait behind each reply reads one byte of it: the
  packets of a client that does not wait are lost exactly as `GdbSession.SurvivingExactly` says.
- The Python client's `read_memory` stops receiving at the first chunk with a line feed, and returns
  the bytes asked for exactly under `PythonSdk.ReadMemoryExactly`; `PythonSdk.FirstLineOnly` is a
  split that fails. Whatever length it is given, it asks for one dump of 256 bytes
  (`PythonSdk.LongReadIsShort`); it fails on memory that spells ERROR (`DumpParser.DumpParses`), and
  it is served another place than the one asked for from 0xFFFFFFFF on (`PythonSdk.ServedAsAsked`).
- What a `read_memory` leaves unread is what the next one reads (`PythonSdk.ReadBehind`), so a right
  read can spoil the next (`PythonSdk.SecondReadIsStale`, `PythonSdk.StaleReadFails`). A run of reads
  is right exactly under `PythonSdk.RunRightExactly`, or, if each receives its whole response,
  `PythonSdk.ConsumedRunExactly`.
- The bridge makes one `recv` per command: a load is reported accepted exactly under
  `TestBridge.LoadWrites`, and a read is right for every memory exactly under `TestBridge.ReadReads`;
  single commands are in `TestBridge.SetExactly`, `TestBridge.ReadChunkExactly` and
  `TestBridge.StaleChunk`.
- The bridge's chunk loop and the checksum loop do not end for the largest arguments
  (`TestBridge.ReadEndsExactly`, `ViceMonitor.LoopEndsExactly`).
- A test's last status can outlive its run when times are not in order: the limits that allow it are
  given by `TestHistory.LastStatusStaysExactly`, and `TestHistory.StaleFailureIsLost` is such a run.
- MAP translation leaves the selected megabyte when its sum wraps
  (`MapTranslation.InMegabyteExactly`).
- `parseAddress` takes an unmarked hex number without letters for a decimal one
  (`ViceMonitor.BareAddressExactly`).

## Model

| member | source | states |
|---|---|---|
| `RoutineAnalyser.Analyze` | src/cli/main/cli_interpreter.cpp:2358-2440 | For every decoder, entry and budget the command terminates; it visits only addresses that control flow reaches from the entry, all of them when it reports no truncation; decodes none twice; holds one call, loop and exit entry per visited instruction of that kind; and its range is the tight hull of the decoded bytes and the entry |
| `RoutineAnalyser.AnalyzeInOrder` | src/cli/main/cli_interpreter.cpp:2393-2440 | The same of every order in which the worklist may be emptied; the code takes the newest target first |
| `RoutineAnalyser.Explore` | src/cli/main/cli_interpreter.cpp:2393-2426 | The worklist loop, whichever pending target is taken next: ends with every successor of a visited address visited, unless the budget is used up |
| `RoutineAnalyser.FollowLine` | src/cli/main/cli_interpreter.cpp:2397-2425 | The straight-line loop keeps that every successor of a visited address is visited or queued, and every visited address reachable |
| `RoutineAnalyser.DecodeAt` | src/cli/main/cli_interpreter.cpp:2401-2424 | One instruction: what it books, where control continues, and which branch target is queued |
| `RoutineAnalyser.CountCalls` | src/cli/main/cli_interpreter.cpp:2439-2440 | The count per target is its multiplicity in the call list, and the counts add up to the number of calls |
| `RoutineAnalyser.TruncatedExactly` | src/cli/main/cli_interpreter.cpp:2435 | The truncation note is printed exactly if the reachable code has at least as many instructions as the budget; the instruction count is the smaller of the two |
| `RoutineAnalyser.CompleteExactly` | src/cli/main/cli_interpreter.cpp:2393-2435 | The lists and the range cover the whole routine exactly if its instructions fit the budget, also when the note is printed for a routine of exactly that size |
| `RoutineAnalyser.OrderIrrelevant` | src/cli/main/cli_interpreter.cpp:2393-2440 | Two complete reports of one routine agree in everything but the order of the lists, in whatever order the worklist was emptied |
| `RoutineAnalyser.VisitedFollow` | src/cli/main/cli_interpreter.cpp:2408-2424 | A complete report visits the entry and, with every decoded address that is no return: what is behind a call, both ways of a branch, the target of opcode 0x4C, nothing behind 0x6C and 0x00, and what is behind any other opcode |
| `RoutineAnalyser.VisitedIsLeast` | src/cli/main/cli_interpreter.cpp:2408-2424 | No report visits more than any set that holds the entry and is closed under those steps |
| `RoutineAnalyser.ExitsTell` | src/cli/main/cli_interpreter.cpp:2408-2422 | An address is listed as an exit, once, exactly if it was visited and decodes to a return, or to 0x6C or 0x00 without a call or branch flag |
| `RoutineAnalyser.CallsTell` | src/cli/main/cli_interpreter.cpp:2409-2411 | A call is listed, once, exactly if its address was visited and decodes to a call of that masked target |
| `RoutineAnalyser.LoopsTell` | src/cli/main/cli_interpreter.cpp:2412-2417 | A loop is listed, once, exactly if its address was visited and decodes to a branch whose masked target does not lie above it |
| `RoutineAnalyser.RangeTells` | src/cli/main/cli_interpreter.cpp:2405-2406 | The range holds the first and the last byte of every decoded instruction |
| `RoutineAnalyser.CountsTell` | src/cli/main/cli_interpreter.cpp:2404-2413 | The instruction and branch counts are those of the visited addresses that decode to one |
| `RoutineAnalyser.NewestIsLast` | src/cli/main/cli_interpreter.cpp:2394 | The target queued last is taken first |
| `RoutineAnalyser.ClosedIsComplete` | src/cli/main/cli_interpreter.cpp:2408-2424 | A set that holds the entry and is closed under the successors holds everything reachable by any path |
| `RoutineAnalyser.TrailLists` | src/cli/main/cli_interpreter.cpp:2408-2421 | Booking each decoded instruction once, in any order, gives exactly the calls, loops and exits of the set |
| `RoutineAnalyser.TrailHull` | src/cli/main/cli_interpreter.cpp:2405-2406 | The running minimum and maximum are the tight hull of the decoded bytes |
| `MemorySearch.Searcher.Search` | src/cli/main/cli_interpreter.cpp:1846-1875 | Reports exactly the ascending list of matches that do not wrap, and leaves the cursor on the first, or says there is none |
| `MemorySearch.MatchesAre` | src/cli/main/cli_interpreter.cpp:1862-1874 | The reported list is ascending and holds an address if and only if the pattern lies there |
| `MemorySearch.MatchIs` | src/cli/main/cli_interpreter.cpp:1863-1869 | The pattern lies at an address exactly if it fits there and its bytes are those of the memory |
| `MemorySearch.Searcher.Compare` | src/cli/main/cli_interpreter.cpp:1864-1869 | The byte-by-byte comparison decides whether the pattern lies at an address |
| `MemorySearch.Searcher.FindNext` | src/cli/main/cli_interpreter.cpp:1902-1922 | Moves to the first match met going up from behind the last hit, around the bus; without a match it leaves the cursor, and prints its message only if the last probed cell has room for the pattern |
| `MemorySearch.Searcher.FindPrior` | src/cli/main/cli_interpreter.cpp:1923-1945 | Moves to the first match met going down, around the bus; otherwise reports that there is none |
| `MemorySearch.NextInList` | src/cli/main/cli_interpreter.cpp:1906-1920 | From a match, the next hit is the next one of the list, and the first after the last |
| `MemorySearch.RunIsRotation` | src/cli/main/cli_interpreter.cpp:1902-1922 | A run of findnext commands walks the match list in order, around and around |
| `MemorySearch.RunVisitsAll` | src/cli/main/cli_interpreter.cpp:1902-1922 | As many findnext commands as there are matches visit every match once and return to the start |
| `MemorySearch.PriorInvertsNext` | src/cli/main/cli_interpreter.cpp:1902-1945 | findprior is the inverse of findnext on the matches |
| `MemorySearch.FreshCursor` | src/cli/main/cli_interpreter.cpp:1906-1927 | Without a hit, findnext starts at the first match and findprior at the last |
| `MemorySearch.SilentExactly` | src/cli/main/cli_interpreter.cpp:1909-1921 | What findnext prints when no match is left is nothing at all exactly if the pattern does not fit behind its last probe; after a search without result that is every pattern of two bytes or more |
| `BlockTools.Copy` | src/cli/main/cli_interpreter.cpp:1812-1820 | copy writes the bytes read from the source before the first write, upwards from the destination |
| `BlockTools.CopyMoves` | src/cli/main/cli_interpreter.cpp:1818-1820 | However the ranges overlap or wrap, and even longer than the memory, the destination ends with the original source bytes and all other cells keep theirs |
| `BlockTools.SavePass` | src/cli/main/cli_interpreter.cpp:1831-1837 | The first loop of swap, step by step |
| `BlockTools.Swap` | src/cli/main/cli_interpreter.cpp:1825-1839 | swap leaves the memory that its two loops describe |
| `BlockTools.SwapCells` | src/cli/main/cli_interpreter.cpp:1831-1838 | What every cell holds after swap, for every overlap of ranges that fit the bus |
| `BlockTools.SecondGetsFirstExactly` | src/cli/main/cli_interpreter.cpp:1831-1838 | The second range ends with the original bytes of the first in every memory, exactly if the ranges fit the bus or start at one cell |
| `BlockTools.ExchangesExactly` | src/cli/main/cli_interpreter.cpp:1831-1838 | swap exchanges the ranges in every memory exactly if they coincide, are disjoint, or lie half a bus apart |
| `BlockTools.SwapTwice` | src/cli/main/cli_interpreter.cpp:1825-1838 | Such a swap is its own inverse |
| `BlockTools.SwapSame` | src/cli/main/cli_interpreter.cpp:1831-1838 | Swapping a range with itself changes nothing |
| `Snapshot.ReadLE16` | src/cli/main/vice_snapshot.cpp:14-26 | Reading a written 16-bit field gives the value back |
| `Snapshot.ReadLE32` | src/cli/main/vice_snapshot.cpp:18-33 | Reading a written 32-bit field gives the value back |
| `Snapshot.LoadFile` | src/cli/main/vice_snapshot.cpp:46-130 | The module walk on a file, in place: outcome, registers and memory, for every sequence of bytes; it always ends |
| `Snapshot.LoadCpuModule` | src/cli/main/vice_snapshot.cpp:132-167 | A CPU payload of at least 7 bytes sets the program counter and the registers the CPU has; a shorter one changes nothing |
| `Snapshot.LoadRamModule` | src/cli/main/vice_snapshot.cpp:169-190 | A RAM payload writes the smaller of the announced and the present number of bytes from address 0 |
| `Snapshot.CpuModuleTells` | src/cli/main/vice_snapshot.cpp:132-167 | A module named CPU sets the program counter from bytes 0 and 1, and A, X, Y, SP and P from bytes 2 to 6, if the CPU has them; below 7 bytes it fails |
| `Snapshot.RamModuleTells` | src/cli/main/vice_snapshot.cpp:169-190 | A module named RAM writes as many bytes as its first field says, or as there are, from address 0 up |
| `Snapshot.OtherModules` | src/cli/main/vice_snapshot.cpp:108-126 | A module of any other name changes nothing |
| `Snapshot.LoadCutFile` | src/cli/main/vice_snapshot.cpp:59-130 | A well-formed file cut anywhere fails to load exactly if the cut lies in the file header or in a payload, its first byte included; the effect is always that of the modules in front of the cut, in order |
| `Snapshot.CutModules` | src/cli/main/vice_snapshot.cpp:84-127 | The same for the module list |
| `Snapshot.WholeIsLargest` | src/cli/main/vice_snapshot.cpp:85-98 | The modules in front of a cut are as many as fit |
| `Snapshot.SaveFile` | src/cli/main/vice_snapshot.cpp:214-280 | The saved bytes, for every machine name and state |
| `Snapshot.FillHeader` | src/cli/main/vice_snapshot.cpp:227-239 | The 40-byte header, filled in place |
| `Snapshot.WriteModule` | src/cli/main/vice_snapshot.cpp:243-257 | A module header and its payload |
| `Snapshot.CreateCpuModule` | src/cli/main/vice_snapshot.cpp:282-302 | The CPU payload; registers the CPU lacks are saved as 0 |
| `Snapshot.CreateRamModule` | src/cli/main/vice_snapshot.cpp:304-317 | The RAM payload of 65540 bytes |
| `Snapshot.SavedBytes` | src/cli/main/vice_snapshot.cpp:214-317 | The saved file byte by byte: header, names, versions, sizes, the registers in order, and 65536 bytes of memory |
| `Snapshot.FieldIs` | src/cli/main/vice_snapshot.cpp:225-229 | A name field holds the first 15 characters of the name, up to its first NUL, and NULs |
| `Snapshot.SaveThenLoad` | src/cli/main/vice_snapshot.cpp:46-317 | A saved snapshot loads without error into any state |
| `Snapshot.RestoredCpu` | src/cli/main/vice_snapshot.cpp:132-302 | It brings back the program counter modulo 2^16 and A, X, Y, SP and P modulo 2^8, and leaves all other registers |
| `Snapshot.RestoredExactly` | src/cli/main/vice_snapshot.cpp:282-302 | On a CPU with the same registers each one comes back exactly if it fits its field |
| `Snapshot.RestoredRamExactly` | src/cli/main/vice_snapshot.cpp:184-186 | On a target of any size every one of the 65536 addresses reads as it did exactly if saved bytes that share a cell of the target agree, which they always do on a bus of at least 64K or of a multiple of the saved size |
| `Snapshot.RestoredFrame` | src/cli/main/vice_snapshot.cpp:184-186 | Memory above 64K stays |
| `GdbCodec.BytesOfHexOf` | src/cli/main/gdb_server.cpp:25-44 | Reading printed bytes gives the bytes |
| `GdbCodec.HexOfBytes` | src/cli/main/gdb_server.cpp:25-44 | Printing the bytes of hex text gives the text in lower case |
| `GdbCodec.HandleReadMem` | src/cli/main/gdb_server.cpp:198-211 | The reply to m, for every parameter text, with the numbers that std::stoul reads: blanks, a sign and a 0x in front, text behind |
| `HexText.NumberReads` | src/cli/main/gdb_server.cpp:202-203 | What std::stoul and std::stoi read in base 16: blanks, a sign, a 0x, digits, and anything behind them; a minus sign wraps, and too large a number throws |
| `HexText.NumberMissing` | src/cli/main/gdb_server.cpp:202-203 | They throw if no digit stands behind the sign |
| `GdbCodec.PrintRange` | src/cli/main/gdb_server.cpp:206-210 | The print loop of m |
| `GdbCodec.HandleWriteMem` | src/cli/main/gdb_server.cpp:213-225 | The memory and the reply after M, for every parameter text |
| `GdbCodec.WritePairs` | src/cli/main/gdb_server.cpp:221-223 | The write loop of M |
| `GdbCodec.WriteThenRead` | src/cli/main/gdb_server.cpp:198-225 | M, then m of the same range, returns the data in lower case exactly if digits bound for one cell agree, which data that fits the bus always does |
| `GdbCodec.WriteFrames` | src/cli/main/gdb_server.cpp:213-225 | M leaves every cell outside its range alone |
| `GdbCodec.LongReadIsCut` | src/cli/main/gdb_server.cpp:204 | m returns no more than 64K bytes, however much is asked for |
| `GdbCodec.Malformed` | src/cli/main/gdb_server.cpp:200-219 | Packets without their separators are answered E01 and change nothing; malformed numbers throw |
| `GdbCodec.HandleReadRegs` | src/cli/main/gdb_server.cpp:159-176 | The reply to g, also of a CPU that lists no PC or lacks other registers |
| `GdbCodec.HandleWriteRegs` | src/cli/main/gdb_server.cpp:178-196 | The registers after G, for every packet |
| `GdbCodec.WriteRegsPrefix` | src/cli/main/gdb_server.cpp:181-194 | G sets exactly the registers that its data holds in full, a prefix of the register order |
| `GdbCodec.RegsInOrder` | src/cli/main/gdb_server.cpp:159-176 | The reply to g holds A, X, Y, SP, the low and high byte of the program counter, and P, in this order |
| `GdbCodec.RegsFromPacket` | src/cli/main/gdb_server.cpp:178-196 | G with 14 digits sets those registers from the digits at their places, and no others |
| `GdbCodec.NoRegs` | src/cli/main/gdb_server.cpp:163-167 | A CPU that lists none of the registers prints zeros for them, and G leaves it alone |
| `GdbCodec.WriteRegsThenRead` | src/cli/main/gdb_server.cpp:159-196 | g after G with any 14 hex digits returns those digits in lower case |
| `GdbCodec.ReadThenWriteRegs` | src/cli/main/gdb_server.cpp:159-196 | G with the reply of g changes nothing exactly if every register fits its place in the packet |
| `ContinueLoop.HandleContinue` | src/cli/main/gdb_server.cpp:232-269 | The machine has made the least number of steps, at least one, after which it is paused, at a BRK, interrupted at a multiple of 1024, or at the limit; the reply tells which, and the bytes that its polls have taken off the stream |
| `ContinueLoop.RunEnds` | src/cli/main/gdb_server.cpp:236-269 | The reply is S02 exactly if the run has not reached a pause, a BRK or the limit; then the last byte it has read is an interrupt that had arrived |
| `ContinueLoop.InterruptLatency` | src/cli/main/gdb_server.cpp:253-261 | With q unread bytes in front of it an interrupt ends the run within (q + 1) * 1024 steps |
| `ContinueLoop.QueueDrains` | src/cli/main/gdb_server.cpp:253-261 | Polls take the queued bytes one by one |
| `ContinueLoop.WaitingRun` | src/cli/main/gdb_server.cpp:243-269 | If the client sends nothing while it lasts, a run depends on the machine alone and takes nothing off the stream |
| `GdbPackets.Connection.RecvPacket` | src/cli/main/gdb_server.cpp:67-103 | What one receive returns and consumes, for every stream and every place where a read may stop short |
| `GdbPackets.Connection.ReadToStart` | src/cli/main/gdb_server.cpp:73-83 | Skips to a packet start or an interrupt byte |
| `GdbPackets.Connection.ReadBody` | src/cli/main/gdb_server.cpp:85-92 | Collects the payload up to the packet end |
| `GdbPackets.Connection.SendPacket` | src/cli/main/gdb_server.cpp:105-119 | Writes the framed reply with its checksum, and consumes at most one byte |
| `GdbPackets.FrameSpellsSum` | src/cli/main/gdb_server.cpp:106-110 | Every frame ends in two hex digits that spell the byte sum of its payload modulo 256 |
| `GdbPackets.ChecksumAdds` | src/cli/main/gdb_server.cpp:106-108 | The checksum of one byte is that byte, and checksums of parts add up modulo 256 |
| `GdbSession.RunSession` | src/cli/main/gdb_server.cpp:377-425 | The session loop over the receives of the connection until detach, kill, an exception or the end; the bytes that a packet reads while it is executed, and the one read behind a reply, are gone from the same stream |
| `GdbSession.HandleClient` | src/cli/main/gdb_server.cpp:377-425 | The same for a fresh connection |
| `GdbSession.ReceivesAll` | src/cli/main/gdb_server.cpp:67-119 | Whatever the noise between packets, and whether each acknowledgement is consumed or left in the stream, the payloads are received in order, up to the first whose checksum two reads split |
| `GdbSession.AllDelivered` | src/cli/main/gdb_server.cpp:94-96 | If no checksum is split, every packet is received |
| `GdbSession.SessionOf` | src/cli/main/gdb_server.cpp:377-425 | If the packets leave the stream alone, the outcome of an acknowledging client's session depends only on what the client sent as payloads |
| `GdbSession.SessionIsServe` | src/cli/main/gdb_server.cpp:377-425 | A session whose packets leave the stream alone is the session over its list of received packets |
| `GdbSession.PlainSession` | src/cli/main/gdb_server.cpp:67-425 | Every session, also of a client that does not wait, does not acknowledge, or interrupts a run: after each packet it goes on with the items that survive the bytes dropped |
| `GdbSession.SurvivingExactly` | src/cli/main/gdb_server.cpp:73-83 | After dropped bytes, exactly the packets and interrupts whose first byte was dropped are lost; the others arrive unchanged and in order |
| `GdbSession.StreamSurviving` | src/cli/main/gdb_server.cpp:73-103 | The stream without those bytes is the stream of the surviving items, the rest of a lost one being noise |
| `GdbSession.DropThenRest` | src/cli/main/gdb_server.cpp:253-261 | So a continue that reads some bytes, anywhere in a session, loses exactly the packets whose first byte it or the wait behind its reply has read |
| `GdbServer.RepliesAreClean` | src/cli/main/gdb_server.cpp:129-425 | No reply holds a packet start or a packet end |
| `GdbServer.SessionIsClean` | src/cli/main/gdb_server.cpp:377-425 | No session sends a payload that could be mistaken for its frame |
| `GdbServer.ReplyIsReadable` | src/cli/main/gdb_server.cpp:105-111 | Every such reply is read back whole by the receiving side, behind any noise |
| `GdbServer.WriteReadOverWire` | src/cli/main/gdb_server.cpp:67-425 | Over the wire, whatever the noise, the arrival times and the fate of the acknowledgements: M and then m of the same range is answered with OK and the written digits, and only the memory has changed |
| `GdbServer.StepsOverWire` | src/cli/main/gdb_server.cpp:227-230 | Over the wire, n packets s make n steps of the machine, each answered S05 |
| `GdbServer.RegsOverWire` | src/cli/main/gdb_server.cpp:159-196 | Over the wire, G with 14 hex digits and then g is answered OK and those digits; the six registers are set from their places and nothing else changes |
| `GdbServer.BreakpointOverWire` | src/cli/main/gdb_server.cpp:403-406 | Over the wire, Z and z reach the breakpoint list with the text behind their letter, and the answer tells what it said |
| `GdbServer.FixedOverWire` | src/cli/main/gdb_server.cpp:384-421 | Over the wire, an interrupt byte is answered S02 without an acknowledgement, ? with S05, H with OK, and an unsupported packet with nothing; none changes the machine |
| `GdbServer.QueryOverWire` | src/cli/main/gdb_server.cpp:129-146 | Over the wire, the questions about the server itself and their answers |
| `GdbServer.MetadataOverWire` | src/cli/main/gdb_server.cpp:147-155 | Over the wire, the metadata packets are answered their text in hex |
| `GdbServer.EndOverWire` | src/cli/main/gdb_server.cpp:407-413 | Over the wire, D is answered OK and ends the session, and k ends it without an answer |
| `GdbServer.ContinueIsLeast` | src/cli/main/gdb_server.cpp:232-269 | In a session, whatever arrives meanwhile, a continue makes the least number of steps after which the loop ends, and takes off the stream what its polls read |
| `GdbServer.ContinueEnds` | src/cli/main/gdb_server.cpp:232-269 | A continue stops behind the first step after which the machine is paused or the byte at PC is 0, and is answered S02 exactly if neither holds and fewer than 100000000 steps were made; then an interrupt byte that had arrived was read at a multiple of 1024 |
| `GdbServer.ContinueReads` | src/cli/main/gdb_server.cpp:253-261 | It takes no more than one byte off the stream for every 1024 steps, and none behind the step that stops the machine |
| `GdbServer.WaitingLeavesStream` | src/cli/main/gdb_server.cpp:253-261 | Packets other than c, and all packets of a client that waits for each reply, leave the stream alone |
| `LineSplitter.SplitterIsRight` | src/cli/main/serial_monitor_server.cpp:146-161 | The byte-by-byte buffer yields the printable parts of the ended, non-empty lines |
| `LineSplitter.FirstCommand` | src/cli/main/serial_monitor_server.cpp:147-160 | A line of characters 32 to 126 that a line feed or a carriage return ends is one command, and an empty one none |
| `LineSplitter.OthersAreSkipped` | src/cli/main/serial_monitor_server.cpp:158-160 | All other characters are as if they had not been sent |
| `LineSplitter.SerialHandleClient` | src/cli/main/serial_monitor_server.cpp:131-162 | Which commands run, and what is sent, depends on the concatenated bytes alone, not on how reads split them |
| `LineSplitter.ViceHandleClient` | src/cli/main/vice_monitor_server.cpp:117-161 | The same for the VICE server, up to the first command answered with EXIT |
| `LineSplitter.BannerFirst` | src/cli/main/vice_monitor_server.cpp:118-123 | Whatever a client sends, the first line it receives is the banner |
| `LineSplitter.LaterCommandsDoNotMatter` | src/cli/main/vice_monitor_server.cpp:145-147 | The VICE session is the run of the commands up to and including the first exit |
| `SerialMonitor.Server.ExecuteCommand` | src/cli/main/serial_monitor_server.cpp:177-199 | What M, X and S do to the memory and the dump address, and what they answer, errors included; numbers may have a sign or a 0x |
| `SerialMonitor.EitherCase` | src/cli/main/serial_monitor_server.cpp:164-174 | The letter of a command may be of either case, behind any blanks |
| `SerialMonitor.NumbersMissing` | src/cli/main/serial_monitor_server.cpp:185-199 | Without their two numbers X and S are refused, and change nothing |
| `SerialMonitor.ExtractReads` | src/cli/main/serial_monitor_server.cpp:178-195 | A number is blanks, a sign, a 0x and digits that fit 32 bits; a minus sign wraps |
| `SerialMonitor.Server.CmdMemory` | src/cli/main/serial_monitor_server.cpp:312-349 | The printed dump and the dump address it leaves |
| `SerialMonitor.Server.PrintLine` | src/cli/main/serial_monitor_server.cpp:324-346 | One dump line |
| `DumpParser.LineShows` | src/cli/main/serial_monitor_server.cpp:312-345 | A dump line, character by character: the address, two upper-case digits and a blank for each byte, and each byte again, or a dot if it is not printable |
| `SerialMonitor.Server.PrintRows` | src/cli/main/serial_monitor_server.cpp:324-347 | All dump lines |
| `SerialMonitor.Server.CmdMemoryRaw` | src/cli/main/serial_monitor_server.cpp:351-361 | The raw byte text |
| `SerialMonitor.Server.CmdSetMemory` | src/cli/main/serial_monitor_server.cpp:363-368 | One written cell, and OK |
| `TestBridge.ExecuteSet` | src/cli/main/hardware_test_bridge.cpp:59-63 | The printed S command writes its byte exactly if the address fits 32 bits |
| `TestBridge.ExecuteRaw` | src/cli/main/hardware_test_bridge.cpp:99-103 | The printed X command is answered with the bytes asked for |
| `TestBridge.Bridge.SendCommand` | src/cli/main/hardware_test_bridge.cpp:309-328 | A command line, run by a session of the monitor, and one recv of at most 4095 bytes: what has arrived by then is the response, and the rest is left for the next command |
| `TestBridge.SetExactly` | src/cli/main/hardware_test_bridge.cpp:59-70 | An S command writes its byte, whatever is unread, and is taken for accepted exactly if what is received reaches the first OK, which is its own if none is unread |
| `TestBridge.ReadChunkExactly` | src/cli/main/hardware_test_bridge.cpp:99-114 | An X command with nothing but blanks unread in front yields the true bytes exactly if both digits of the last one are received, or the first digit of a zero |
| `TestBridge.StaleChunk` | src/cli/main/hardware_test_bridge.cpp:99-114 | An X command that receives no more than was unread yields the bytes of the old text, whatever the memory holds |
| `TestBridge.WholeResponse` | src/cli/main/hardware_test_bridge.cpp:104-114 | Parsing the printed bytes of a whole X response gives the bytes |
| `TestBridge.CutResponse` | src/cli/main/hardware_test_bridge.cpp:104-114 | Parsing a response that is cut anywhere gives the whole bytes in front of the cut and a byte of one digit |
| `TestBridge.MonitorAnswers` | src/cli/main/serial_monitor_server.cpp:164-199 | The monitor answers every S and X command the bridge prints in that way |
| `TestBridge.Bridge.SetByte` | src/cli/main/hardware_test_bridge.cpp:59-70 | One S command in place |
| `TestBridge.Bridge.FetchChunk` | src/cli/main/hardware_test_bridge.cpp:99-114 | One X command in place |
| `TestBridge.Bridge.LoadMemory` | src/cli/main/hardware_test_bridge.cpp:52-70 | One S command per byte until one is not seen accepted, however the responses arrive |
| `TestBridge.Bridge.ReadMemory` | src/cli/main/hardware_test_bridge.cpp:89-118 | X commands of at most 64 bytes, their parsed responses in a row, however they arrive |
| `TestBridge.LoadWrites` | src/cli/main/hardware_test_bridge.cpp:52-70 | However the responses arrive: a load succeeds exactly if the last address fits 32 bits and each response is received up to its OK, where a line feed of the one before may be in front; and it has written the bytes up to the first that was not, which an accepted load has done with all |
| `TestBridge.ReadReads` | src/cli/main/hardware_test_bridge.cpp:89-118 | However the responses arrive, for every size and chunk boundary: a read returns the range whatever the memory holds, exactly if no received piece but the last ends between the digits of a byte and the last one reaches the last digit |
| `TestBridge.ReadUnbroken` | src/cli/main/hardware_test_bridge.cpp:89-118 | Such a read changes nothing and leaves nothing but blanks unread |
| `TestBridge.ReadEndsExactly` | src/cli/main/hardware_test_bridge.cpp:98 | The chunk loop ends exactly for sizes up to 2^32 - 64 |
| `TestBridge.LoadThenRead` | src/cli/main/hardware_test_bridge.cpp:52-118 | Behind every accepted load, however its responses arrived: a read that is not broken returns the data exactly if bytes bound for one cell agree, which data that fits the bus always does; no other cell has changed |
| `PythonSdk.Client.ReadMemory` | sdk/python/mmemu_serial_monitor.py:195-235 | What is returned, the dump address kept, and what stays unread, for every way in which the response arrives, whatever was unread before |
| `PythonSdk.Client.Parse` | sdk/python/mmemu_serial_monitor.py:215-233 | The loop over the lines of a response |
| `DumpParser.PyByteReads` | sdk/python/mmemu_serial_monitor.py:227-231 | A word is appended exactly if the number it spells, with a sign or a prefix, is a byte |
| `DumpParser.UnderscoreReads` | sdk/python/mmemu_serial_monitor.py:229 | A single underscore between digits does not count |
| `DumpParser.PyIntFails` | sdk/python/mmemu_serial_monitor.py:229-231 | An underscore in front, behind or twice, and any other character behind digits, is no number |
| `PythonSdk.Client.SendCommand` | sdk/python/mmemu_serial_monitor.py:148-169 | A command line, run by a session of the monitor; the response is what is received up to the first chunk with a line feed, trimmed, and the rest is left for the next command |
| `PythonSdk.Client.Receive` | sdk/python/mmemu_serial_monitor.py:154-166 | The recv loop: chunks of at most 4096 bytes up to the first with a line feed |
| `PythonSdk.BrokenReadExactly` | sdk/python/mmemu_serial_monitor.py:148-235 | On a dump of which any proper prefix is received, the bytes asked for are returned exactly if what is shown does not spell ERROR and reaches both digits of the last of them, or the first digit of a zero |
| `PythonSdk.WholeReadExactly` | sdk/python/mmemu_serial_monitor.py:148-235 | On a whole dump they are returned exactly if there are no more of them than the dump has, and no row spells ERROR |
| `PythonSdk.LongReadIsShort` | sdk/python/mmemu_serial_monitor.py:195-235 | A read of more than 256 bytes returns the 256 of the one dump it asks for, and no error |
| `PythonSdk.FirstLineOnly` | sdk/python/mmemu_serial_monitor.py:158-164 | If only the first line has arrived, only its 16 bytes are returned, whatever was asked for |
| `PythonSdk.ReadMemoryExactly` | sdk/python/mmemu_serial_monitor.py:148-235 | However the response arrives, if what was unread tells nothing and is received: read_memory returns the bytes asked for, from where the monitor serves them, exactly if they are no more than 256, and no row of a whole dump spells ERROR, or what is received of a broken one is enough |
| `PythonSdk.PromptReadExactly` | sdk/python/mmemu_serial_monitor.py:148-235 | The ordinary read, with nothing unread and an answer that has arrived whole: the bytes asked for are returned exactly if they are no more than 256 and no row spells ERROR, and nothing is left unread |
| `PythonSdk.PromptRunExactly` | sdk/python/mmemu_serial_monitor.py:148-235 | The same of any run of such reads |
| `PythonSdk.ReceivedAtOnce` | sdk/python/mmemu_serial_monitor.py:157-163 | One recv takes what has arrived, up to 4096 bytes, and is the only one if a line feed is among it |
| `PythonSdk.ReadBehind` | sdk/python/mmemu_serial_monitor.py:148-235 | Whatever is unread: a read returns what the received part of that tells, or, if more is received, what all of it and a part of the own response tell, an error if either does; what it leaves is whole lines again |
| `PythonSdk.StaleReadExactly` | sdk/python/mmemu_serial_monitor.py:148-235 | If the end of an earlier dump is unread and no more is received, a read returns the bytes from where that dump stood, whatever address it asks for, exactly if enough of it is received |
| `PythonSdk.SecondReadIsStale` | sdk/python/mmemu_serial_monitor.py:148-235 | Two reads: the first asks for no more than a row, has received one line, and is right; the second, which receives the rest, returns the bytes behind that row |
| `PythonSdk.StaleReadFails` | sdk/python/mmemu_serial_monitor.py:148-235 | Two such reads, at 0x1000 and 0x2000, the second of which is wrong |
| `PythonSdk.RunRightExactly` | sdk/python/mmemu_serial_monitor.py:148-235 | A run of reads in front of each of which what is unread tells nothing and is received: all are right exactly if enough of each response is received |
| `PythonSdk.ConsumedRunExactly` | sdk/python/mmemu_serial_monitor.py:148-235 | A run of reads that receive their whole responses: all are right exactly if none asks for more than 256 bytes and no dump has a row that spells ERROR |
| `DumpParser.DumpParses` | sdk/python/mmemu_serial_monitor.py:210-233 | Parsing a printed dump gives the true bytes, whatever the ASCII column shows, or an error exactly if a row spells ERROR |
| `DumpParser.ParseFeed` | sdk/python/mmemu_serial_monitor.py:210-233 | Lines in front of a text are parsed on their own, and an error in either part is one of the whole |
| `DumpParser.ParseStripped` | sdk/python/mmemu_serial_monitor.py:169 | Trimming a response does not change what it tells |
| `DumpParser.CutDumpParses` | sdk/python/mmemu_serial_monitor.py:210-233 | Parsing a dump that breaks off anywhere gives the bytes of the whole lines and what the broken line tells, or an error exactly if the bytes shown spell ERROR |
| `DumpParser.CutLine` | sdk/python/mmemu_serial_monitor.py:217-233 | A line that is cut anywhere tells the bytes whose digits it shows, and all 16 whatever follows the hex column, further colons included |
| `DumpParser.CutLineError` | sdk/python/mmemu_serial_monitor.py:211-213 | A line that is cut anywhere contains ERROR exactly if the bytes shown in its ASCII column spell it |
| `PythonSdk.ExecuteMemory` | sdk/python/mmemu_serial_monitor.py:207-210 | Where the dump that answers the command starts |
| `PythonSdk.BareDumpsTile` | src/cli/main/serial_monitor_server.cpp:312-318 | Repeated bare M commands print one dump without gap or overlap |
| `TraceRing.PushContents` | src/include/util/circular_buffer.h:17-24 | A push appends, and drops the oldest entry of a full buffer |
| `TraceRing.PopContents` | src/include/util/circular_buffer.h:74-80 | A pop takes the newest entry and leaves the others |
| `TraceRing.ReadsRightExactly` | src/include/util/circular_buffer.h:51-60 | Reading by index gives the right slot exactly in a full buffer or one whose oldest entry lies in slot 0 |
| `TraceRing.RunContents` | src/include/util/circular_buffer.h:17-80 | After any pushes and pops, in any order, the buffer holds the entries that a stack of its capacity holds which forgets the oldest |
| `TraceRing.RunHead` | src/include/util/circular_buffer.h:17-80 | Then the next slot to write is the size plus the number of pushes onto a full buffer, modulo the capacity |
| `TraceRing.ReadsRightAfterRun` | src/include/util/circular_buffer.h:51-80 | After any pushes and pops, reading by index is right exactly if the buffer is empty or full, or the number of pushes onto a full buffer is a multiple of the capacity |
| `TraceRing.ReadsPushExactly` | src/include/util/circular_buffer.h:17-80 | After any pushes and pops, whatever is pushed: which push each index reads, the last one into its slot, and that this is the one of the entry asked for exactly under that condition |
| `TraceRing.ReadIsContents` | src/include/util/circular_buffer.h:51-80 | Under the same condition the values read are the entries |
| `TraceRing.PoppedIsRead` | src/include/util/circular_buffer.h:51-80 | Capacity 2, three pushes and a pop: the popped entry is read in place of the one that is left |
| `TraceRing.TraceReadsRightExactly` | src/include/util/circular_buffer.h:51-80 | After tracing and stepping back, reading the trace by index is right exactly if nothing was popped, nothing is left, the buffer never overflowed, or it was filled a whole number of times |
| `TraceRing.CircularBuffer.Push` | src/include/util/circular_buffer.h:17-24 | The push in place |
| `TraceRing.CircularBuffer.PopBack` | src/include/util/circular_buffer.h:74-80 | The pop in place, the newest entry, and what moving it out leaves in its slot |
| `TraceRing.CircularBuffer.At` | src/include/util/circular_buffer.h:51-60 | Reading by index in place |
| `TraceRing.CircularBuffer.Back` | src/include/util/circular_buffer.h:83-87 | The newest entry |
| `TraceRing.CircularBuffer.SetBack` | src/include/util/circular_buffer.h:83-87 | Changing the newest entry changes no other |
| `TimeTravel.UndoOfLog` | src/libdebug/main/trace_buffer.cpp:82-85 | Undoing recorded stores, last one first, gives the old memory back, overlapping stores included |
| `TimeTravel.UndoCell` | src/libdebug/main/trace_buffer.cpp:82-85 | What the undo leaves in every cell of any memory |
| `TimeTravel.BackstepUndoesStep` | src/libdebug/main/trace_buffer.cpp:78-96 | One back step restores the memory, the program counter and the captured registers of the instruction in front |
| `TimeTravel.EveryCellRuns` | src/libdebug/main/trace_buffer.cpp:78-96 | After any steps and back steps, in any order, every cell holds what a small automaton of its own says, and so does what each trace entry would restore to it |
| `TimeTravel.CpuAlwaysRight` | src/libdebug/main/trace_buffer.cpp:87-93 | After any steps and back steps the program counter and the captured registers are those of a stack of CPU states that forgets the oldest |
| `TimeTravel.BackIsActed` | src/cli/main/cli_interpreter.cpp:394-405 | backstep k is k back steps |
| `TimeTravel.BackstepCells` | src/libdebug/main/trace_buffer.cpp:78-96 | After a run and k back steps, each cell holds its value in front of the first of every second instruction from there on that stored to it, or of the last such place |
| `TimeTravel.BackstepExactly` | src/libdebug/main/trace_buffer.cpp:78-96 | backstep k restores the memory in front of the last k instructions exactly if in every cell that value is the one to be restored |
| `TimeTravel.BackstepsExactly` | src/libdebug/main/trace_buffer.cpp:78-96 | backstep 0 up to backstep k all restore their memories exactly if behind each instruction stepped back to, the next one changes only cells it stored to itself |
| `TimeTravel.ThirdBackstepRestores` | src/libdebug/main/debug_context.cpp:225-228 | A run for which the second back step is wrong and the third is right again |
| `TimeTravel.SecondBackstepRedoes` | src/libdebug/main/debug_context.cpp:225-228 | A run for which two back steps put the undone byte back: the first undo was recorded as a store of the entry in front |
| `TimeTravel.Debugger.ReverseStep` | src/libdebug/main/trace_buffer.cpp:78-96 | The back step in place |
| `TimeTravel.Debugger.UndoWrites` | src/libdebug/main/trace_buffer.cpp:82-85 | The undo loop in place, through the observed bus |
| `TimeTravel.Debugger.RestoreRegisters` | src/libdebug/main/trace_buffer.cpp:87-93 | The register loop in place |
| `TimeTravel.Debugger.OnMemoryWrite` | src/libdebug/main/debug_context.cpp:220-228 | A store is recorded on the newest entry, if there is one |
| `TimeTravel.Debugger.OnStep` | src/libdebug/main/debug_context.cpp:54-55 | A new entry with the program counter, in front of the instruction, and with the registers that CaptureRegisters gives |
| `TimeTravel.Debugger.CaptureRegisters` | src/libdebug/main/debug_context.cpp:62-80 | The registers captured: all that are not internal if the state image fits an entry, otherwise the first 24 of them |
| `TimeTravel.AllCapturedExactly` | src/libdebug/main/debug_context.cpp:62-80 | Every register that is not internal is captured exactly if the state image fits or there are at most 24 |
| `TimeTravel.ShownAre` | src/libdebug/main/debug_context.cpp:66-67 | The registers captured are taken from those that are not internal |
| `TimeTravel.Debugger.Write8` | src/libmem/main/memory_bus.cpp:69-86 | A store through the observed bus |
| `TimeTravel.Debugger.Backstep` | src/cli/main/cli_interpreter.cpp:394-405 | Steps back as often as asked, as far as the trace goes |
| `MapTranslation.ResolveIs` | src/include/imap_controller.h:38-56 | An enabled address becomes the megabyte base plus the address and the offset without its low 8 bits, modulo 2^20; a disabled one stays |
| `MapTranslation.ResolveInBlock` | src/include/imap_controller.h:38-56 | An address of 8K block b is moved by the offset of that block, from the base of its half, exactly if bit b is set |
| `MapTranslation.NoneOrAll` | src/include/imap_controller.h:42-55 | With no bit set every 16-bit address stays, and with all of them every one is moved |
| `MapTranslation.OneMoreBlock` | src/include/imap_controller.h:41-55 | Setting one more bit moves the 8K addresses of its block and leaves the results for all others alone |
| `MapTranslation.HalvesApart` | src/include/imap_controller.h:44 | Addresses below 0x8000 do not depend on the upper base, and the others not on the lower one |
| `MapTranslation.LowBitsKeptExactly` | src/include/imap_controller.h:46-53 | The low 8 bits are kept exactly if the base has none |
| `MapTranslation.InMegabyteExactly` | src/include/imap_controller.h:46-53 | The result lies in the selected megabyte exactly if the 32-bit sum does not wrap |
| `MapTranslation.AliasExactly` | src/include/imap_controller.h:41-53 | When two enabled addresses of one base collide |
| `MapTranslation.InjectiveInHalf` | src/include/imap_controller.h:41-53 | Enabled blocks of one half with one offset never collide |
| `TestHistory.HistoryTracksRuns` | vscode-mmemu-lua/src/test-persistence.ts:115-165 | Over any run of recordings, prunings and clearings, the last status and hash are those of the last recorded run, and the change count is one more than the status differences among all recorded runs |
| `TestHistory.OrderedHistory` | vscode-mmemu-lua/src/test-persistence.ts:213-240 | With times in order a history is always the end of all recorded runs, at least the last ten; a missing run was not newer than some limit |
| `TestHistory.LastStatusIsKept` | vscode-mmemu-lua/src/test-persistence.ts:213-240 | So the last status stays that of the last kept run |
| `TestHistory.PrunedIsSuffix` | vscode-mmemu-lua/src/test-persistence.ts:221-233 | One pruning of ordered runs |
| `TestHistory.LastRunKeptExactly` | vscode-mmemu-lua/src/test-persistence.ts:221-233 | For times in any order, when a pruning keeps the last run |
| `TestHistory.KeptIsLongEnd` | vscode-mmemu-lua/src/test-persistence.ts:213-240 | For times in any order, over any run: what is kept is the end of the runs that no filtering has dropped, at least the last ten; cutting to ten never changes the end |
| `TestHistory.LastStatusExactly` | vscode-mmemu-lua/src/test-persistence.ts:115-258 | For times in any order, over any run: the last status is that of the last kept run exactly if the last run that no filtering has dropped ended like the last recorded one |
| `TestHistory.LastStatusStaysExactly` | vscode-mmemu-lua/src/test-persistence.ts:115-258 | For times in any order: whatever happened before the last run of a test, the last status is that of the last kept run, exactly if no pruning behind that run has a limit from its time on |
| `TestHistory.LastRunOf` | vscode-mmemu-lua/src/test-persistence.ts:115-258 | Every history of a known test has such a last run |
| `TestHistory.StaleFailureIsLost` | vscode-mmemu-lua/src/test-persistence.ts:221-233 | A history whose pruning drops the run of its last status |
| `TestHistory.TestPersistence.RecordTestRun` | vscode-mmemu-lua/src/test-persistence.ts:115-156 | The record after a run, and whether the status changed |
| `TestHistory.TestPersistence.CleanupOldData` | vscode-mmemu-lua/src/test-persistence.ts:213-240 | Every history is pruned, and none is lost |
| `TraceProfile.Dump` | src/cli/main/cli_interpreter.cpp:2227-2254 | trace dump n selects the last n matching entries of what reading the trace by index shows, oldest first; none for a negative n |
| `TraceProfile.DumpIsTrueExactly` | src/cli/main/cli_interpreter.cpp:2227-2254 | After any steps and back steps, whatever was traced: each index reads the last push into its slot, and that is the entry the trace holds there exactly if the buffer is empty or full, or overflowed a multiple of its capacity; then the dump reads what the trace holds |
| `TraceProfile.SelectedHasAll` | src/cli/main/cli_interpreter.cpp:2236-2252 | The matching entries are all listed |
| `TraceProfile.CallPasses` | src/cli/main/cli_interpreter.cpp:2237-2241 | The filter for calls lets lines with JSR, RTS, RTI or BSR through |
| `TraceProfile.PassingCall` | src/cli/main/cli_interpreter.cpp:2237-2241 | And no others |
| `TraceProfile.FilterTells` | src/cli/main/cli_interpreter.cpp:2242-2249 | The filter for I/O lets lines through exactly if they store to 0xD000 up to 0xDFFF; without a filter all pass |
| `TraceProfile.Sample` | src/cli/main/cli_interpreter.cpp:2891-2902 | The histogram counts the program counters of exactly the steps up to the limit, an interrupt or a pause |
| `TraceProfile.TotalIsExecuted` | src/cli/main/cli_interpreter.cpp:2910-2911 | The counts add up to the number of executed instructions |
| `TraceProfile.TopIsTop` | src/cli/main/cli_interpreter.cpp:2905-2908 | However ties are sorted, no unlisted address has run more often than a listed one |
| `ViceMonitor.MarkedAddressParses` | src/cli/main/vice_monitor_protocol.cpp:368-415 | A printed address with a mark in front or behind is read back |
| `ViceMonitor.BareAddressExactly` | src/cli/main/vice_monitor_protocol.cpp:393-403 | Without a mark it is read back exactly if it is below ten or shows a letter |
| `ViceMonitor.DecimalParses` | src/cli/main/vice_monitor_protocol.cpp:393-396 | A decimal number that fits 64 bits is read as what it is, cut to 32 bits, and a larger one is refused |
| `ViceMonitor.OddAddressFails` | src/cli/main/vice_monitor_protocol.cpp:399-406 | A word without a mark that holds anything but hex digits is refused |
| `ViceMonitor.ComputeChecksum` | src/cli/main/vice_monitor_protocol.cpp:289-294 | The loop computes the byte sum of the range modulo 2^24 |
| `ViceMonitor.LoopEndsExactly` | src/cli/main/vice_monitor_protocol.cpp:291 | The loop ends exactly for an end below 0xFFFFFFFF |
| `ViceMonitor.ChecksumSplits` | src/cli/main/vice_monitor_protocol.cpp:289-294 | The checksum is additive over every split of the range |
| `ViceMonitor.OneChangeShows` | src/cli/main/vice_monitor_protocol.cpp:289-294 | One changed byte changes the checksum of a range that reads no cell twice |
| `ViceMonitor.ChecksumText` | src/cli/main/vice_monitor_protocol.cpp:296-298 | The printed checksum always has six digits, which spell it |

## Left out

- Sockets, polling, threads, files, serial ports, timeouts and stop requests: only the byte streams
  remain. One character of a string stands for one byte.
- Chips, bus side effects, ROM overlays and 32-bit buses, whose mask plus one is not a 32-bit number.
- The disassembler, the expression evaluator, the breakpoint list, symbol tables and the GDB metadata
  texts are arbitrary functions here; number arguments that the expression evaluator reads are given.
- The layout of printed reports, apart from the texts that another side parses.
- `searcha` differs from `search` only in how it reads its pattern, which is given here; words of
  `search` that are no hex numbers are skipped before.
- Device modules of a snapshot have no effect in the code, and none here; names are compared up to
  their first NUL.
- GdbCodec.WriteThenRead: is about ranges of at most 0x10000 bytes, the longest that one m reply
  returns.
- GdbSession.RunSession: the machine is a value that each packet maps to the next, with the number of
  bytes it reads; the handlers that work in place are given beside it.
- GdbSession.PlainSession: is about packets and checksums that hold no packet start and no interrupt
  byte; GdbSession.ReceivesAll allows packet starts in them, for a client that acknowledges.
- ContinueLoop.InterruptLatency: assumes that bytes ahead of the interrupt arrive no later than it.
- SerialMonitor.Server.ExecuteCommand: commands other than M, X and S, and lines of blanks only, are
  left to an arbitrary function.
- TestBridge.Bridge.ReadMemory: asks for a size for which the loop ends, given by
  TestBridge.ReadEndsExactly.
- TestBridge.LoadWrites: starts with no OK unread, and TestBridge.ReadReads with nothing but blanks,
  which is what accepted loads and unbroken reads leave; TestBridge.SetExactly and
  TestBridge.StaleChunk are about the rest.
- PythonSdk.ReadMemoryExactly: is about lengths that are not negative and unread text that tells
  nothing; PythonSdk.ReadBehind covers the others.
- PythonSdk.Client.Parse: Python's digits and white space outside ASCII, its separators 0x1C to 0x1F
  and bytes that are no UTF-8 are not modelled; no dump of the monitor holds any.
- TimeTravel.Debugger.OnStep: the instruction bytes, the cycle count and the text of an entry are not
  modelled, and neither are observers and breakpoints.
- TraceProfile.TopIsTop: the sorted list is any list that `std::sort` may produce, not computed.
- TestHistory.HistoryTracksRuns: starts from an empty record; a loaded file, saving, and names that
  JavaScript objects inherit are not modelled.
- Registers that the bridge parses, the other monitor commands, the C++ SDK, the Lua binding and the
  user interfaces.
