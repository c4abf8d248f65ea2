# FastDyn: a verified model of its protocols, coverage pipeline and indexes

FastDyn rehosts firmware: a QEMU plugin in C records, replays and fuzzes it, and Python tools plan,
convert and patch around the plugin. This project models the parts where several actors share state or
where one form of data must come back from another, and proves what they are relied on for.

| files | what they model |
|---|---|
| `TapeFormat`, `Replay`, `ReplayProgress`, `ReplayDevice` | the `.ttbin` tape, and its replay by vCPU callbacks and an interrupt thread under one mutex and one condition variable |
| `Coverage`, `BlockLog`, `CoverageTracker`, `TraceRing`, `RingCapacity`, `RingProgress` | the log of program counters and interrupt markers: its ring, its fold into the AFL map, the block set and the edge set, and the two files that carry the sets from run to run |
| `Snapshot` | capture, restore and image of a machine state under a policy of memory ranges |
| `FuzzLoop`, `LateStore`, `FuzzPlugin` | the message state machine, the sync point and the socket protocol with the fuzzer |
| `HwSession`, `HwRegistry` | interrupts of a physical board captured, raised and acknowledged; the registry of sessions |
| `SlotTable`, `IrqPath` | the index from addresses and interrupt numbers to device models, and what a captured board interrupt finds there |
| `PyString`, `SearchReplace`, `ParseErrors`, `Patching` | SEARCH/REPLACE blocks in a model's response, and applying them to files |
| `Text`, `SchemaGen`, `SchemaLoader` | numbers and words in text files; structures flattened from DWARF, printed, loaded, looked up |
| `EthTrace` | cutting a raw trace into Ethernet frames |
| `Probe` | the run-length encoded block trace and the counters that end a run without progress |
| `Swarm` | worker plans, their ports, and the scheduler |
| `Bits`, `Bytes`, `CInts`, `Options` | bits and exclusive or, bytes and little-endian numbers, C integers, optional values |

Protocols are a `State`, a total `Step` per atomic region, and `Run` over any list of events, so the
theorems range over every interleaving. Code that updates fields in place is a class whose methods are
proved to take exactly such steps, or to compute a function about which the lemmas speak.

## Where the code does not do what it is relied on for

Most of these are proved with a concrete input and with the exact condition under which the code does
what is expected of it.

- The tape's length check multiplies in 64 bits and can wrap: a file is accepted and every record lies
  in it exactly when the product does not wrap; a header with count 2^61 and no record is accepted.
- The interrupt thread can raise a record that was already consumed. A tape has a schedule with such a late
  raise exactly when one of its interrupts, and every record before it, is one that some callback accepts;
  vector 15 and vectors that do not survive the cast to int are not. QEMU's promise to deliver a tape vector
  only after it was raised excludes all such schedules.
- A tape can be replayed to its end exactly when each of its records is one that some callback accepts.
- The block set stores the timestamp as the value and takes a zero value for "absent": a block stays
  logged once exactly when its stored timestamp is not zero.
- The trace ring is read rightly and waited for rightly in every run exactly when whoever logs keeps fewer
  than 16384 words ahead of `tracer_consumed_index`; counted from `tracer_index`, whose last word may still
  be unacknowledged, it must be fewer than 16383.
- With `fuzz_get_data` on another thread than the vCPU a DONE can be sent for a message nobody took; it is
  sent for a taken message exactly when no late CONSUMED store replaced READY. At most one winner per
  message holds regardless.
- `hw_session.h` promises the same handle for the same backend: true exactly for names of at most 31
  characters. A name of 32 characters acquired twice gets handles 0 and 1. Two different backends share a
  handle exactly if the first name is longer than 31 characters, the second is its first 31, and nothing
  granted before had these 31 in front.
- Board lines 1 to 240 are captured and raised as vectors 17 to 256, but the interrupt table has 240 lists,
  registration refuses other numbers, and the notification looks its list up without a test: a captured
  line is looked up inside the table exactly when it is at most 223.
- The end of an address range is called inclusive (`include/device.h:18`) and used as exclusive: with the
  inclusive reading the last slot is missed exactly when the range has more than one byte and its last
  byte is the first of a slot in the table, as for 0x40000000 to 0x40000010. Registrations in the RAM region are dropped, always.
- `device_models/dev.c:51-53` says interrupt registration looks for a duplicate at the list head; the code
  looks through the whole list, and the model follows the code.
- The pattern for a FILE header lets white space, line ends included, stand before the file name. A header
  begun above a block and left without a name takes the first word below for it: under a bare `// FILE:`
  line the header `// FILE: a.c` makes the target `//`. The target is the file of the header in front of the
  block exactly when no header above runs into it, or one does and happens to take that very name.
- Rendered SEARCH/REPLACE blocks below any prose parse back exactly when no text, with a newline added,
  holds a marker line it could be mistaken for, the prose holds no SEARCH marker, and the first block's
  header gives its target in the sense above.
- The parser looks for the SEARCH marker with CRLF too, but for the separator with LF only: a response whose
  line ends are all CRLF is refused, whatever it holds, for a missing separator in block 1 or for no blocks.

## Model

| member | source | states |
|---|---|---|
| TapeFormat.WrittenTapeReadsBack | src/fastdyn/utils/twintrace.py:45-153 | The replayer opens what the converter wrote, with the same count, and reads every record back field by field. |
| TapeFormat.HeaderReadsBack | device_models/twintrace/twintrace.c:157-193 | A well-formed header followed by any bytes is refused exactly if the 64-bit length computed from its count exceeds the file. |
| TapeFormat.OpenedIff | device_models/twintrace/twintrace.c:157-193 | Any file is opened with a count if and only if its first 20 bytes are the header for that count and it is as long as the wrapped test asks. |
| TapeFormat.HeaderSpells | src/fastdyn/utils/twintrace.py:45-50 | The header byte by byte: TTTR, version 1, record size 40, the count least byte first. |
| TapeFormat.RecordSpells | device_models/twintrace/twintrace.c:42-49 | Every byte of a record: which field it belongs to and with which weight. |
| TapeFormat.AcceptedIsBoundedIffNoWrap | device_models/twintrace/twintrace.c:150-193 | In an accepted file all counted records lie inside the file if and only if the length check did not wrap. |
| TapeFormat.WrappingCountIsAccepted | device_models/twintrace/twintrace.c:157-193 | A bare header with count 2^61 is accepted and its first record is outside the file. |
| Replay.RunAcceptsTapePrefix | device_models/twintrace/twintrace.c:249-404 | Over every interleaving the accepted events are the tape prefix up to the head, each the record's kind, address, size and value or line, field by field; reads return the record's value, and a run that did not abort accepted every callback made. |
| Replay.RefusedIff | device_models/twintrace/twintrace.c:249-404 | After any run a callback ends it if and only if it is not line 15 and the tape is at its end or the head record differs from it in one of those fields. |
| Replay.SchedulesAgree | device_models/twintrace/twintrace.c:249-404 | Two schedules that consumed equally many records made the same accesses and showed the firmware identical values. |
| Replay.RunKeepsThreadInv | device_models/twintrace/twintrace.c:196-247 | The interrupt thread raises strictly increasing indices, each an IRQ_TAKEN record at the head it had, never before its instruction count; a thread parked without a signal still has a true waiting condition, so no wake-up is lost. |
| ReplayProgress.DueHeadIsRaisedWithinSixTurns | device_models/twintrace/twintrace.c:196-247 | From any reachable state whose head is an interrupt that is due and not raised, under every interleaving: once the thread had six turns, whatever happened between them, the interrupt is raised or the head moved, unless the 64-bit instruction count wrapped. |
| ReplayProgress.ThreadExitsWithinSixTurns | device_models/twintrace/twintrace.c:196-247 | After the last record was consumed the thread has exited once it had six turns, whatever happened between them. |
| Replay.DisciplinedRunRaisesTheHead | device_models/twintrace/twintrace.c:196-312 | If QEMU delivers a tape vector only after it was raised, every raise hits the current head and every consumed IRQ_TAKEN record was raised before. |
| ReplayProgress.StaleRaiseIff | device_models/twintrace/twintrace.c:196-312 | Without that promise: some run raises a record after it was consumed if and only if the tape has an interrupt that, like every record before it, some callback accepts. |
| ReplayProgress.ConsumedBeforeRaised | device_models/twintrace/twintrace.c:196-312 | For each such interrupt there is a run, not aborted, that raises it after it was consumed. |
| ReplayProgress.StaleRecordIsConsumable | device_models/twintrace/twintrace.c:196-312 | In any run, a record raised too late is an interrupt that, like every record before it, some callback accepts. |
| Replay.UndisciplinedRaiseIsStale | device_models/twintrace/twintrace.c:196-312 | A one-record tape and a run of five steps in which its interrupt is raised after it was consumed. |
| Replay.ConsumableIff | device_models/twintrace/twintrace.c:85-91 | Which records some callback can accept: accesses, and interrupt records whose vector survives the cast to int and is not 15. |
| Replay.ReplayableIffConsumable | device_models/twintrace/twintrace.c:196-404 | A tape has a schedule that replays it to the end, raising each interrupt first and never diverging, if and only if every record is consumable. |
| ReplayDevice.Replayer.TwintraceRead | device_models/twintrace/twintrace.c:314-357 | A read is the protocol's step; it survives if and only if the head is a read record of this address and size, and then the head moves by one and the value is the record's. |
| ReplayDevice.Replayer.TwintraceWrite | device_models/twintrace/twintrace.c:359-404 | A write is the protocol's step; it survives if and only if the head is a write record of this address, size and value. |
| ReplayDevice.Replayer.TwintraceInterrupt | device_models/twintrace/twintrace.c:282-312 | A taken interrupt is the protocol's step; it survives if and only if it is line 15, which moves nothing, or the head is a taken record whose address is the line as 64 bits. |
| ReplayDevice.Replayer.TwintraceServe | device_models/twintrace/twintrace.c:249-280 | The same for a served interrupt and a served record. |
| ReplayDevice.Replayer.IrqThreadTurn | device_models/twintrace/twintrace.c:196-247 | One lock region of the thread is one turn of the protocol, and the line handed to QEMU is that of the record it had gated. |
| ReplayDevice.Replayer.IcountAdd | core/core.c:405-414 | Retiring instructions only moves the counter the gate looks at. |
| Coverage.InterruptsAreTransparent | virtuals/fuzzer/fuzz.c:904-925 | Erasing all interrupt segments of a log leaves the coverage map, the blocks, their queue and file as they were, and can only add edges. |
| Coverage.NestedIffTrace | virtuals/fuzzer/fuzz.c:158-166 | The well-nested logs, judged by a depth counter, are exactly the flattenings of trees of interrupts. |
| Coverage.EraseCutsSegments | virtuals/fuzzer/fuzz.c:904-925 | Erasing by depth is cutting the interrupt subtrees out, only the resets inside them stay. |
| Coverage.MapCountsHits | virtuals/fuzzer/fuzz.c:904-925 | Every byte of the map is, modulo 256, how often two adjacent values outside interrupts differed in exactly the low bits that are set in its index. |
| Bits.Xor16Iff | virtuals/fuzzer/fuzz.c:914-917 | The exclusive or cut to 16 bits is the one number whose 16 bits are set where the two values differ. |
| Coverage.EdgesAreAdjacentPairs | virtuals/fuzzer/cov_bbl.c:214-250 | The edge set is the reloaded edges and the Thumb-masked pairs of program counters adjacent in the log, both at depth zero and in one window between resets, and nothing else. |
| BlockLog.RunLogsFirstSeen | virtuals/fuzzer/cov_bbl.c:214-244 | One run appends to file plus queue exactly its new blocks outside interrupts, in first-seen order. |
| BlockLog.RunsConserveBlocks | virtuals/fuzzer/cov_bbl.c:187-320 | Over any number of runs, killed or ended: no block is logged twice, the block set is exactly what file plus queue hold, and the queue stays below 1024. |
| BlockLog.AddStaysDistinctIff | virtuals/fuzzer/cov_bbl.c:226-244 | Adding a block keeps the log free of duplicates if and only if it is unknown or its stored timestamp is not zero. |
| BlockLog.ZeroStampDuplicates | virtuals/fuzzer/cov_bbl.c:226-244 | A block first seen at time zero is logged a second time. |
| BlockLog.DumpThenRestart | virtuals/fuzzer/cov_bbl.c:187-320 | Dumping and initialising again rebuilds the same blocks, timestamps and edges, with nothing new in the log. |
| BlockLog.FlushedFileDetermines | virtuals/fuzzer/cov_bbl.c:289-306 | Once the queue is flushed, reading the file alone gives the block set and its timestamps. |
| BlockLog.FreshMapCountsHits | virtuals/fuzzer/fuzz.c:806-822 | In a fresh process and from the snapshot point on, each byte of the map is the number of hits of its index modulo 256. |
| BlockLog.ReloadTakesLastLine | virtuals/fuzzer/cov_bbl.c:289-306 | Of several lines for one block the last one's stamp and size count, and blocks without a line are not known. |
| BlockLog.LastTranslationCounts | virtuals/fuzzer/cov_bbl.c:182-199 | The size of the last translation of a block is the one its next line carries, while the process lives. |
| BlockLog.ReadingStops | virtuals/fuzzer/cov_bbl.c:289-306 | Reading takes the lines up to the first that does not convert, whatever follows. |
| BlockLog.LinePrintsAs | virtuals/fuzzer/cov_bbl.c:194 | A line of bbl.txt, character by character. |
| BlockLog.EdgePrintsAs | virtuals/fuzzer/cov_bbl.c:132 | A line of edges.txt, character by character. |
| BlockLog.BlockFileReadsBack | virtuals/fuzzer/cov_bbl.c:187-212 | The printed lines of bbl.txt are read back by the reload's conversions, however many dumps wrote them. |
| BlockLog.EdgeFileReadsBack | virtuals/fuzzer/cov_bbl.c:118-180 | edges.txt reads back as the same set whatever order the hash table was walked in. |
| CoverageTracker.Tracker.AddObservedValue | virtuals/fuzzer/fuzz.c:904-925 | The update of map, depth, blocks and edges is the step of the fold: the two markers move the depth; a value at depth zero, if there was one before, counts up the one byte whose index bits tell where they differ, and no other. |
| CoverageTracker.Tracker.ResetTrace | virtuals/fuzzer/fuzz.c:168-172 | The reset at the sync point is a reset in the log: no edge joins the values before and after it. |
| CoverageTracker.Tracker.BblObserve | virtuals/fuzzer/cov_bbl.c:182-185 | A translation only records the block's size. |
| CoverageTracker.Tracker.BblAdd | virtuals/fuzzer/cov_bbl.c:214-245 | Adding a block through the queue array and the hash tables is the specification's, a full queue included. |
| CoverageTracker.Tracker.DumpBbl | virtuals/fuzzer/cov_bbl.c:187-212 | The file gains one line for each queued block, in order, with its stamp and the size noted for it or 0; the queue is empty, and the edges are in their file if they are on. |
| CoverageTracker.Tracker.DumpEdges | virtuals/fuzzer/cov_bbl.c:118-180 | Whatever rows the iteration gives first, the file reads back as the edge set. |
| CoverageTracker.Tracker.AddEdge | virtuals/fuzzer/cov_bbl.c:94-112 | The table of destination sets gains exactly one pair. |
| CoverageTracker.Tracker.constructor | virtuals/fuzzer/cov_bbl.c:252-325 | Starting over any text of bbl.txt and edges.txt is the restart of the specification over what the conversions read there. |
| CoverageTracker.Tracker.SnapPointReached | virtuals/fuzzer/fuzz.c:806-822 | The first visit of the snapshot point resets the interrupt depth and the map as the event log says, and leaves blocks and edges. |
| TraceRing.ObservedIsPrefixOfLogged | core/core.c:875-910 | While fewer than 16384 words are in flight, in every interleaving the tracer has observed a prefix of what was logged, coverage is the fold of just that, and a finished wait left nothing logged before it unfolded. |
| RingCapacity.RunsAreHonestIffWithinLimit | core/core.c:875-910 | In every interleaving the tracer sees a prefix of what was logged and every finished wait waited for all of it, if and only if the limit put on the words in flight is at most 16384 counted from the acknowledged index, at most 16383 counted from the tracer's own. |
| RingProgress.LoggedGetsFolded | core/core.c:875-897 | Under every interleaving, once the tracer had four turns for each word not acknowledged, all words logged by then are folded and acknowledged. |
| RingProgress.DrainWaitEnds | core/core.c:899-910 | A drain wait ends at its next look after those turns, if nothing was logged since it began. |
| TraceRing.Ring.LogMarker | virtuals/fuzzer/fuzz.c:158-166 | An interrupt hook writes its marker and then publishes it, nothing else. |
| TraceRing.Ring.TracerStep | core/core.c:875-897 | One access of the tracer loop is one step; the value it hands to coverage is the next one logged. |
| Snapshot.RangesComeBack | virtuals/fuzzer/fuzz.c:605-672 | Bytes of ranges that may overlap, written back, restore every covered address and touch no other. |
| Snapshot.CoversIff | virtuals/fuzzer/fuzz.c:605-612 | An address is covered exactly if it lies in one of the pairs of address and size of the list. |
| Snapshot.LastRangeWins | virtuals/fuzzer/fuzz.c:652-658 | Whatever data an image holds, an address in several ranges ends up with its byte of the last one. |
| Snapshot.ImageLayout | virtuals/fuzzer/fuzz.c:614-636 | Each byte of an image: r0 to r15 least byte first, the special registers of the policy, 0 for one the core lacks, then the ranges. |
| Snapshot.AppendMemoryRanges | virtuals/fuzzer/fuzz.c:293-326 | Half a pair is refused; otherwise the combined list covers what either list covers and nothing else, and its size is the sum. |
| Snapshot.RestoreIsExact | virtuals/fuzzer/fuzz.c:545-672 | Restoring on any later machine brings back every covered byte, r0 to r14 and the policy's special registers; other bytes and the program counter stay. |
| Snapshot.ImageReloads | virtuals/fuzzer/fuzz.c:545-629 | An image loads exactly when it has the policy's length, and a written one loads as the state it was written from. |
| Snapshot.ReloadedRestoreIsExact | virtuals/fuzzer/fuzz.c:545-672 | Restoring from a reloaded image equals restoring from the capture. |
| Snapshot.SavedState.Ensure | virtuals/fuzzer/fuzz.c:545-644 | The first call loads a fitting image or captures and rewrites it; later calls change nothing. |
| Snapshot.SavedState.RestoreTo | virtuals/fuzzer/fuzz.c:646-672 | The guest becomes the specified restore of the saved state. |
| FuzzLoop.EachMessageIsWonOnce | virtuals/fuzzer/fuzz.c:177-242 | Over all interleavings of any number of threads no armed message is taken by two fuzz_get_data calls. |
| FuzzLoop.RunKeepsHandshake | virtuals/fuzzer/fuzz.c:831-888 | In every run with non-zero sequence numbers the log keeps the protocol the next rows read from it. |
| FuzzLoop.DoneAnswersItsInput | virtuals/fuzzer/fuzz_aflnet.c:193-201 | Every DONE is for the input read last, no frame or DONE lies between, and unless a fatal assert sent it, its message was taken if and only if no late store replaced READY. |
| FuzzLoop.DoneComesBeforeTheNextFrame | virtuals/fuzzer/fuzz_aflnet.c:193-269 | An input has its DONE before any next frame is read. |
| FuzzLoop.RestoreDoneIsTrue | virtuals/fuzzer/fuzz.c:866-876 | RESTORE_DONE answers the RESTORE read last and is sent when the machine is the captured one again. |
| FuzzLoop.RestoreIsAnsweredBeforeTheNextFrame | virtuals/fuzzer/fuzz.c:854-887 | A RESTORE has its RESTORE_DONE before any next frame is read. |
| FuzzLoop.FirstArmedAfterRestoreIsClean | virtuals/fuzzer/fuzz.c:878-887 | The first input armed after a restore starts over an all-zero coverage map. |
| FuzzLoop.EveryDoneIsTaken | virtuals/fuzzer/fuzz.c:177-242 | With injection on the vCPU thread, every DONE not sent by a fatal assert is for a message that was taken. |
| LateStore.UntakenMessageIsDone | virtuals/fuzzer/fuzz.c:191-242 | With a getter on another thread there is a run that sends DONE for a message nobody took. |
| FuzzPlugin.Plugin.SyncPoint | virtuals/fuzzer/fuzz.c:831-888 | A visit of the sync point is a run of the protocol over exactly the frames it consumed: an unread message is armed again and nothing read; else the first input arriving is armed and is the last frame taken. |
| FuzzPlugin.Plugin.GetData | virtuals/fuzzer/fuzz.c:213-242 | A ready message is given out once, cut to the buffer; otherwise nothing changes. |
| FuzzPlugin.Plugin.AnswerRestore | virtuals/fuzzer/fuzz.c:866-876 | A RESTORE puts the machine back, then replies once. |
| FuzzPlugin.Plugin.ArmInput | virtuals/fuzzer/fuzz.c:878-887 | An input is recorded and armed, over a cleared map if a restore came first. |
| FuzzPlugin.Plugin.ReadInput | virtuals/fuzzer/fuzz_aflnet.c:242-249 | An INPUT becomes the active one by one step of the protocol, its map cleared if a restore came before. |
| FuzzPlugin.Plugin.ActivateMessage | virtuals/fuzzer/fuzz.c:878-887 | The recorded input is armed with its bytes by two turns of the protocol, and the firmware runs on. |
| FuzzPlugin.Plugin.CompletePrevious | virtuals/fuzzer/fuzz_aflnet.c:193-201 | At most one DONE is sent, for the active number, which is then none. |
| FuzzPlugin.Plugin.ReportAssert | virtuals/fuzzer/fuzz_aflnet.c:271-276 | Only a fatal assert completes the input, and then ends the run. |
| HwSession.RunConservesInterrupts | device_models/common/hw_session.c:62-110 | In every run, as sequences: captures are the acknowledgements plus the pending line; raises are the captures but for one under way; the board's halts are those examined plus one not yet examined; captures are the halts in 1..240; a parked unsignalled thread has a pending interrupt. |
| HwSession.CountsAndPrefixes | device_models/common/hw_session.c:62-110 | Acknowledgements plus one if pending equal captures, raises lag by one at most, the k-th acknowledgement wrote the k-th captured line to R1, and no line out of range is ever captured, raised or pending. |
| HwSession.ServeIsIdempotent | device_models/common/hw_session.c:282-306 | Serving a second time changes nothing. |
| HwSession.HaltIsCaptured | device_models/common/hw_session.c:62-104 | From any reachable state with nothing pending and the board halted on a valid line, under every interleaving: once the poll thread had two turns, that line is the next one captured. |
| HwSession.Session.PollRegion | device_models/common/hw_session.c:66-104 | The region under the mutex is one step, and hands out a line to raise exactly when it captured one. |
| HwSession.Session.Raise | device_models/common/hw_session.c:102 | The line handed out is raised 16 above itself, as the poll thread's next step. |
| HwSession.Session.ServeIrq | device_models/common/hw_session.c:282-306 | The pending line is written to R1, the board resumed, nothing left pending. |
| IrqPath.RaisedVectorIsInTableIff | device_models/common/hw_session.c:62-104 | In any run each captured line is in 1..240, and the vector it is raised as lies inside the interrupt table if and only if the line is at most 223. |
| IrqPath.Line224IsRaisedPastTheTable | device_models/dev.c:237-241 | A board halted on line 224 has it captured in two turns and raised as vector 240, which the table does not hold. |
| HwRegistry.SameHandleIffNameFits | device_models/common/hw_session.c:116-203 | In any run of acquires a backend gets the handle it had before if and only if its name has at most 31 characters. |
| HwRegistry.GrantedIff | device_models/common/hw_session.c:153-203 | In any run a call is granted if and only if its name is not empty and was kept by an earlier granted call, or the last slot is free and probe and thread come up. |
| HwRegistry.FittingNameIsGrantedAgain | device_models/common/hw_session.c:164-169 | After a grant the same fitting name is granted again with the same handle, whatever probe and thread would do. |
| HwRegistry.SharedHandleIff | device_models/common/hw_session.c:116-142 | Two different backends share a handle if and only if the second is the first 31 characters of the longer first, and no call before that was granted under a name kept the same way. |
| HwRegistry.PrefixSharesTheHandle | device_models/common/hw_session.c:116-142 | A name of 32 characters and then its first 31 both get handle 0. |
| HwRegistry.LongNameIsGivenTwoHandles | device_models/common/hw_session.c:116-203 | A name of 32 characters acquired twice with everything working gets handle 0 and then handle 1. |
| HwRegistry.DifferentNamesDifferentHandles | device_models/common/hw_session.c:116-203 | Backends whose names fit never share a handle. |
| HwRegistry.ProbesAreOpenedOnce | device_models/common/hw_session.c:153-203 | A probe whose name fits is open once, and its refcount is the number of calls answered with it. |
| HwRegistry.Registry.AcquireSession | device_models/common/hw_session.c:116-203 | The slot array changes as specified, a failed connection or thread giving the slot back. |
| SlotTable.RegistrationCoversItsBytesIff | device_models/dev.c:28-45 | A registration reaches exactly the slots in which one of its bytes lies if and only if its last slot number survives 32 bits or is clamped anyway; every range of 32-bit addresses does. |
| SlotTable.InclusiveRangeIsCoveredIff | include/device.h:16-19 | Reading the end as inclusive, the last slot is missed exactly when it holds only the range's last byte and the range has others. |
| SlotTable.InclusiveRangeMissesLastSlot | include/device.h:16-19 | The range from 0x40000000 to 0x40000010, read as inclusive, meets slots 0 and 1 and covers slot 0 only. |
| SlotTable.SelectedIff | device_models/dev.c:28-40 | The tables serve exactly the addresses from 0x40000000 below 0x60000000, from 0xE0000000 below 0xF0000000, and from 0x20000000 below 0x30000000. |
| SlotTable.RamIsNotIndexed | device_models/dev.c:88-92 | No registration and no access ever uses the RAM table. |
| SlotTable.RamListsAreEmpty | device_models/dev.c:305-329 | After any registrations every list of the RAM table is empty. |
| SlotTable.TableAgreesWithLog | device_models/dev.c:305-329 | The list at an address's slot is the scan of the registration log for models that start in the same address range and have a byte in the same 16, newest first, and the index is in bounds. |
| SlotTable.SlotTables.Register | device_models/dev.c:305-329 | A registration starting in one of the three address ranges joins the log all tables agree with; any other changes nothing. |
| SlotTable.SlotTables.Write | device_models/dev.c:69-135 | A write to a peripheral or system address calls each such model once in that order, any other nobody; it is kept from QEMU exactly in the three ranges for a handler that begins with g, or for nvic-default if a model was called. |
| SlotTable.SlotTables.Read | device_models/dev.c:137-182 | A read to such an address is answered by the only such model, or of several by the newest called elder, else by the newest; it is kept from QEMU under the same rule. |
| SlotTable.AnswerIsUnique | device_models/dev.c:158-182 | That rule names one model at most. |
| SlotTable.HandlersAreNewestFirst | device_models/dev.c:331-360 | Each interrupt handler registered is listed once, ordered by first registration, newest first. |
| SlotTable.SlotTables.RegisterInterrupt | device_models/dev.c:331-360 | A number out of 0..239 ends the program, any other list becomes the one of the grown registrations. |
| SlotTable.ToldNewestFirst | device_models/dev.c:237-268 | Told are exactly the registered handlers that have an interrupt callback, each once, the newest first registration first. |
| SlotTable.SlotTables.Notify | device_models/dev.c:237-268 | A number in 0..239 tells exactly those handlers in that order; for any other number the list lies outside the table. |
| SearchReplace.ParseUndoesRenderIffClean | src/fastdyn/llm/response_parser.py:255-347 | Blocks rendered under FILE headers parse back with the same files, texts and 1-based indices if and only if no text with a newline added holds a marker it could be mistaken for. |
| SearchReplace.ParseUndoesRenderBelowProseIff | src/fastdyn/llm/response_parser.py:255-347 | Below any prose the same holds if and only if the texts are clean, the prose holds no SEARCH marker and no header begun in the prose takes the first block's header for its name. |
| SearchReplace.CleanBlocksReadBack | src/fastdyn/llm/response_parser.py:278-327 | The direction a prompt relies on: clean blocks below such prose come back with the same files and texts, numbered from one. |
| SearchReplace.TargetIsHeaderIff | src/fastdyn/llm/response_parser.py:330-347 | Whatever text stands above: the target is the file of the header written in front of the block if and only if no header begun above runs into it, or one does, takes that same name, and what is left holds no header. |
| SearchReplace.BareHeaderLineWins | src/fastdyn/llm/response_parser.py:330-347 | Below a bare FILE line the header of a.c gives the target `//`. |
| SearchReplace.TargetIsHeader | src/fastdyn/llm/response_parser.py:330-347 | At the start of a response, and right after another block, the target is always the header in front of the block. |
| SearchReplace.SeparatorEndsAtIff | src/fastdyn/llm/response_parser.py:297-318 | A separator cannot begin in the search text and end in what follows unless the text holds it with one newline. |
| SearchReplace.BodyHasMarkIff | src/fastdyn/llm/response_parser.py:278-290 | A block's body holds a SEARCH marker exactly when one of its texts does: none straddles a boundary. |
| SearchReplace.ParseSearchReplaceBlocks | src/fastdyn/llm/response_parser.py:255-327 | The loop that appends blocks computes the parser the round trip is about. |
| ParseErrors.ParsedIff | src/fastdyn/llm/response_parser.py:290-327 | For any response with a marker: blocks if and only if every part has a separator and an end marker after it, block k then being what part k reads under the file named above it; else the error for the first part that lacks one, with its number. |
| ParseErrors.NoBlocksIff | src/fastdyn/llm/response_parser.py:275-288 | No blocks are reported if and only if neither form of the SEARCH marker occurs. |
| ParseErrors.RawPartsJoin | src/fastdyn/llm/response_parser.py:275-282 | The parts, joined by the LF marker if it occurs and else by the CRLF one, are the response, and none holds that marker. |
| ParseErrors.CrlfNeverParses | src/fastdyn/llm/response_parser.py:278-306 | A response with CRLF line ends throughout is refused: part 1 has no separator, or there is no marker. |
| ParseErrors.CrlfBlockIsRefused | src/fastdyn/llm/response_parser.py:278-306 | One block written with CRLF line ends, and its error. |
| ParseErrors.HeaderAtIff | src/fastdyn/llm/response_parser.py:340-347 | A header is found exactly where two slashes, white space, the letters of FILE in any case, a colon, white space and a name follow each other, and its file is that name. |
| Patching.OneByOneIsPerFile | src/fastdyn/llm/handlers.py:88-138 | Applying all blocks in response order over the whole file map succeeds exactly when each file takes its own blocks, and gives each file the fold of its own. |
| Patching.Workspace.HandleRevisedPrompt | src/fastdyn/llm/handlers.py:65-138 | All or nothing: success exactly when one by one would succeed, with the same files; otherwise no file changed, and the number reported is that of the first block that fails in the first file, by order of mention, that does not take its blocks. |
| Patching.Workspace.Route | src/fastdyn/llm/handlers.py:88-104 | A block goes to the first output path in which its file follows the last slash, to the first path if it names none or none has it. |
| Patching.NextBlockApplies | src/fastdyn/llm/patch.py:62-93 | One more block: an earlier failure stands, a search text that is not there fails with its block's number, one that is there is replaced. |
| PyString.LeftmostIsReplaced | src/fastdyn/llm/patch.py:82 | Exactly the leftmost occurrence is replaced, what stands around it stays. |
| Patching.Workspace.ApplySearchReplacePatches | src/fastdyn/llm/patch.py:29-93 | The file's content after the loop, or the first block that fails. |
| Patching.Workspace.ApplyGroups | src/fastdyn/llm/handlers.py:99-121 | The first pass fails exactly if some file's blocks do, and writes nothing. |
| Patching.Workspace.WriteAll | src/fastdyn/llm/handlers.py:123-138 | The second pass changes the patched files and no other. |
| SchemaGen.OffsetIsTheSum | src/fastdyn/binary/schema_gen.py:62-104 | For the members along any path, each in the structure the one before resolves to, the field found under the dotted path has as offset the sum of their recorded locations, 0 where none is recorded, and the kind and size of the last one's type. |
| SchemaGen.WalkedHasChain | src/fastdyn/binary/schema_gen.py:62-104 | Every path that can be walked to a leaf has such members. |
| SchemaGen.FlattenKeepsMeaning | src/fastdyn/binary/schema_gen.py:62-104 | A path that walks to no leaf names no field, any other names the leaf. |
| SchemaGen.FlattenedNamesAreUnique | src/fastdyn/binary/schema_gen.py:62-104 | No two flattened fields have the same name. |
| SchemaGen.FlattenSpells | src/fastdyn/binary/schema_gen.py:62-104 | The accumulated prefix and base come to the joined path and the sum, in declaration order. |
| SchemaGen.ListedIffWalked | src/fastdyn/binary/schema_gen.py:62-104 | Every leaf is listed under its path and nothing else is. |
| SchemaGen.FlattenStruct | src/fastdyn/binary/schema_gen.py:62-104 | The recursion that extends a list computes the flattening. |
| SchemaGen.GetBaseType | src/fastdyn/binary/schema_gen.py:106-114 | The loop computes what a type resolves to. |
| SchemaGen.BaseEndsTheChain | src/fastdyn/binary/schema_gen.py:106-114 | Behind any number of typedefs and qualifiers that is what they end in, or nothing if the chain breaks off. |
| SchemaGen.MapToCType | src/fastdyn/binary/schema_gen.py:116-169 | For each kind and size exactly which types have it. |
| SchemaGen.PointeeEndsTheChain | src/fastdyn/binary/schema_gen.py:124-131 | A pointer's target name is that of the base type behind any number of typedefs and qualifiers. |
| SchemaLoader.PrintedSchemaLoads | virtuals/introspection/schema_loader.c:49-96 | A printed schema whose numbers fit their conversions loads as itself if and only if it has at most 64 structures and 64 symbols and its names are words within the widths of their conversions. |
| SchemaLoader.LoadedIsRead | virtuals/introspection/schema_loader.c:49-96 | Whatever text is loaded, the tables keep within their sizes and the names within the widths of their conversions. |
| SchemaLoader.TokenReadsBackIff | virtuals/introspection/schema_loader.c:59-78 | A name is read back whole if and only if it fits the width of its conversion. |
| SchemaLoader.LoadedOffsetIsTheSum | virtuals/introspection/schema_loader.c:107-121 | From debug information to lookup: for each wanted structure and path the loaded file gives the sum of the locations recorded for the members along it. |
| SchemaLoader.LoadedSymbolIsFound | virtuals/introspection/schema_loader.c:98-105 | Each printed symbol is found at its address. |
| SchemaLoader.WantedIsFirstEntry | src/fastdyn/binary/schema_gen.py:32-47 | A wanted structure comes from its first entry in the debug information. |
| SchemaLoader.OnlyWantedInOrder | src/fastdyn/binary/schema_gen.py:32-47 | Nothing but wanted structures is taken, each once, in the order of their first entries. |
| SchemaLoader.SchemaPrintsAs | src/fastdyn/binary/schema_gen.py:46-60 | A schema file, character by character. |
| SchemaLoader.UnknownWordIsSkipped | virtuals/introspection/schema_loader.c:59-95 | A word that is no marker is passed over. |
| Text.SixAreSkipped | virtuals/introspection/schema_loader.c:59-78 | Before a conversion the six white space characters of C are skipped, in any number, and nothing else. |
| SchemaLoader.ParseStructs | src/fastdyn/binary/schema_gen.py:32-47 | The loop over the entries collects the wanted structures of the specification, in order. |
| SchemaLoader.Inspector.LoadSchemas | virtuals/introspection/schema_loader.c:49-96 | The loading loop fills the tables with what the specification reads. |
| SchemaLoader.Inspector.GetFieldOffset | virtuals/introspection/schema_loader.c:107-121 | The nested search finds the first structure's first field of that name, 0 for none. |
| SchemaLoader.Inspector.GetSymbol | virtuals/introspection/schema_loader.c:98-105 | The search finds the first symbol of that name, 0 for none. |
| EthTrace.LengthIffWellFormed | utils/print_eth_trace.py:83-102 | A length is found at an offset if and only if that many bytes there are one whole frame. |
| EthTrace.WellFormedIff | utils/print_eth_trace.py:83-102 | A whole frame, byte by byte: type 08 00 and as long as bytes 16 and 17 say, or type 08 06 and 42 bytes. |
| EthTrace.ParseTrace | utils/print_eth_trace.py:291-314 | The frames found tile a prefix of the buffer, each whole, and where the loop stops no frame begins. |
| EthTrace.SplittingIsUnique | utils/print_eth_trace.py:83-102 | A buffer is whole frames followed by something that begins none in one way only. |
| EthTrace.ConcatenationSplitsBack | utils/print_eth_trace.py:291-314 | What is found in a concatenation of IPv4 and ARP frames is those frames with nothing left. |
| EthTrace.FramesAreLong | utils/print_eth_trace.py:83-102 | Each frame takes at least 34 bytes, so the loop ends. |
| Probe.RleExpandsBack | virtuals/probe/probe.c:172-190 | The run-length encoding expands to the executed blocks. |
| Probe.RleIsUnique | virtuals/probe/probe.c:172-190 | It is the only list of maximal runs that does. |
| Probe.Monitor.DumpTrace | virtuals/probe/probe.c:142-150 | The dump is the last min(runs, 10000) entries of the encoding of the whole execution, oldest first, counts in 32 bits. |
| Probe.Monitor.TbExec | virtuals/probe/probe.c:172-216 | The run ends for lack of coverage or for idling exactly when more than 5,000,000 blocks of work, or 1,000,000 ignored blocks in a row, have passed; the 64-bit difference never underflows. |
| Probe.WorkIsCountedFromNovelty | virtuals/probe/probe.c:200-216 | The counter compared is the number of blocks that are not ignored since the last translation or ignored block. |
| Probe.IdleIsCountedFromWork | virtuals/probe/probe.c:200-216 | The idle counter is the number of ignored blocks since the last one that was not. |
| Probe.Monitor.TbTranslate | virtuals/probe/probe.c:232 | A translated block starts the stall count over. |
| Probe.Monitor.CheckRead | virtuals/probe/probe.c:475-492 | The run ends at the thousandth identical read in a row with no write between. |
| Probe.Monitor.CheckWrite | virtuals/probe/probe.c:494-504 | A write starts the count of identical reads over. |
| Swarm.PortBlocksAreDisjoint | src/fastdyn/swarm.py:69-87 | Two workers never share a port, and all ports are valid. |
| Swarm.BuildPlans | src/fastdyn/swarm.py:69-149 | Plans exist exactly if the parameters are in range and the last block fits; worker i has the seven ports from base + i * stride on in the order of their roles, and all are pairwise disjoint. |
| Swarm.PollOneMore | src/fastdyn/swarm.py:277-335 | A polled worker is collected with the code its poll gave, and stays active exactly if it gave none. |
| Swarm.RunWorkerPlans | src/fastdyn/swarm.py:277-335 | The call ends with the results, workers and reason that the rounds of polling make of the plans; whatever they are, started plans are a prefix, split between active and collected, never more than `jobs` at once, slots filled while plans wait; a finished run collected each plan once; with stop-on-failure nothing starts after a failure was collected. |

## Left out

- QEMU, libhw, cJSON, GLib, pyelftools and sockets: memory, registers, the board, tables, type trees and frames stand for them.
- The clock, `malloc` failures, short or failing reads and writes of files, and everything printed for people.
- cov_bbl.c: a short `write` result, after which the original writes from the start again; every write is taken to be whole.
- fuzz.c: the two callbacks at the sync point, the savestate's time-out, and RESPONSE messages, which change nothing the protocol reads.
- fuzz.c: a copy by `fuzz_get_data` that overlaps the next frame's arrival in the same buffer may mix the two; only who takes a message is modelled, not the bytes of an overlapping copy.
- Overflow of `fuzz_irq_depth` and of the probe's `bbl_idx` after 2^31 events.
- The exact check the inline logger makes lies inside QEMU: "fewer than 16384 words in flight" is taken as its contract.
- hw_session.c: the retry loops of `hw_session_read` and `hw_session_write`, which only repeat one call.
- dev.c: logging, the JSON configuration, and the probe's checks of unhandled accesses.
- probe.c: the lists of faults, panics, bounds and milestones compared at translation, and the stack pointer check.
- swarm.py: starting and killing processes, the smoke run, and exceptions raised while starting a worker.
- handlers.py: a failure of a write in the second pass, paths that name one file twice, and newline translation.
- schema_gen.py: base types and members without a name, which raise an exception; location expressions that are not plain numbers.
- schema_loader.c: a record cut short leaves variables unset in the original; the model stops there. Signs and overflow of `fscanf` conversions are excluded by the sizes a schema may have.
- SchemaLoader.Inspector.LoadSchemas: does not say what the tables hold when more than 64 entries or a broken record make the original undefined.
- SchemaLoader.PrintedSchemaLoads: is stated for numbers the conversions can hold; C leaves others undefined.
- ReplayProgress.DueHeadIsRaisedWithinSixTurns: is stated while the instruction count does not wrap 64 bits, because a wrapped count closes the gate again.
- dev.c: the hook for a served interrupt, which walks the list like the notification but for another callback.
- FuzzLoop.RunKeepsHandshake: is stated for inputs numbered from one, because number 0 means "no active input" to the original and is never answered.
- BlockLog.RunsConserveBlocks: is stated for a clock that never reads zero; BlockLog.AddStaysDistinctIff says what happens otherwise.
- BlockLog.RunLogsFirstSeen: likewise.
- schema_loader.c: `inspct_get_field`, which reads target memory at the offset found.
- print_eth_trace.py: decoding of the protocols inside a frame, and IPv6 frames, at which splitting stops.
- CLI, TOML, FMU build, plotting, LLM clients, RTOS hooks, physics backends and the sample device models.
