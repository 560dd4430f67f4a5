# Verified model of the microkernel, its protocols and its storage

This project models, in Dafny, the parts of the repository that keep state through loops or byte-by-byte machines, and proves that each of them agrees with a simple specification.

| file | models |
|---|---|
| `Crc16.dfy`, `SlvrFrame.dfy` | the CRC-16 of SLVR/1, the wire format, and both encoders |
| `Division.dfy`, `Crc16Division.dfy`, `Crc32Division.dfy` | long division of bit sequences by a polynomial, and both checksums as remainders of it |
| `DeviceParser.dfy`, `DeviceRuns.dfy` | the device's 13-state byte parser, and what holds over every byte history |
| `BrowserScan.dfy`, `BrowserParser.dfy` | one greedy scan of a whole stream, and the browser's buffered chunk parser that refines it |
| `Scheduler.dfy`, `SchedulerRuns.dfy` | the cooperative scheduler, and theorems over whole runs of iterations |
| `ArenaLayout.dfy`, `Arena.dfy` | the arena as a list of blocks, and the allocator that relinks headers in memory |
| `Pool.dfy` | the fixed-size pools and their free lists |
| `Crc32.dfy`, `Record.dfy` | the table-driven CRC-32 and power-loss records |
| `Flash.dfy`, `FlashBits.dfy`, `VfsTable.dfy`, `VfsState.dfy`, `Vfs.dfy` | NOR flash, the inode table and its image, the file system calls as functions on states, and the code that carries them out |
| `VfsFiles.dfy`, `VfsRuns.dfy`, `VfsLog.dfy` | files under their names, runs of changes to them, and the append-only log |
| `VfsCalls.dfy`, `VfsEffects.dfy`, `VfsPaths.dfy` | lists of calls, the effect of each call in numbers, and what callers see through paths |
| `VfsReading.dfy`, `VfsPowerLoss.dfy` | reading back and piece by piece, and mounting after the power was lost inside a call |
| `MacroText.dfy`, `MacroLines.dfy`, `MacroParser.dfy` | the macro language, its lines character by character, and the parser with its 64-byte buffer |
| `BleHid.dfy`, `BleTimes.dfy`, `BleFiles.dfy` | the keyboard application, how long it takes, and its descriptors in the file system |
| `EventBus.dfy`, `FaultRing.dfy`, `Slip.dfy` | the event ring, the fault ring, and SLIP framing (RFC 1055, the unnumbered PROTOCOL section) |
| `Bytes.dfy`, `Bits8.dfy` | bytes, 16- and 32-bit numbers in bytes, and the passage between numbers and bit patterns |

Code that changes state step by step is modelled by classes and loops over arrays. Each method is proved against a function or a relation on plain values, and the theorems are about those. For instance `DeviceParser.Parser.FeedByte` is proved to do what `Feed` does, and `DeviceRuns` proves theorems about `Feed`. Every lemma switches automatic induction off, so each proof by induction is written out.

Where a specification could share a mistake with the code it specifies, its meaning is stated once more without it, in bytes and numbers: both checksums are remainders of long division (`Crc16Division.CrcIsRemainder`, `Crc32Division.CrcIsRemainder`), `SlvrFrame.WireBytes`, `Record.FormatHolds` and `VfsTable.ImageLayout` lay formats out byte by byte, and `DeviceParser.FeedInBytes`, `VfsEffects` and `MacroLines` say what each byte, call and line does.

What the code does that its users might not expect is stated exactly:

- The device parser loses a frame when it arrives while an attempt at another frame is in progress: two noise bytes `SL` are enough (`NoiseCanSwallowAFrame`). `DeliveredIff` says exactly when a frame gets through.
- The allocator's free-byte counter drifts: a split never pays for the new header, joining credits it, and the counter is cut to zero when it is near the block's size. `FreeCounterExactIff` and `CycleKeepsCounterIff` say when one allocation, and one followed by freeing, keep it; `CounterExactIff` says how far it is off; the smallest request from a fresh arena, freed again, already leaves it above the capacity (`FreshCycleExceedsCapacity`).
- Where `size_t` has 32 bits, as on the ESP32-S3, the size of a record can wrap: a record whose writing was cut inside the length field can pass the length test and make the check read past its buffer (`OverrunIff`, `InterruptedRejectedIff`, `CutAtLengthOverruns`). Where it is wider, every interrupted record is rejected (`InterruptedRejected`).
- The device parser's count of dropped bytes leaves out 4 bytes of an attempt with a wrong version, 9 of one with an oversized length, and every byte of a frame with a wrong checksum (`BytesAccounted`).
- A ready task without a period, of whatever priority, stops time: within nine turns without a registration the tick advances if and only if there is none (`EndlessStopsTime`, `TickAdvancesIff`). At the best priority such tasks also starve all others (`PeersStopTime`).
- Every call that changes a file's size erases and rewrites the first sector, and mounting checks only its magic. If the power is lost within the magic, the next mount formats; within the table, it takes over a torn one (`CutInTable`). `NewTableIff` and `OldTableIff` say exactly after how many bytes the new or the old table is found.
- A file name of more than 31 bytes is cut when it is stored but compared whole, so a file created under it is not found again (`CreatedIsFoundIff`), and it hides or is hidden by a file that already has the cut name (`CreatedKeepsUniqueIff`).
- A write that ends before the end of the file erases what is behind it (`WriteIsInPlaceIff`), and a descriptor opened for reading and writing refuses every write (`WritableIff`).
- A `STRING` line types only its first 31 characters (`TypedWholeIff`).
- A connection or disconnection while a macro is played leaves the descriptor behind (`NeatIff`, `DisconnectLoses`); eight disconnections fill the table of descriptors for every caller (`EightDisconnections`).

`docs/HOST_PROTOCOL.md` gives 11 bytes of overhead and another coverage for the checksum; the model follows the code, where the overhead is 12 and the checksum covers bytes 4 to 9 and the payload.

The tick and task activations, the device parser's counters, the event and fault totals and fault identifiers, and lengths, checksums and delays that are cut to 32 bits are reduced modulo 2^32. Statistics that only count (task executions, faults, overruns and deadline misses, scheduler iterations, the allocator's and the pool's counters) are natural numbers. Time, task bodies, the radio link and the content of the macro file are inputs.

## Model

| member | source | states |
|---|---|---|
| Crc16.Compute | os/protocol/host_protocol.c:10-29 | the nested loops compute the bitwise polynomial CRC from the initial value 0xFFFF |
| Crc16.Continue | os/protocol/host_protocol.c:159-173 | the checksum can be continued over the payload from an intermediate value |
| Crc16.FoldConcat | os/protocol/host_protocol.c:158-173 | checksum of header then payload is the checksum of both put together |
| Crc16.FoldInjective | os/protocol/host_protocol.c:10-29 | over any data, different start values give different checksums |
| Crc16.SingleByteChange | flasher/src/protocol/host_protocol.js:55-68 | changing any one byte of any data changes the checksum |
| Crc16Division.WordIsNumber | os/protocol/host_protocol.c:10-29 | the checksum is the number in the 16-bit register, high byte first |
| Crc16Division.CrcIsRemainder | os/protocol/host_protocol.c:10-29 | the checksum of every byte string is the remainder of the message, its first 16 bits inverted and 16 zeros behind it, in long division by x^16 + x^12 + x^5 + 1 |
| Crc16Division.CheckValue | tests/test_host_protocol.c:18-22 | the checksum of "123456789" is 0x29B1 |
| SlvrFrame.WireBytes | os/protocol/host_protocol.c:208-235 | every byte of an encoded frame, with length and checksum as big-endian numbers |
| SlvrFrame.AcceptedBytes | flasher/src/protocol/host_protocol.js:175-212 | which bytes announce a frame, are one, and carry a right checksum, in numbers |
| SlvrFrame.DecodeEncode | os/protocol/host_protocol.c:193-236 | an encoded frame has the shape of a frame, a right checksum, and decodes to itself |
| SlvrFrame.EncodeDecode | os/protocol/host_protocol.c:145-182 | bytes of the right shape and checksum are exactly the encoding of what they decode to |
| SlvrFrame.EncodeFrame | os/protocol/host_protocol.c:193-236 | statuses, every byte of the buffer in numbers, and nothing written behind the frame or on an error |
| SlvrFrame.EncodeInBrowser | flasher/src/protocol/host_protocol.js:75-108 | the browser's encoder makes the same bytes, with defaults of zero and numbers modulo 256, or refuses an oversized payload |
| DeviceParser.Parser.constructor | os/protocol/host_protocol.c:31-39 | a new parser is idle |
| DeviceParser.Parser.FeedByte | os/protocol/host_protocol.c:41-191 | the 13 states refine "collect the bytes of one attempt", with every counter modulo 2^32 and the frame handed out exactly when one is delivered |
| DeviceParser.Parser.TakeMagic | os/protocol/host_protocol.c:48-84 | the four magic states, with 1, 2, 3 or 4 bytes counted as dropped |
| DeviceParser.Parser.TakeLengthLow | os/protocol/host_protocol.c:117-131 | a length above 512 ends the attempt before any payload byte is stored |
| DeviceParser.Parser.TakeCrcLow | os/protocol/host_protocol.c:145-183 | the last byte delivers the frame or counts one checksum error |
| DeviceParser.FeedAllConcat | os/protocol/host_protocol.c:41-191 | feeding in two portions is feeding at once |
| DeviceParser.FeedInBytes | os/protocol/host_protocol.c:47-187 | what one byte does to any attempt, in numbers: which one extends it, how many count as dropped, and what the last one decides |
| DeviceRuns.Soundness | os/protocol/host_protocol.c:41-191 | every history is noise, delivered frame, noise, and so on: frames come from disjoint stretches of input, in order, each of them exactly its encoding |
| DeviceRuns.DeliveredFrameIsLastBytes | os/protocol/host_protocol.c:145-178 | whenever a frame is delivered, its encoding is exactly the last bytes fed |
| DeviceRuns.Completeness | os/protocol/host_protocol.c:47-191 | from idle, frames separated by noise without 'S' are all delivered, in order, without a checksum error |
| DeviceRuns.ParsersAgree | flasher/src/protocol/host_protocol.js:143-236 | on such streams the device and the browser deliver the same frames |
| DeviceRuns.DeliveredIff | os/protocol/host_protocol.c:47-84 | a frame is delivered by its last byte if and only if the parser was idle or had seen a single 'S' when it began |
| DeviceRuns.NoiseCanSwallowAFrame | os/protocol/host_protocol.c:68-75 | after the noise "SL" an empty frame is lost |
| DeviceRuns.ResynchroniseAfter523 | os/protocol/host_protocol.c:97-183 | after any history, 523 bytes without 'S' leave the parser idle |
| DeviceRuns.BytesAccounted | os/protocol/host_protocol.c:47-182 | over every history, bytes counted as dropped, bytes of delivered frames, bytes of the attempt in progress and exactly the uncounted ones add up to the bytes fed |
| DeviceRuns.SingleByteCorruption | os/protocol/host_protocol.c:145-182 | changing any byte from the type on, other than the length, gives one checksum error, no frame, and an idle parser |
| BrowserScan.SkipNoise | flasher/src/protocol/host_protocol.js:145-173 | noise without the magic in front of a frame, even across the border, changes nothing |
| BrowserScan.ScanFramedStream | flasher/src/protocol/host_protocol.js:143-236 | frames separated by magic-free noise are all found, without a checksum error |
| BrowserScan.ScanTakesLeftmost | flasher/src/protocol/host_protocol.js:143-236 | the frame found next is the leftmost with a right checksum that no incomplete one precedes; every position passed that starts a frame with a wrong checksum counts as one error |
| BrowserScan.EquivalentAfterJudging | flasher/src/protocol/host_protocol.js:208-235 | delivering a candidate or stepping one byte into it keeps what is buffered equivalent to the whole stream, whatever comes next |
| BrowserParser.StreamParser.constructor | flasher/src/protocol/host_protocol.js:114-120 | a new parser has been fed, has dropped and has delivered nothing |
| BrowserParser.StreamParser.Append | flasher/src/protocol/host_protocol.js:133-141 | growing the buffer keeps its content, and the chunk is put behind it |
| BrowserParser.StreamParser.FindMagic | flasher/src/protocol/host_protocol.js:145-157 | the first magic in the buffer, or -1 if there is none |
| BrowserParser.StreamParser.Feed | flasher/src/protocol/host_protocol.js:130-237 | frames and checksum errors are those of one scan of everything fed; dropped, delivered and buffered bytes add up to the bytes fed; at most 523 stay buffered, all of them if there are fewer than 12, and three if none of the others can belong to a frame |
| BrowserParser.FeedChunks | flasher/src/protocol/host_protocol.js:130-237 | the result depends on the concatenation of the chunks alone |
| Scheduler.ChoiceIsUnique | os/kernel/scheduler.c:107-144 | best priority and round-robin distance single out one task |
| Scheduler.Scheduler.constructor | os/kernel/scheduler.c:18-36 | tick, cursor and count are zero and no task is used |
| Scheduler.Scheduler.Register | os/kernel/scheduler.c:38-76 | a registered task gets its priority, limited to 7, its period, the present tick and zero counters, and is ready; an invalid registration changes nothing, and no other task changes |
| Scheduler.Scheduler.Tick | os/kernel/scheduler.c:88-105 | exactly the sleeping tasks that are due wake up, and the tick advances modulo 2^32 |
| Scheduler.Scheduler.SelectNext | os/kernel/scheduler.c:107-144 | none exactly if no task is eligible; otherwise the first task of the best priority at or after the cursor, which moves behind it |
| Scheduler.Scheduler.RunIteration | os/kernel/scheduler.c:146-211 | one iteration is one step of the relation that the run theorems are about; the measured time, every statistic and the next due tick of the task, in numbers |
| SchedulerRuns.OnTimeStep | os/kernel/scheduler.c:88-211 | with periods of at least 1, ready tasks are due now and sleeping ones later, and every step keeps this |
| SchedulerRuns.NoDeadlineMissed | os/kernel/scheduler.c:160-163 | over every such run no deadline miss is ever counted |
| SchedulerRuns.ExactlyOncePerPeriod | os/kernel/scheduler.c:38-211 | from initialisation on, a task registered at t0 is dispatched exactly once at each of t0, t0+p, t0+2p and so on that has been served, and at no other tick |
| SchedulerRuns.NoMissesSinceStart | os/kernel/scheduler.c:18-163 | from initialisation on, whenever periodic tasks are registered, no deadline miss is ever counted |
| SchedulerRuns.ReadyCountFalls | os/kernel/scheduler.c:107-203 | between ticks each iteration lowers the number of ready tasks by exactly one |
| SchedulerRuns.TickWithinNineTurns | os/kernel/scheduler.c:146-208 | among any nine iterations one advances the tick |
| SchedulerRuns.PrioritiesInOrder | os/kernel/scheduler.c:113-123 | within one tick priorities are dispatched in order |
| SchedulerRuns.BetterPriorityFirst | tests/test_scheduler.c:48-62 | of two tasks registered at one tick with priorities a < b <= 7, the one with a is dispatched first, in every run |
| SchedulerRuns.StatisticsAreExact | os/kernel/scheduler.c:157-196 | over every run since its registration a task's executions are its dispatches, its overruns and faults those of more than 25000 microseconds, and its worst time is the largest |
| SchedulerRuns.RoundRobin | os/kernel/scheduler.c:129-141 | n equal tasks that are always ready at the best priority: any n dispatches run each of them once |
| SchedulerRuns.SettledSinceStart | os/kernel/scheduler.c:18-211 | from initialisation on, whatever is registered, ready tasks can be dispatched and only periodic tasks sleep |
| SchedulerRuns.EndlessStopsTime | os/kernel/scheduler.c:157-208 | over any run, a ready task without a period, of any priority, stays ready, no turn is idle, and the tick never advances |
| SchedulerRuns.TickAdvancesIff | os/kernel/scheduler.c:146-208 | within nine turns without a registration the tick advances if and only if no ready task lacks a period |
| SchedulerRuns.PeersStopTime | os/kernel/scheduler.c:129-208 | always-ready tasks of the best priority starve all others: over any run no other task is ever touched |
| ArenaLayout.InitialTiling | os/kernel/memory_manager.c:34-53 | one free block tiles the arena |
| ArenaLayout.PayloadsDisjoint | os/kernel/memory_manager.c:60-133 | payloads are aligned, inside the arena, disjoint from each other and from every header |
| ArenaLayout.AllocateTiling | os/kernel/memory_manager.c:86-109 | splitting and marking keep an exact tiling in multiples of 8 with no two free neighbours |
| ArenaLayout.AllocatedBlocks | os/kernel/memory_manager.c:86-109 | the rest of the block stays one free block if and only if a header and eight bytes are left over |
| ArenaLayout.UsedBelowAsked | os/kernel/memory_manager.c:60-133 | used bytes are less than what was asked for, rounded up, and a header and eight bytes for each live block |
| ArenaLayout.ReleaseTiling | os/kernel/memory_manager.c:172-204 | freeing with both coalescing steps keeps it |
| ArenaLayout.AllocateLive | os/kernel/memory_manager.c:86-123 | allocating adds one live block and moves none |
| ArenaLayout.ReleaseLive | os/kernel/memory_manager.c:172-204 | freeing removes that live block and moves none |
| ArenaLayout.ReleaseUndoesAllocate | os/kernel/memory_manager.c:60-205 | freeing a block straight after allocating it restores the list of blocks |
| ArenaLayout.ReleaseEverything | os/kernel/memory_manager.c:135-205 | freeing all live blocks, in any order, leaves one free block of full capacity |
| ArenaLayout.AllocateTotals | os/kernel/memory_manager.c:86-121 | used bytes grow by the block, free payload bytes fall by it and by the header of a split |
| ArenaLayout.ReleaseTotals | os/kernel/memory_manager.c:176-204 | used bytes fall by the block, free payload bytes grow by it and by the headers joined away |
| ArenaLayout.TotalsFillArena | os/kernel/memory_manager.c:60-205 | free payloads, live payloads and headers always add up to the arena |
| ArenaLayout.CounterExactIff | os/kernel/memory_manager.c:111-116 | a free-byte counter never cut to zero is too high by all headers but one and all headers joined away; it is exact if and only if there is one block and nothing was ever joined |
| ArenaLayout.CycleKeepsCounterIff | os/kernel/memory_manager.c:86-204 | exactly when allocating a block and freeing it again keeps the counter; a split one raises it by a header |
| ArenaLayout.FreshCycleExceedsCapacity | os/kernel/memory_manager.c:86-204 | one such cycle from a fresh arena leaves the counter at the arena's size, a header above its capacity |
| ArenaLayout.FreeCounterExactIff | os/kernel/memory_manager.c:90-116 | when the free-byte counter stays exact |
| Arena.SplitLinked | os/kernel/memory_manager.c:90-106 | the header writes of a split keep prev and next inverse along the new list |
| Arena.JoinLinked | os/kernel/memory_manager.c:184-204 | the header writes of joining keep them inverse too |
| Arena.BlocksUntouched | os/kernel/memory_manager.c:60-205 | writing headers of blocks writes into no payload |
| Arena.Arena.constructor | os/kernel/memory_manager.c:34-53 | the arena starts as one free block, with an exact free counter |
| Arena.Arena.CounterExact | os/kernel/memory_manager.c:111-116 | in every state in which it was never cut to zero, the allocator's free-byte counter is exact if and only if there is one block and nothing was ever joined |
| Arena.Arena.FindFit | os/kernel/memory_manager.c:74-127 | following next pointers finds the first block that fits, or there is none |
| Arena.Arena.UsedIsBounded | os/kernel/memory_manager.c:60-205 | so they are in every state the allocator reaches |
| Arena.Arena.Malloc | os/kernel/memory_manager.c:60-133 | fails exactly for a bad size or when no free block is large enough; otherwise the lowest block that is large enough is cut to the size rounded up, if a header and eight bytes are left over, the counters follow, and no live payload is moved or written to |
| Arena.Arena.Free | os/kernel/memory_manager.c:135-205 | a live pointer's block is released; bad and freed pointers change only their counters; used bytes stay the sum of live block sizes; the free-byte counter grows by the block and the headers joined away, and unless it was ever cut to zero, free and used bytes are the capacity and all headers joined so far |
| Pool.Pool.constructor | os/kernel/memory_pool.c:54-83 | every slot is in the free list of its class |
| Pool.LivePlusFree | os/kernel/memory_pool.c:54-157 | live and listed slots of a class add up to its total |
| Pool.AfterPop | os/kernel/memory_pool.c:113-117 | popping keeps every list acyclic, threaded through its nodes, and disjoint from the live slots |
| Pool.AfterPush | os/kernel/memory_pool.c:145-149 | so does pushing |
| Pool.FitUnique | os/kernel/memory_pool.c:95-102 | the smallest fitting class is unique |
| Pool.FitIff | os/kernel/memory_pool.c:23-38 | classes from 16 to 256 bytes, each twice the one before; the smallest fit is the one whose half is too small |
| Pool.Capacities | os/kernel/memory_pool.c:23-44 | 32, 32, 32, 16 and 8 slots, one class behind the other, in 7680 bytes |
| Pool.Pool.Alloc | os/kernel/memory_pool.c:85-126 | fails exactly for a bad size or when the smallest fitting class is empty, which alone counts as a failure; otherwise a slot of that class that was not live, and used bytes grow by its size |
| Pool.Pool.Free | os/kernel/memory_pool.c:128-157 | a live slot goes to the front of its list and used bytes fall by its class size; any other is refused |
| Crc32.ShiftsLinear | os/vfs/vfs_block.c:27-29 | eight shift steps are linear over exclusive or |
| Crc32.TableStep | os/vfs/vfs_block.c:41-43 | one table step is eight bit steps |
| Crc32.Table.Init | os/vfs/vfs_block.c:23-33 | the table holds the eight-step image of each index |
| Crc32.Table.Calc | os/vfs/vfs_block.c:35-45 | the table-driven loop computes the bitwise reflected CRC (RFC 1952, section 8) of every byte string |
| Crc32.UpdateInjective | os/vfs/vfs_block.c:41-43 | the step is injective in the state and in the byte |
| Crc32.SingleByteChange | os/vfs/vfs_block.c:35-45 | changing any one byte changes the checksum |
| Crc32Division.CrcIsRemainder | os/vfs/vfs_block.c:23-45 | the checksum of every byte string is the inverted remainder of the message, bits reversed, its first 32 inverted and 32 zeros behind it, in long division by the polynomial of RFC 1952, section 8 |
| Crc32Division.CheckValue | tests/test_vfs_block.c:39-41 | the checksum of "123456789" is 0xCBF43926 |
| Record.FormatRecord | os/vfs/vfs_block.c:138-166 | the status, every byte of the record in the buffer (magic, version, sequence number, length, checksum, payload, marker), and nothing written behind it or when there is no room |
| Record.FormatHolds | os/vfs/vfs_block.c:150-163 | the layout of a record, byte by byte: its fields read back as the arguments |
| Record.SameRecordIff | os/vfs/vfs_block.c:150-163 | two records are the same if and only if payloads and sequence numbers modulo 65536 are; different sequence numbers below 65536 make different records |
| Record.ValidateRecord | os/vfs/vfs_block.c:168-206 | accepts exactly the records that pass every check, with their payload length; the size is added modulo the width of `size_t`, and a payload let through past the buffer is told apart |
| Record.AcceptedIff | os/vfs/vfs_block.c:168-206 | a record is accepted if and only if magic, version, length, checksum and marker are right, in bytes, and the sizes do not wrap |
| Record.FormattedValidates | os/vfs/vfs_block.c:138-206 | a formatted record in a buffer that can be addressed validates with its own payload length, for every width |
| Record.OverrunIff | os/vfs/vfs_block.c:174-190 | with 32-bit sizes the check reads past the buffer if and only if magic and version are right and the announced length is at least 2^32-20 |
| Record.NeverOverrun | os/vfs/vfs_block.c:174-190 | with wider sizes it never does |
| Record.InterruptedNotAccepted | os/vfs/vfs_block.c:168-206 | for every cut point and every width, the part written before a power loss followed by erased bytes is not accepted |
| Record.InterruptedRejected | os/vfs/vfs_block.c:183-199 | with sizes wider than 32 bits it is rejected, for every cut point |
| Record.InterruptedRejectedIff | os/vfs/vfs_block.c:183-199 | with 32-bit sizes it is rejected if and only if it was not cut from byte 6 to byte 11 so that it announces a length of at least 2^32-20 |
| Record.CutAtLengthOverruns | os/vfs/vfs_block.c:183-190 | with 32-bit sizes every record cut at byte 8 makes the check read past the buffer |
| Record.CorruptedPayloadRejected | os/vfs/vfs_block.c:188-193 | changing any payload byte is rejected, for every width |
| Flash.ProgramErased | os/vfs/vfs_block.c:102-136 | on an erased sector, programming that only clears bits leaves exactly the data |
| Flash.Flash.EraseAndWrite | os/vfs/vfs.c:46-47 | on NOR flash and in the overwriting simulator alike, erase and write leave the data and erased bytes |
| FlashBits.ProgramBits | os/vfs/vfs_block.c:102-120 | programming leaves a bit set if and only if it was set and is written as set |
| VfsTable.StoredNameMatches | os/vfs/vfs.c:115 | the bounded comparison with a stored name is equality |
| VfsTable.FindFrom | os/vfs/vfs.c:112-119 | the first inode in use with that name, or there is none |
| VfsTable.SectorsDistinct | os/vfs/vfs.c:127-140 | inodes that have ever been used have different sectors, none of them sector 0 |
| VfsTable.UsedUpdate | os/vfs/vfs.c:127-140 | how the number of files in use follows a change to one inode |
| VfsTable.ImageRoundTrip | os/vfs/vfs.c:39-48 | the superblock sector reads back as magic, count and every inode |
| VfsTable.ImageLayout | os/vfs/vfs.c:14-27 | the superblock sector byte by byte: magic, count, each inode's name, start, size, flags and use, the checksum at 776, erased bytes |
| VfsState.StoreSound | os/vfs/vfs.c:226-246 | rewriting one file's sector and the superblock keeps everything sound and every other file unchanged |
| VfsState.MountRestores | os/vfs/vfs.c:79-101 | whenever a call has returned, mounting the flash would restore exactly the table in memory |
| VfsState.RewriteGood | os/vfs/vfs.c:226-246 | replacing one inode and its sector and synchronising keeps all that holds between calls, changes no other file, and gives that one its content |
| VfsState.OpenFacts | os/vfs/vfs.c:103-174 | opening keeps all that holds between calls; per status, the file found or newly empty, and the descriptor attached to it |
| VfsState.WriteGood | os/vfs/vfs.c:212-246 | writing does, and the content becomes prefix, buffer and erased tail |
| VfsState.ReadGood | os/vfs/vfs.c:176-210 | reading does, and returns the content from the cursor on |
| VfsState.DeleteGood | os/vfs/vfs.c:258-277 | deleting does, and changes no other file |
| VfsState.MountGood | os/vfs/vfs.c:79-101 | mounting sound flash, or formatting any other, leaves all that holds between calls, with no descriptor open |
| Vfs.Vfs.Sync | os/vfs/vfs.c:39-48 | sector 0 becomes the image of the table |
| Vfs.Vfs.CreateDefaults | os/vfs/vfs.c:50-77 | the two default files and their content |
| Vfs.Vfs.constructor | os/vfs/vfs.c:79-101 | the state after mounting is a function of the flash: a formatted one is loaded unchanged; any other gets the default files, under unique names |
| Vfs.Vfs.FindFile | os/vfs/vfs.c:112-119 | the loop finds what the specification finds |
| Vfs.Vfs.Open | os/vfs/vfs.c:103-174 | the status, the lowest free descriptor, and the whole new state; `VfsEffects` says in numbers which |
| Vfs.Vfs.Read | os/vfs/vfs.c:176-210 | status, data and the whole new state: the content from the cursor on, as far as it goes, and the cursor moved by it, also after the file was deleted |
| Vfs.Vfs.Write | os/vfs/vfs.c:212-246 | the status and the whole new state, whether or not the table has to be synchronised, also after the file was deleted |
| Vfs.Vfs.Close | os/vfs/vfs.c:248-256 | the status, and only that descriptor changes |
| Vfs.Vfs.Delete | os/vfs/vfs.c:258-277 | the status and the whole new state; `VfsEffects.DeleteIs` says in numbers which |
| VfsFiles.OtherNamesUnaffected | os/vfs/vfs.c:103-277 | a change to one file is invisible under every other name |
| VfsFiles.CreatedIsFoundIff | os/vfs/vfs.c:126-140 | a created file is found again if and only if its name has at most 31 bytes |
| VfsFiles.CreatedKeepsUniqueIff | os/vfs/vfs.c:126-140 | creating a file keeps names unique if and only if no file has the name as it is stored |
| VfsFiles.DeletedIsGone | os/vfs/vfs.c:258-277 | after a delete the name is free and every other file is as it was |
| VfsFiles.WriteIsInPlaceIff | os/vfs/vfs.c:226-240 | a write changes just the bytes written if and only if it reaches the end or all bytes behind it are 0xFF already |
| VfsFiles.WriteToEnd | os/vfs/vfs.c:226-240 | a write that reaches the end leaves the old prefix and the buffer |
| VfsFiles.WriteUnderName | os/vfs/vfs.c:212-246 | a write gives one name its new content and leaves every other name its own |
| VfsFiles.StaleWriteUnseen | os/vfs/vfs.c:212-246 | writing through a descriptor whose file has been deleted is seen under no name |
| VfsFiles.WritableIff | os/vfs/vfs.c:219 | a write with room is accepted if and only if the flags lack the read-only bit, so never for reading and writing |
| VfsFiles.ReadsConcatenate | os/vfs/vfs.c:176-210 | reads of any sizes put together are the content from the cursor on |
| VfsRuns.ChangeEdits | os/vfs/vfs.c:103-277 | creating, truncating, writing or removing a file edits the content under its name, leaves every other name its own, and keeps names unique |
| VfsRuns.IndependentFiles | os/vfs/vfs.c:103-277 | over any run of changes a file's content is a function of the changes under its own name |
| VfsLog.OpenRuns | os/vfs/vfs.c:103-174 | opening is the run of at most a creation and a truncation under the stored name |
| VfsLog.AppendFacts | os/vfs/vfs_log.c:19-37 | an append is the run of its changes and leaves every open descriptor where it was and every other closed |
| VfsLog.LogInit | os/vfs/vfs_log.c:9-17 | the log exists afterwards, no content changes, and no descriptor stays open |
| VfsLog.LogAppend | os/vfs/vfs_log.c:19-37 | status and state as a function of the state before; the log gains exactly the entry, or on a failure nothing; no other file changes, and no descriptor stays open |
| VfsLog.LogClear | os/vfs/vfs_log.c:39-47 | the log is empty afterwards, or on a failure unchanged; no other file changes, and no descriptor stays open |
| VfsCalls.Perform | os/vfs/vfs.c:103-277 | every call, carried out by the code, has status, data, descriptor and new state (table, sectors, descriptors) as functions of the state before |
| VfsCalls.PerformAll | os/vfs/vfs.c:103-277 | so does any list of calls |
| VfsCalls.PerformOnBoth | os/vfs/vfs_block.c:84-136 | any list of calls on NOR flash and on the overwriting simulator, mounted from equal contents, has equal statuses and leaves equal sectors |
| VfsCalls.CallRuns | os/vfs/vfs.c:103-277 | every call is the run of its changes, unless it creates a file over the cut name of another |
| VfsCalls.ShortAreWhole | os/vfs/vfs.c:126-140 | calls on names of at most 31 bytes never do that |
| VfsCalls.FilesAreIndependent | os/vfs/vfs.c:103-277 | after any list of calls a file holds what the calls that changed it have made of it, and no other call matters |
| VfsCalls.AppendOnly | os/vfs/vfs_log.c:19-37 | over any list of calls in which only appends change the log, it holds its old content and every accepted entry in order, also if it had to be created |
| VfsCalls.OtherNamesLeaveLog | os/vfs/vfs.c:103-277 | opening, deleting and appending under other names do not change the log |
| VfsCalls.WriteLeavesLogIff | os/vfs/vfs.c:212-246 | a write leaves the log if and only if it is refused or its descriptor is not on a file of that name |
| VfsEffects.PathIsName | os/vfs/vfs.c:108-109 | a path is its own name unless it begins with a slash, and one slash in front of it is dropped |
| VfsEffects.OpenStatusIff | os/vfs/vfs.c:111-158 | not found, out of memory, busy and success, each exactly when: no such file, create bit, all 16 inodes in use, all 8 descriptors open |
| VfsEffects.OpenExisting | os/vfs/vfs.c:111-173 | the whole new state when the file exists: descriptor, position for appending and truncating, and the erased sector |
| VfsEffects.OpenNew | os/vfs/vfs.c:121-173 | the whole new state when it is created: the lowest unused inode, the name up to 31 bytes, sector, flags, and the erased sector |
| VfsEffects.ReadIs | os/vfs/vfs.c:176-210 | status, data taken from the sector, and the moved position |
| VfsEffects.WriteIs | os/vfs/vfs.c:212-246 | status, size, and every byte of the sector: its old beginning, the buffer, 0xFF |
| VfsEffects.CloseIs | os/vfs/vfs.c:248-256 | status, and only that descriptor is closed |
| VfsEffects.DeleteIs | os/vfs/vfs.c:258-277 | status; the first file of that name is marked unused and every byte of its sector is 0xFF |
| VfsEffects.AppendIs | os/vfs/vfs_log.c:19-37 | appending is opening with the bits for creating, writing and appending, a write, and closing again |
| VfsPaths.SlashMakesNoDifference | os/vfs/vfs.c:108-109 | opening, deleting and appending do the same with a slash in front of the path |
| VfsPaths.ReadBackIsContent | os/vfs/vfs.c:103-210 | opening a path for reading and reading gives the content of the file of that name, or none |
| VfsPaths.PathsAreSeparate | os/vfs/vfs.c:103-277 | after any list of calls through other paths, in any order, what is read through a path is what would have been read before |
| VfsPaths.FreshFlash | os/apps/ble_hid/ble_hid.c:70 | on newly formatted flash the nine bytes of "macro.txt" open a file that reads back as its 41 seeded bytes, "wifi_audit.log" an empty one, and every other path none |
| VfsReading.ReadPieces | os/vfs/vfs.c:176-210 | successive reads of any sizes return, and leave the descriptor, as one read of their sum |
| VfsReading.WrittenIsReadBack | os/vfs/vfs.c:103-256 | opening for writing anew, writing, closing and opening for reading gives back what was written, on the same descriptor |
| VfsPowerLoss.MountShowsSameFiles | os/vfs/vfs.c:79-101 | mounting between calls shows the same files under the same names |
| VfsPowerLoss.CutInFile | os/vfs/vfs.c:230-233 | power lost while the file's own sector is rewritten: mounting shows the old table and every other file with its content |
| VfsPowerLoss.CutInTable | os/vfs/vfs.c:39-48 | power lost while the first sector is rewritten, for every number of bytes: formatting without the magic, then a table that no file system leaves, then the new table but for the last inode's flags and use, then the new table |
| VfsPowerLoss.CutLate | os/vfs/vfs.c:39-48 | from the size of the last inode on, every file is as after the call, but perhaps the last |
| VfsPowerLoss.NewTableIff | os/vfs/vfs.c:88-95 | exactly after how many bytes mounting finds the new table |
| VfsPowerLoss.OldTableIff | os/vfs/vfs.c:88-95 | exactly when it finds the old one |
| MacroText.NextShrinks | os/apps/ble_hid/macro_parser.c:74-172 | every call that does not report the end uses up text or pending characters |
| MacroText.ScriptRoundTrip | os/apps/ble_hid/macro_parser.c:74-172 | a script of STRING, DELAY and ENTER lines is read back as exactly the events its commands stand for |
| MacroText.TypedWholeIff | os/apps/ble_hid/macro_parser.c:128-135 | a STRING line is typed whole if and only if it has at most 31 characters |
| MacroLines.KeyOfCharacter | os/apps/ble_hid/macro_parser.c:55-72 | key, modifier and delay of every character as HID usages |
| MacroLines.ReadsWord | os/apps/ble_hid/macro_parser.c:95-122 | behind white space, a word ends at white space or its fifteenth character; STRING, DELAY and ENTER are obeyed, any other word is passed over |
| MacroLines.ReadsLastWord | os/apps/ble_hid/macro_parser.c:107-120 | the last word of a file needs nothing behind it |
| MacroLines.ReadsEnd | os/apps/ble_hid/macro_parser.c:95-105 | white space alone is the end of the file |
| MacroLines.ReadsString | os/apps/ble_hid/macro_parser.c:122-145 | a string reaches from its first character that is neither space nor tab to a line feed, a carriage return or the end of the file, and at most 31 characters of it are kept |
| MacroLines.ReadsDelay | os/apps/ble_hid/macro_parser.c:146-161 | a delay is a decimal number of at most nine characters with its sign, a negative one modulo 2^32; the character behind it is lost |
| MacroLines.ReadsNoDelay | os/apps/ble_hid/macro_parser.c:146-161 | anything else is a delay of zero |
| MacroParser.MacroParser.GetNextChar | os/apps/ble_hid/macro_parser.c:25-53 | the next byte of the file, wherever a refill falls |
| MacroParser.MacroParser.StringCommand | os/apps/ble_hid/macro_parser.c:122-145 | the string buffer and the first character of a STRING line |
| MacroParser.MacroParser.DelayCommand | os/apps/ble_hid/macro_parser.c:146-161 | the number of at most nine characters behind DELAY |
| MacroParser.MacroParser.NextEvent | os/apps/ble_hid/macro_parser.c:74-172 | one call of the buffered parser is one step on the unread text |
| MacroParser.ReadAll | os/apps/ble_hid/macro_parser.c:25-172 | the whole event sequence is a function of the file text alone |
| BleHid.BleHid.Task | os/apps/ble_hid/ble_hid.c:58-132 | every state's transition: report, descriptor, parser and delay counter |
| BleHid.BleHid.HandleEvent | os/apps/ble_hid/ble_hid.c:134-142 | connection events change the state alone and leave the descriptor |
| BleHid.BleHid.Initialise | os/apps/ble_hid/ble_hid.c:30-36 | initialising forgets a descriptor that is held, without closing it |
| BleHid.BleHid.StartUp | os/apps/ble_hid/ble_hid.c:38-45 | starting changes the state, if advertising works, and leaves the descriptor |
| BleHid.BleHid.ShutDown | os/apps/ble_hid/ble_hid.c:47-56 | stopping closes the descriptor |
| BlePlayback.ReleasedAtOnce | os/apps/ble_hid/ble_hid.c:96-108 | over task calls, a key goes up in the very call behind the one that pressed it, and only then |
| BlePlayback.PlayText | os/apps/ble_hid/ble_hid.c:84-120 | from PARSE the whole file is played: every report at its own task call, then the descriptor is closed |
| BlePlayback.Session | os/apps/ble_hid/ble_hid.c:58-132 | a session from waiting to waiting: its exact length and every report in it |
| BlePlayback.ScriptIsTyped | os/apps/ble_hid/ble_hid.c:58-132 | a session over a written script makes the host show the script's letters, spaces and line ends, and nothing else |
| BleTimes.DelayTakes | os/apps/ble_hid/ble_hid.c:109-126 | a delay lasts as many task calls as tenths of its milliseconds, and three |
| BleTimes.FailedOpening | os/apps/ble_hid/ble_hid.c:69-80 | without the file the application rests for 51 task calls |
| BleTimes.AfterTheEnd | os/apps/ble_hid/ble_hid.c:84-95 | behind the end of the file it rests for 101, with the descriptor closed |
| BleTimes.HelloIsTyped | os/vfs/vfs.c:52-56 | the macro that new flash is seeded with makes the host show "Hello MicroKernel" and a line end, in 163 task calls from one connection to the wait for the next |
| BlePlayback.NeatIff | os/apps/ble_hid/ble_hid.c:30-142 | which actions keep the descriptor open exactly in PARSE, RELEASE and DELAY |
| BlePlayback.NeatThroughout | os/apps/ble_hid/ble_hid.c:30-142 | over every run without such interruptions no descriptor is lost |
| BlePlayback.NeatOverTasks | os/apps/ble_hid/ble_hid.c:58-132 | over every run of task calls the descriptor is open exactly in PARSE, RELEASE and DELAY |
| BlePlayback.DisconnectLoses | os/apps/ble_hid/ble_hid.c:134-142 | a disconnection during playback costs a descriptor at the next opening, unless the application is stopped in between |
| BleFiles.OpensTake | os/vfs/vfs.c:145-158 | each opening of an existing file takes one descriptor more and changes no file |
| BleFiles.EightDisconnections | os/apps/ble_hid/ble_hid.c:134-142 | eight disconnections during playback fill the table of descriptors: from then on opening is refused to every caller |
| EventBus.EventBus.Post | os/kernel/event_bus.c:28-54 | the newest event is accepted if and only if fewer than 64 are pending, and refused otherwise |
| EventBus.EventBus.Pop | os/kernel/event_bus.c:56-74 | the oldest pending event, across all wraparounds of the ring |
| EventBus.EventBus.Peek | os/kernel/event_bus.c:76-88 | the same event, left in place |
| EventBus.EventBus.Depth | os/kernel/event_bus.c:90-93 | depth is posted minus dispatched, also when the counters have wrapped |
| FaultRing.FaultRing.RecordFull | os/kernel/fault_manager.c:23-50 | the record joins the history with the next identifier and a valid source |
| FaultRing.FaultRing.GetLatest | os/kernel/fault_manager.c:66-75 | the last record of the history |
| FaultRing.FaultRing.GetAt | os/kernel/fault_manager.c:77-93 | the record at every offset below min(total, 32), with identifier total minus offset |
| Slip.SlipEncode | flasher/src/serial/esp_protocol.js:37-56 | the loop builds END, the escaped bytes, END |
| Slip.SlipDecode | flasher/src/serial/esp_protocol.js:63-89 | the loop runs the two-state decoder |
| Slip.EncodedBytes | flasher/src/serial/esp_protocol.js:37-56 | what each byte is encoded as: DB DC for C0, DB DD for DB, itself otherwise |
| Slip.DecodedBytes | flasher/src/serial/esp_protocol.js:63-89 | what each byte means to the decoder, in and out of an escape |
| Slip.DecodeEncode | flasher/src/serial/esp_protocol.js:37-89 | decoding undoes encoding for every byte string |
| Slip.EndOnlyDelimits | flasher/src/serial/esp_protocol.js:37-56 | END occurs in an encoding exactly at its first and last position |
| Slip.FormatCommandPacket | flasher/src/serial/esp_protocol.js:118-135 | the packet built byte by byte is the encoding of header and payload |
| Slip.PacketRoundTrip | flasher/src/serial/esp_protocol.js:118-135 | decoding a packet recovers opcode, length modulo 65536, checksum modulo 2^32, and payload |

## Left out

- SchedulerRuns.ExactlyOncePerPeriod: this and the other scheduler runs require that task bodies leave the task table alone and that the tick does not wrap. Of what a body can do to the table, only the state in which it leaves its own block is modelled; `mk_task_set_state` is not.
- Task names and pointers, the watchdog, and the fault records that the scheduler, the allocator and the pool send to the fault manager.
- Arena.Arena.Free: requires a header in front of a pointer that passes the range and alignment checks, as it is for every pointer the allocator ever returned while old headers are not overwritten, by payload bytes or by the header of a later block that partly covers them; memory that a user has damaged, and the branches that detect a damaged header, are not modelled.
- The allocator's and the pool's initialisation on first use, null pointers, and the statistics that only count events.
- Pool.Pool.Free: takes a slot of the pool; a null pointer, which the source ignores, and a pointer to anything else, in front of which there is no header, are not modelled.
- Vfs.Vfs.Read: this and Vfs.Vfs.Write take sizes as natural numbers; where `size_t` has 32 bits, the source's sum of cursor and size can wrap for sizes near 2^32.
- VfsPowerLoss.CutInTable: erasing a sector is taken to happen at once, and bytes are programmed in order.
- MacroParser.ReadAll: the file does not change while it is read, and reading it never fails.
- Failures of the flash itself and `vfs_stat`; the flash has 64 sectors, as in the host simulator.
- Record.FormatRecord: the payload, its header and marker are taken to fit the address space, so the total length does not wrap there.
- Record.InterruptedRejected: this and the other record theorems are about payloads shorter than 2^32 bytes, which the length field can hold.
- VfsState.MountRestores: multi-byte fields are laid out little-endian, as on the devices the firmware runs on.
- The rest of the C payload buffer behind a frame's length, and callbacks that call the browser parser again while it scans.
- The checksum helper of the boot loader protocol, response packets, firmware download, chip detection and packaging scripts.
- USB, Wi-Fi, radio, sockets, GPIO and Web Serial; the user interface, the simulator of telemetry, games, network diagnostics and text tables, which would only add easy members.
