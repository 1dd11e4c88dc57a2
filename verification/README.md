# AVaRICE: verified models

AVaRICE connects gdb to the AVR JTAG ICE emulators (mkI and mkII). This project models the parts of it that
keep state over many calls, and proves what they promise. Code that changes things step by step is modelled by
classes, arrays and loops; each method is tied to a function or a predicate, and lemmas say what that means.

| File | What it models |
|---|---|
| `BreakpointTable`, `BreakpointRoom`, `BreakpointLayout`, `BreakpointTransfer`, `Ice` | the mkII breakpoint table with its lazy flags, the room there is for breakpoints, the allocation of slots, the transfer to the ICE |
| `BreakpointSteps`, `BreakpointManager`, `BreakpointStranding` | its operations as steps, and what holds over every run of them; the program's code for them; a run that goes wrong |
| `Getopt`, `GetoptScanner`, `GetoptWords` | GNU getopt: the in-place exchange, the permuting scan, short and long options; command lines as they are written, and what is read back |
| `Crc16`, `Frames`, `FrameReceiver`, `Link` | the mkII link: CRC, frame layout, the receive automaton, stop-and-wait with retries |
| `Pages`, `PageCache`, `FlashImage` | page sizes and masks, reads through a cache of one page, page writes, and a whole download: image, programming, verifying |
| `ThreadSync` | the owner-and-level lock and the queue it guards, as interleaved single reads and writes |
| `IoRegisters` | gdb's query for I/O registers, answered in batches |
| `Packets`, `Hex`, `Bytes` | gdb packets, hexadecimal text, byte order |
| `Mk1Breakpoints`, `Mk1Memory` | the mkI emulator: packing of breakpoints, word-wise reads |
| `Slices`, `Wrappers` | pieces of sequences; a value that may be absent |

The main results, hardest first:

* **Breakpoints.** Over every run of add, delete, delete-all and update, with a link that may lose any clear or set,
  the table and the ICE agree, the ICE never refuses a command, the breakpoints enabled are those that the operations
  ask for, and after an update that gets through the target stops on exactly what they ask for: reads, writes or both at
  a data address, fetches of a code word, by a meaning of the slots that the code has no part in. The ICE never gets
  software breakpoints that the device does not allow, nor hardware ones under debugWire. The layout finds room exactly
  when some placement exists, which a count of pending entries against free slots decides. One thing breaks this: an
  add that finds no room rolls its entry back by clearing `enabled` and `toadd` alone. If that entry was in the ICE,
  waiting for its removal, the ICE keeps it and no entry asks for its removal. The first add of this kind, and nothing
  else, ends the agreement (`StrandingEndsIt`). `EveryRunStrands` shows that seven operations on a device without
  software breakpoints always come to it, and that the ICE refuses the update after them.
* **getopt.** A command line of options, with their values in every form, and operands, written down word by word, is
  read back by the program's code: it reports the code of each option with its value, and leaves options and operands
  sorted (`ParseLine`). On any argv, a whole permuting run reports, although it moves argv about, exactly the codes and arguments that the
  original argv asks for, and leaves argv a stable partition: options with their arguments and any `--` in their
  order, then the operands in theirs, with `optind` at the boundary. This holds for both settings of `opterr`. They
  differ in more than messages: an argument for a long option that takes none is reported as an error only if `opterr`
  is set, and AVaRICE clears it (`UnwantedArgument`).
* **Link.** Over every interleaving of host, ICE, losses, retries and events, an accepted reply answers the command
  that waits for it, even when the numbers wrap. Its message has been read unless its frame broke off behind the
  header, which is when the program accepts it unread. Over a link that keeps every frame, with an ICE that answers in
  time, every command is answered at its first try. Giving up on a command without waiting for its frames to drain
  breaks the first part, from every state in which they have not; the first command already leads to such a state.
* **Frames.** The automaton returns exactly the frame sent, after any noise. Damage inside sixteen
  consecutive bits of number, message or CRC is always found. On silence the program returns what its size register
  holds: a positive result has no verified frame behind it exactly when the stream breaks off in the header or frame
  at which a scan for headers ends, and the last four size bytes in it are a positive number (`UnverifiedIffBreaksOff`).
* **Downloads.** Which bytes of a section go where follows from its fields (`BytesOfSection`). After programming, an
  EEPROM holds every byte of the file, and a flash does exactly when it was
  erased where pages of nothing but 0xff were skipped. Programming no longer erases by itself, so the
  condition is a real one. For pages larger than the cache, which two devices have, programming works, and verifying
  writes over the end of the cache.
* **gdb.** A packet is taken exactly when its digits are the total of its characters modulo 256, and one written by the
  program has these digits. The reply to a query for I/O registers, read in batches, reads back to the registers asked
  for and their values.
* **Page cache.** A read is right if it starts on a page boundary or stays inside a page. For every other range the
  first byte after the first chunk comes from the wrong address, because the offset is never reset.
* **Locks.** In every interleaving at most one thread is inside, the assertions hold, and the unsynchronised
  comparison of the owner is true exactly for the thread inside. Without that comparison (other than on Apple) a
  thread that locks again waits for itself for ever, and with it everyone else; any thread can get there.

Where the code and its own comments disagree, the model follows the code: `get_section_addr` returns `0xffffff`, not
`0x800000`, for a section of another memory; `device_flags` is compared with `==`, not tested by bit.

## Model

| member | source | states |
|---|---|---|
| BreakpointSteps.RunIsSafe | src/jtag2bp.cc:186-635 | over every run, until an add strands a breakpoint: table and ICE agree, the ICE has refused nothing and holds only what the device allows; after a completed update nothing is left to send and the target stops on exactly what the operations ask for; over a sound link every update completes |
| BreakpointSteps.StrandingEndsIt | src/jtag2bp.cc:302-322 | the first add that strands a breakpoint leaves the ICE with one that no entry is enabled for or asks to be removed |
| BreakpointSteps.StepKeepsSteady | src/jtag2bp.cc:186-635 | one operation: table and ICE agree afterwards iff it is not an add that finds slots short for a breakpoint that waits for its removal |
| BreakpointManager.Run | src/jtag2bp.cc:186-635 | the code on a fresh device: its history is a run of the operations, from the idle ICE, and ends in the manager's state |
| BreakpointManager.Jtag2.UpdateBreakpoints | src/jtag2bp.cc:526-635 | its step is the layout followed by the transfer; from a table in step the ICE accepts every command and stays in step even if the link fails half-way; over a sound link it gets through, and the target stops on exactly what is enabled |
| BreakpointLayout.SettledStopsAsAsked | src/jtag2bp.cc:566-634 | with nothing left to send: stops on a read iff a read or access breakpoint is enabled there, on a write iff a write or access one, on a fetch iff a code one is enabled at that word |
| BreakpointLayout.WireStops | src/jtag2bp.cc:583-620 | what is sent for an entry stops the target on what the entry asks for |
| BreakpointManager.Jtag2.AddBreakpoint | src/jtag2bp.cc:186-325 | fails only when the breakpoint has no entry, all 31 are in use and none of them is idle; it is enabled exactly when there is room, no other changes; in step afterwards iff no resident entry is stranded |
| BreakpointManager.Jtag2.DeleteBreakpoint | src/jtag2bp.cc:327-368 | true iff there is an entry; afterwards exactly that breakpoint is not enabled, and table and ICE stay in step |
| BreakpointManager.Jtag2.DeleteAllBreakpoints | src/jtag2bp.cc:76-88 | nothing is enabled, and what is in the ICE is flagged for removal |
| BreakpointManager.Jtag2.LayoutBreakpoints | src/jtag2bp.cc:384-524 | reports room iff some placement of the pending entries in the free slots exists; then its numbers are one, with flash used only when the slots are taken |
| BreakpointManager.Jtag2.TakeStable | src/jtag2bp.cc:412-423 | the free slots are those that no stable entry holds |
| BreakpointManager.Jtag2.PlaceData | src/jtag2bp.cc:425-480 | places every pending data breakpoint in a slot of its own, or there is no placement at all |
| BreakpointManager.Jtag2.PlaceCode | src/jtag2bp.cc:482-521 | the same for code breakpoints, with flash as the last resort |
| BreakpointManager.Jtag2.CodeBreakpointAt | src/jtag2bp.cc:41-56 | true iff a code breakpoint is enabled there |
| BreakpointManager.Jtag2.CodeBreakpointBetween | src/jtag2bp.cc:58-74 | true iff one is enabled in the range, its end excluded |
| BreakpointManager.Jtag2.constructor | src/jtag2.h:142-166 | an empty table with its end marker, in step with an idle ICE |
| BreakpointManager.Jtag2.ClearAll | src/jtag2bp.cc:532-564 | the first loop sends a clear for each entry that waits for removal, in order, up to a failure; table and ICE after it |
| BreakpointManager.Jtag2.SetAll | src/jtag2bp.cc:566-634 | the second loop does the same with a set for each pending entry |
| BreakpointManager.Jtag2.SetMessage | src/jtag2bp.cc:583-610 | the command carries the kind, mode and word or byte address of the entry |
| BreakpointRoom.RoomIsCounted | src/jtag2bp.cc:384-524 | a placement exists iff the pending data breakpoints are no more than slots 2 and 3 have room for, and all of them no more than the free slots, or flash may be used |
| BreakpointTransfer.TransferKeepsReady | src/jtag2bp.cc:526-635 | clears before sets: the ICE refuses none, whichever is lost; if none is, nothing is left to send |
| BreakpointLayout.NoDataRoom | src/jtag2bp.cc:468-473 | when no free slot is left for a data breakpoint, no placement exists |
| BreakpointLayout.NoCodeRoom | src/jtag2bp.cc:495-515 | the same for a code breakpoint where flash may not be used |
| BreakpointLayout.BooksGivePlacement | src/jtag2bp.cc:384-524 | the bookkeeping of the allocator is a placement that respects types and slots |
| BreakpointLayout.StrandsIff | src/jtag2bp.cc:302-322 | a rollback hits an entry in the ICE exactly when the add takes back one that waits for removal and there is no room |
| BreakpointLayout.RollBackStrands | src/jtag2bp.cc:311-322 | rolling back a resident entry always orphans what the ICE holds |
| BreakpointLayout.RollBackKeepsCoherent | src/jtag2bp.cc:311-322 | rolling back any other entry keeps table and ICE in step |
| BreakpointStranding.EveryRunStrands | src/jtag2bp.cc:186-635 | every run of these: three code breakpoints sent, the first deleted, a fourth added, the first wanted back. Table and ICE agree until then; the ICE keeps the first, which is not enabled, and refuses the next update |
| BreakpointStranding.StrandingRun | src/jtag2bp.cc:186-635 | the code on a device without software breakpoints goes through such a run |
| BreakpointLayout.AddOutcome | src/jtag2bp.cc:276-325 | an add as a whole: in step iff nothing resident is stranded, else the ICE holds an orphan; the enabled set changes by that breakpoint only |
| BreakpointTable.IceObeys | src/jtag2bp.cc:384-524 | the ICE holds only what the device allows: no software breakpoints where they are barred, no hardware ones under debugWire, data only in slots 2 and 3 |
| BreakpointTable.AllowedIsAccepted | src/jtag2bp.cc:425-521 | the slots that the layout may give are those for which an idle ICE accepts the set, as far as the device has them |
| BreakpointTable.ChosenIsLast | src/jtag2bp.cc:200-230 | the add is turned away iff no entry is left |
| BreakpointLayout.SettledIceIsEnabled | src/jtag2bp.cc:526-635 | a table with nothing to send and its ICE: slots and flash hold the enabled entries, and nothing else |
| BreakpointLayout.ReadyToSet | src/jtag2bp.cc:566-634 | once nothing waits for removal, the ICE accepts the set of every pending entry |
| BreakpointLayout.ReadyToClear | src/jtag2bp.cc:532-564 | the ICE accepts every clear, and the placement stays one |
| BreakpointLayout.OddAddressSharesWord | src/jtag2bp.cc:536-549 | why code addresses have to be even: two that share a word disturb each other in flash |
| Ice.DecodeEncode | src/jtag2bp.cc:536-620 | the ICE reads the set and clear messages back as they were meant |
| Ice.MessageBytes | src/jtag2bp.cc:536-620 | the bytes of both messages, with the address low byte first |
| GetoptScanner.Scanner.Run | src/gnu_getopt.c:517-970 | a whole permuting run ends, reports every option of the original argv in order, and leaves argv a stable partition with optind at the boundary |
| GetoptWords.ParseLine | src/gnu_getopt.c:517-970 | the code on a line of written words: each option's code with its value, as it was written; the options and any `--`, then the operands, with optind between |
| GetoptWords.LineIsRead | src/gnu_getopt.c:640-970 | the reports of such a line are what its words mean: `--name=value`, `--name value`, `--name`, names unknown or ambiguous, `-abcvalue`, `-abc value`, `-abc`, operands |
| GetoptWords.LineIsSplit | src/gnu_getopt.c:548-605 | its options are the arguments of their words, its operands the others |
| GetoptWords.MissingValue | src/gnu_getopt.c:723-738 | a long option whose value is missing at the end is an error, ':' iff the option string starts so |
| GetoptWords.MissingShortValue | src/gnu_getopt.c:937-963 | the same for a short one |
| GetoptScanner.Scanner.Next | src/gnu_getopt.c:517-970 | one call returns the next report that the original argv asks for, goes forward, and keeps options, skipped operands and the rest in their places |
| GetoptScanner.Scanner.Advance | src/gnu_getopt.c:548-623 | between arguments: ends with the partition, or stands at the next option |
| GetoptScanner.Scanner.BringForward | src/gnu_getopt.c:561-567 | brings the options just decoded before the operands skipped earlier |
| GetoptScanner.Scanner.SkipOperands | src/gnu_getopt.c:572-574 | skips exactly the operands up to the next option |
| GetoptScanner.Scanner.EndAtDashes | src/gnu_getopt.c:582-593 | at `--` everything after it is an operand, and the partition is complete |
| GetoptScanner.Scanner.Initialize | src/gnu_getopt.c:395-459 | the ordering that the option string and POSIXLY_CORRECT ask for |
| Getopt.UnwantedArgument | src/gnu_getopt.c:703-720 | over a whole run: `--name=value` for an option without argument is reported as an error iff opterr is set, else as the option |
| GetoptScanner.Scanner.DecodeLong | src/gnu_getopt.c:640-772 | a long option takes the next argument exactly when it needs one and has no `=`; code and argument of each outcome under either opterr, errors included |
| GetoptScanner.Scanner.DecodeShort | src/gnu_getopt.c:776-970 | the same for a short option, whose argument may follow in the same word or be left out |
| GetoptScanner.PermutedIsStable | src/gnu_getopt.c:548-605 | the final argv: both groups in their original order, no argument lost or added |
| Getopt.SplitIsStable | src/gnu_getopt.c:548-605 | options and operands merge back to the arguments passed in |
| Getopt.Exchange | src/gnu_getopt.c:310-388 | swaps two neighbouring blocks in place, for all lengths, and touches nothing outside |
| Getopt.TurnedIsExchange | src/gnu_getopt.c:310-388 | element by element: each moved by the length of the other block |
| Getopt.FindLong | src/gnu_getopt.c:655-678 | the first exact match; without one the only name that starts so; otherwise ambiguous or unknown |
| Getopt.LookupFinds | src/gnu_getopt.c:655-678 | the loop that stops early finds what a lookup must find |
| Getopt.FindsIsUnique | src/gnu_getopt.c:655-678 | what a lookup must find is determined |
| Crc16.TableIsSerial | src/crc16.c:9-42 | each of the 256 entries is eight steps of the shift register with polynomial 0x8408 |
| Crc16.FeedIsSerial | src/crc16.c:45-47 | one table step is eight serial steps, in every state |
| Crc16.CrcIsSerial | src/crc16.c:49-60 | the CRC of any message is the bit-serial one |
| Crc16.CheckValue | src/crc16.c:49-60 | the CRC of "123456789" is 0x6f91 |
| Crc16.LeadingZeroChangesCrc | src/crc16.c:49-60 | a zero byte in front of any message changes its CRC |
| Crc16.CrcSum | src/crc16.c:49-60 | the loop computes that CRC |
| Crc16.CrcVerify | src/crc16.c:62-74 | true iff the last two bytes are the CRC of the others |
| Crc16.VerifiesIffZero | src/crc16.c:62-74 | a buffer verifies iff its CRC over everything is 0 |
| Crc16.AppendVerifies | src/crc16.c:76-84 | what CrcAppend writes verifies |
| Crc16.CrcAppend | src/crc16.c:76-84 | writes the CRC, low byte first, and nothing else |
| Crc16.BurstDetected | src/crc16.c:62-74 | any change inside sixteen consecutive bits of a verified buffer makes it fail |
| Crc16.TwoBytesChangeCrc | src/crc16.c:49-60 | any change of two adjacent bytes changes the CRC, whatever the length of the message |
| Frames.SendFrame | src/jtag2io.cc:67-88 | the frame: start byte, number, size, token, message, CRC, as laid out in src/jtag2_defs.h |
| Frames.FrameLayout | src/jtag2io.cc:67-88 | each byte of a frame: 0x1B, number and size low byte first, 0x0E, message, CRC |
| Frames.LargestMessage | src/jtag2io.cc:187-205 | a header is turned down iff it announces more than 100000 bytes |
| Frames.ReceiveInvertsSend | src/jtag2io.cc:98-237 | after any noise without a start byte, exactly the frame sent is received |
| Frames.BurstIsRejected | src/jtag2io.cc:98-237 | a burst of sixteen bits in number, message or CRC is turned down, and reception stops at the end of the frame |
| Frames.GotVerifies | src/jtag2io.cc:98-237 | whatever is received is a piece of the stream that verifies, with the size and number of its header |
| Frames.StaleSizeIsShiftedOut | src/jtag2io.cc:172-186 | the size register holds the four new bytes, whatever it held before |
| Frames.RegisterHoldsLastFour | src/jtag2io.cc:172-186 | the register holds the last four of the size bytes that went through it, however few are new |
| Frames.ScanExists | src/jtag2io.cc:98-237 | every stream has a scan: the places of the headers, each at the first start byte behind the one turned down before |
| Frames.UnverifiedIffBreaksOff | src/jtag2io.cc:98-237 | a positive result without a verified frame iff the stream breaks off where the scan ends, with positive last size bytes; the value is these bytes |
| Frames.HeaderAloneReturnsItsSize | src/jtag2io.cc:98-237 | a header followed by silence returns its size: no message, no CRC seen |
| FrameReceiver.Receiver.RecvFrame | src/jtag2io.cc:98-237 | the automaton with its state, index, size and number registers computes Receive, and leaves the frame in its buffer |
| Link.RunIsSafe | src/jtag2io.cc:243-359 | over every run: accepted replies answer their own command even if they break off, the event number is never a command's, at most ten sends |
| Link.WholeUnlessCutShort | src/jtag2io.cc:243-278 | over every run: a reply is handed over unread iff its frame broke off behind a header with the current number |
| Link.FirstCommandUnread | src/jtag2io.cc:243-278 | the first command can end like that |
| Link.StepKeepsInv | src/jtag2io.cc:243-359 | at most two numbers are in flight, and leftovers travel ahead of the current command |
| Link.AbandonedFrameMisleads | src/jtag2io.cc:334-350 | giving up with a frame still in flight: a later reply is taken for the wrong command |
| Link.FirstCommandMisleads | src/jtag2io.cc:334-350 | the first command already leads to such a state, and to the mistake |
| Link.Host.Recv | src/jtag2io.cc:243-278 | passes over events and leftovers; what it returns answers the current command; over a sound channel it is whole; a reply that is there, or comes in time over a channel that keeps it, is accepted |
| Link.Host.DoJtagCommand | src/jtag2io.cc:293-359 | an answer to this command after at most ten tries, or the run ends; at the first try when no frame is lost or damaged and the ICE answers in time |
| PageCache.Memory.JtagRead | src/jtag2rw.cc:137-182 | a regular range comes back as it is in the device, from the cached page without an exchange; of any other the byte after the first chunk comes from the wrong place; a page larger than the cache overruns it |
| PageCache.IrregularRangeGoesWrong | src/jtag2rw.cc:144-182 | for every irregular range there is a memory that is read wrongly |
| PageCache.Memory.JtagWrite | src/jtag2rw.cc:201-270 | replaces one whole page; the cache stays true iff it holds another page or the same bytes |
| Pages.MaskIsPageOf | src/jtag.h:138-142 | for every power of two: clearing the low bits of a 32-bit address is rounding down to its page |
| Pages.PageAddr | src/jtag.h:138-142 | the page address is the multiple of the page size at or below the address |
| PageCache.OtherPagesKept | src/jtag2rw.cc:239-258 | a page write leaves every other page alone |
| FlashImage.DownloadToTarget | src/jtag2prog.cc:244-337 | a whole download: both memories hold the file, 0x00 in the gaps of programmed pages, skipped pages untouched; it verifies whenever the flash was erased where pages are skipped, and overruns a cache smaller than a page |
| FlashImage.BytesOfSection | src/jtag2prog.cc:158-186 | by the fields of a section alone: with contents and a flag to load them, below 0x800000 into flash at its address, from 0x810000 to below 0x820000 into the EEPROM behind 0x810000, and nowhere else |
| FlashImage.EepromByte | src/jtaggeneric.cc:201-237 | a programmed EEPROM has each byte of a section at its address, unless a later section has one for it |
| FlashImage.FlashByte | src/jtaggeneric.cc:201-237 | so has a flash, unless the byte is 0xff and left as it was |
| FlashImage.GapByte | src/jtaggeneric.cc:215-222 | between them in a page that is written there is 0x00 |
| FlashImage.UntouchedPage | src/jtaggeneric.cc:156-181 | a page that no section has a byte for is left alone |
| FlashImage.HeldByte | src/jtaggeneric.cc:239-285 | what it means that a memory holds the file |
| FlashImage.LaidHolds | src/jtaggeneric.cc:156-237 | after programming an EEPROM holds the file; a flash does iff it was erased where pages are skipped |
| FlashImage.JtagFlashImage | src/jtaggeneric.cc:184-286 | one memory: exactly the pages that are not skipped are written; verifying tells whether every used address matches |
| FlashImage.Program | src/jtaggeneric.cc:201-237 | after the loop, or where a write failed, the pages below that point hold the image |
| FlashImage.Verify | src/jtaggeneric.cc:239-285 | true iff every used address of the image matches the device |
| FlashImage.PageIsEmpty | src/jtaggeneric.cc:156-181 | a page is skipped iff its used bytes are what erased flash holds; for EEPROM, iff it has none |
| FlashImage.LoadSections | src/jtag2prog.cc:308-316 | each address holds the byte of the last section that has one, the others 0x00 and unused |
| FlashImage.Image.Create | src/jtag2prog.cc:191-241 | one section over the image; every used address stays between the first and the last address |
| FlashImage.LastByteIsLast | src/jtag2prog.cc:191-241 | what "the last section's byte" means |
| FlashImage.StandsIffCoherent | src/jtaggeneric.cc:201-237 | programming leaves the cache true iff the cached page is skipped or written as the cache has it |
| FlashImage.SectionAddr | src/jtag2prog.cc:158-186 | the address inside the memory that the section is loaded to, or none |
| FlashImage.MaskOfSpace | src/jtag2prog.cc:178 | in the spaces of RAM, EEPROM and fuses the address mask takes just the offset away |
| FlashImage.FuseSectionStrays | src/jtag2prog.cc:158-186 | a section of fuse bits gets into the image of a memory iff the uninitialised variable names that memory; in the EEPROM it starts at its offset among the fuses |
| ThreadSync.RunIsSafe | src/thread.hh:44-73 | in every interleaving: one thread inside, no assertion fails, level and owner fit; the items taken and those in the queue are what the run has put, in order |
| ThreadSync.StepKeepsLock | src/thread.hh:44-73 | each single read or write keeps owner, level and mutex in step |
| ThreadSync.OwnerTestIsExact | src/thread.hh:44-53 | the unsynchronised comparison of the owner is true iff the thread holds the mutex |
| ThreadSync.ReentrantNeverWaitsForItself | src/thread.hh:47-53 | with that comparison no thread waits for itself |
| ThreadSync.RelockBlocksForever | src/thread.hh:55-63 | without it, a thread that locks again blocks itself and everyone else in every continuation |
| ThreadSync.SecondLockBlocks | src/thread.hh:55-63 | any thread gets there from the start by locking twice |
| ThreadSync.StepKeepsQueue | src/thread.hh:145-173 | the queue is what was put and not taken, and the item being taken is its front |
| ThreadSync.GetTakesFront | src/thread.hh:160-166 | a get that nobody comes between takes the front, and nothing else |
| ThreadSync.CheckSees | src/thread.hh:153-158 | a check tells whether the queue has something |
| ThreadSync.SingleConsumerNeverUnderflows | src/thread.hh:153-166 | one consumer that checks first never reads the front of an empty queue |
| IoRegisters.IoRegQuery | src/remote.cc:686-769 | the batched reply is the reply of single reads, and reads back to the registers asked for with their values; only the registers without flags are read, each once and in order |
| IoRegisters.ReplyReads | src/remote.cc:708-765 | taken apart at ',' and ';' the reply gives each register in order with its value, or as one that is not read |
| IoRegisters.CountBatch | src/remote.cc:724-737 | a batch is not empty, has no flags, consecutive addresses, and as many registers as possible |
| IoRegisters.FlaggedAreNotRead | src/remote.cc:686-769 | of registers at different addresses, none with a flag is read |
| IoRegisters.UnflaggedAreRead | src/remote.cc:686-769 | the others are |
| Packets.GetInvertsPut | src/remote.cc:325-425 | a packet is read back as sent, after anything without a '#' and whatever follows |
| Packets.VerdictIsTotal | src/remote.cc:338-381 | a packet is taken iff its two digits are the total of its characters modulo 256 |
| Packets.PacketLayout | src/remote.cc:403-425 | '$', the payload, '#', and that total in two lower-case digits |
| Packets.ReadableIffShort | src/remote.cc:340-360 | a packet is readable iff its payload has fewer than 399 characters |
| Packets.OneChangedCharacterIsNoticed | src/remote.cc:362-381 | one changed character fails the checksum |
| Packets.GdbRemote.GetPacket | src/remote.cc:325-398 | reads the packet the stream holds, stores it with a NUL, acknowledges it, and handles a sequence mark |
| Packets.GdbRemote.PutPacket | src/remote.cc:403-425 | writes the packet once for each character read, until that is the acknowledgement |
| Packets.Transmit | src/remote.cc:325-425 | the text that the caller gets is the payload |
| Hex.BytesOfHexOf | src/utils.cc:118-143 | hex2mem inverts mem2hex |
| Hex.HexOfBytesOf | src/utils.cc:118-143 | mem2hex inverts hex2mem iff the text is whole pairs of lower-case digits |
| Hex.Mem2Hex | src/utils.cc:118-125 | writes the digits and a NUL, and nothing else |
| Hex.Hex2Mem | src/utils.cc:130-143 | writes the bytes, and nothing else |
| Hex.PairOfDigits | src/utils.cc:130-143 | two digits of either case are a byte, the high digit first |
| Hex.HexCharIs | src/utils.cc:60-68 | the digit characters |
| Bytes.U16RoundTrip | src/utils.cc:47-58 | two bytes, low first, give the number back |
| Bytes.U32RoundTrip | src/utils.cc:30-45 | four bytes, low first, give the number back |
| Bytes.LowByteFirst | src/utils.cc:30-45 | the least significant byte comes first |
| Mk1Breakpoints.Jtag1.UpdateBreakpoints | src/jtagbp.cc:150-252 | every breakpoint gets one of Z0, Z1, X, Y, data only X or Y; the emulator holds just the table iff all addresses fit its 16 bits and the places left over held nothing before, and then the target stops on exactly what the table asks for |
| Mk1Breakpoints.UpdateHoldsTable | src/jtagbp.cc:150-252 | that condition: an address that does not fit is lost or cut, a place that nothing is left for is not cleared, and the mode byte is not written without X |
| Mk1Breakpoints.HeldStops | src/jtagbp.cc:184-250 | the target stops exactly on what the breakpoints held ask for: reads, writes, both, or fetches of a word |
| Mk1Breakpoints.XYHoldsRest | src/jtagbp.cc:184-250 | the mode byte and addresses decode to the breakpoints that Z0 and Z1 leave, their addresses cut to 16 bits |
| Mk1Breakpoints.Jtag1.AddBreakpoint | src/jtagbp.cc:68-110 | refused iff four places, or for data two, are taken; else appended |
| Mk1Breakpoints.Jtag1.DeleteBreakpoint | src/jtagbp.cc:113-147 | removes the first entry like that and keeps the others in order |
| Mk1Memory.Jtag1.JtagRead | src/jtagrw.cc:83-159 | exactly the bytes asked for, from odd or even addresses, in both byte orders; none iff there are too many or the read fails |
| Mk1Memory.SwapBytes | src/jtagrw.cc:71-80 | exchanges the bytes of each word in place |
| Mk1Memory.SwappedTwice | src/jtagrw.cc:71-80 | swapping twice changes nothing |
| Mk1Memory.LocationsCover | src/jtagrw.cc:127-136 | the word count covers the range, and no word is read in vain |

## Left out

- BreakpointManager.Jtag2.AddBreakpoint: breakpoints on ranges (a length above 1, masks) are not modelled, and code addresses are required to be even, as gdb's are on AVR; `OddAddressSharesWord` shows why.
- BreakpointManager.Jtag2.UpdateBreakpoints: an exchange that a bad link loses is one that the ICE did not carry out; a command carried out whose reply is lost is not modelled. Which clear and which set are lost are parameters.
- GetoptScanner.Scanner.Run: runs in the orderings RequireOrder and ReturnInOrder, and a caller that moves optind back, are not modelled; nor are the messages, optopt, longind and the flag variables that a call writes.
- GetoptWords.LineIsRead: short options are those of getopt and getopt_long; with long_only an argument behind one hyphen may be a long option, which Scanner.Run covers and the written words do not.
- GetoptScanner.Scanner.DecodeShort: the "W;" extension of option strings is not modelled; AVaRICE's option string has none.
- FrameReceiver.Receiver.RecvFrame: the USB control pipe and the logging are not modelled; a timeout is the end of the stream.
- Link.Host.Recv: frames arrive whole, garbled, broken off or not at all; the rest of a frame that arrives after the timeout is not modelled. A frame that breaks off before its size is one that is garbled here, for recv gives up over it too unless its size so far is positive, which Frames.UnverifiedIffBreaksOff covers.
- Link.RunIsSafe: a command given up early has to have drained. The program gives up early where retryOnTimeout is false, which no caller uses, where an exception is caught, and in jtag2::synchroniseAt (src/jtag2io.cc:427-489), which calls sendJtagCommand itself and goes on at another bit rate with the same number. Link.AbandonedFrameMisleads shows that draining cannot be dropped; what follows from another bit rate is not modelled.
- PageCache.Memory.JtagRead: the branches for memories without pages, memorySpace, and the switch to programming mode are not modelled; what lies behind the cache is not either, so that a read ends when a page is written over the end of it.
- FlashImage.DownloadToTarget: sections beyond the image or the memory are required not to occur; which memories a section at or above the fuse space is loaded to is a parameter, for the program reads an uninitialised variable there.
- ThreadSync.RunIsSafe: single reads and writes of `owner` and `level` are taken to be atomic; wait, signal and ThreadSafeList are not modelled.
- IoRegisters.IoRegQuery: the parsing of the request and the size of the reply buffer are not modelled; that the reply reads back is stated for names without ',' and ';'.
- Packets.GdbRemote.GetPacket: what follows a bad checksum is not modelled, for the messages sent then wait for acknowledgements of their own.
- Packets.Transmit: payloads of fewer than two characters, for which the third character of the buffer is left from an earlier packet.
- Mk1Breakpoints.Jtag1.UpdateBreakpoints: a code address beyond 16 bits in Z0 or Z1 makes the program write to another memory space; here such a write leaves the emulator's places alone.
- Serial, USB and socket input and output, signals and processes: a byte sequence, a device state or a nondeterministic choice stands for them.
- The reading of ELF files and DWARF data, the JavaScript bindings, the console and the device description tables: sections, page sizes, flags and register lists are parameters.
- Reads and writes of fuses and lock bits, and the event loop: straight-line code over the link.
