# Verified models from the TizenRT tree

This project models seven stateful parts of the RTOS in Dafny and proves what they promise over
every input, run or interleaving. Each part that works in place is a class over arrays and fields;
its methods are proved against functions on values, and the theorems are about those functions.

| part | modules |
|---|---|
| SEGGER RTT rings, read and written in all modes, with the debug probe running beside the target | `CyclicRing`, `RttRing`, `RttOverwrite`, `RttConcurrent`, `RttTerminal` |
| SystemView packets, recorder with overflow handling and host commands, printf | `SysviewPacket`, `SysviewBuffer`, `SysviewLog`, `SysviewRecorder`, `SysviewPrintf` |
| Block read-ahead and write buffer | `RwBufferModel`, `RwBuffer` |
| PCM fast forward | `PcmModel`, `PcmDecoder` |
| CAN transmit FIFO | `CanTransmit` |
| TASH command line | `TashModel`, `TashSyntax`, `TashParser` |
| TASH command table | `TashSort`, `TashTable` |

`Words` holds bytes and 32-bit words; wrap-around is written out wherever the C code relies on it.
`dafny verify dfyconfig.toml` checks everything.

What lies outside the modelled code enters as a parameter: clock values, the pace at which the probe
takes bytes, the packets sent by registered callbacks, whether a device call or a CAN send succeeds,
and how a wait on a semaphore ends. All theorems hold for every such parameter.

## Where the code does less than its description

Each of these is proved as an exact condition, with a witness for the failing side.

- The overwriting RTT write keeps the newest bytes only up to its second wrap-around: later rounds
  use one byte less than the buffer (`RttOverwrite.OverwriteExact`).
- Header numbers of SystemView packets survive only below 2^14 (`SysviewPacket.HeaderNumberExact`),
  strings only below 65536 characters (`SysviewPacket.StringRoundTrip`).
- `_PrintUnsigned` and `_PrintInt` are faithful only up to precision 10 or 8: beyond, the 32-bit
  weight wraps (`SysviewPrintf.PrintExact`, `SysviewPrintf.SignedPrint`).
- Events below 24 sent with other fields than the fixed layout of their id cannot be read back
  (`SysviewPacket.KnownExact`).
- `rwb_read` flushes only when the requested range meets dirty blocks, but its reload reads further;
  the cache stays right, whatever the blocks hold, exactly when it flushes or the reloaded window does
  not meet the dirty range (`RwBufferModel.ReadRangeExact`, `RwBufferModel.WitnessRun`).
- A CAN send that the hardware refuses loses the message and a FIFO cell
  (`CanTransmit.CanDevice.RefusedSends`).
- The PCM skip size is an 8-bit field, so "one frame in `rate`" holds only while it fits
  (`PcmModel.OneFrameInRateExact`), and frames stay whole only while the stored value is a multiple
  of the frame size (`PcmModel.FramesExact`, `PcmModel.SixByteFrames`).
- The TASH printer and parser agree only on arguments that do not end in a backslash and on at most
  thirty of them (`TashModel.RoundTripExact`).
- The library `strcmp` returns a `signed char` difference, so the command table is sorted only for
  names whose characters lie within 127 of each other (`TashSort.SortExact`).

## Model

| member | source | states |
|---|---|---|
| RttRing.AvailWriteSpace | external/sysview/SEGGER_RTT.c:438-454 | free space computed with 32-bit wrap-around is capacity minus the unread distance, for every offset pair |
| RttRing.OverwriteAvail | external/sysview/SEGGER_RTT.c:598-604 | the overwrite path's own formula gives the same number |
| RttRing.BlockingChunk | external/sysview/SEGGER_RTT.c:338-345 | one round of the blocking write copies the least of free space, room before the end, and data left |
| RttRing.PlanRead | external/sysview/SEGGER_RTT.c:490-522 | although `WrOff - RdOff` may wrap below zero, the two copies together take min(requested, unread) bytes and the read offset lands that far on, modulo the size |
| RttRing.Ring.constructor | external/sysview/SEGGER_RTT.c:1111-1131 | a configured ring is empty, with the given size and mode |
| RttRing.Ring.WriteNoCheck | external/sysview/SEGGER_RTT.c:378-401 | two copies and one publication append exactly the data to the unread bytes |
| RttRing.Ring.WriteBlocking | external/sysview/SEGGER_RTT.c:327-358 | beside any probe schedule, bytes taken by the probe plus bytes unread are the old content plus the data written so far; it stops short only on a full ring with a silent probe, never when the data fit at the start, and every round in which the probe takes anything lets at least one byte through |
| RttRing.Ring.BlockingRound | external/sysview/SEGGER_RTT.c:337-355 | one round keeps that equation, copies the least of free space, room to the end and data left, and makes no progress only on a full ring with a silent probe |
| RttRing.Ring.WriteNoLock | external/sysview/SEGGER_RTT.c:779-829 | accepts all or nothing in skip mode, min(length, free) in trim mode, nothing in an unknown mode; in block mode everything, unless data that do not fit meet a probe that takes too little; content grows by exactly the accepted prefix |
| RttRing.Ring.WriteSkipNoLock | external/sysview/SEGGER_RTT.c:669-754 | accepts a non-empty write exactly when it fits, appends it across any wrap position, changes nothing otherwise; the inner no-wrap copy at lines 729-731 is unreachable |
| RttRing.SkipPathsAgree | external/sysview/SEGGER_RTT.c:669-829 | on equal rings the fast skip path and the general path in skip mode take the same decision and leave equal cells and offsets |
| RttRing.Ring.ReadNoLock | external/sysview/SEGGER_RTT.c:479-528 | returns the first min(size, unread) bytes in order, leaves the rest, and advances `RdOff` by that many modulo the size |
| RttRing.Ring.WriteWithOverwriteNoLock | external/sysview/SEGGER_RTT.c:585-643 | the in-place code computes the value-level overwrite, whose exact guarantee is OverwriteExact |
| RttRing.Ring.CopyRounds | external/sysview/SEGGER_RTT.c:614-642 | the copy loop with its wrap-arounds is the value-level sequence of rounds |
| RttRing.Ring.DropOldest | external/sysview/SEGGER_RTT.c:605-610 | the subtraction loop that moves `RdOff` past the bytes about to be lost |
| RttOverwrite.OverwriteExact | external/sysview/SEGGER_RTT.c:585-643 | for every ring size, offsets and length: the overwriting write keeps exactly the newest bytes, whatever the bytes, if and only if the length stays below the second wrap-around (2N - 1 - WrOff) |
| RttOverwrite.ShortKeepsNewest | external/sysview/SEGGER_RTT.c:585-643 | every write of 1 to N-1 bytes leaves the last N-1 bytes of old content followed by new data |
| RttOverwrite.LongKeepsNewest | external/sysview/SEGGER_RTT.c:614-642 | longer writes with one wrap-around leave only the newest N-1 bytes |
| RttOverwrite.LastCellStays | external/sysview/SEGGER_RTT.c:632-642 | with a second wrap-around the last cell keeps its byte of the first round, because later rounds use N-1 bytes |
| RttOverwrite.SecondWrapFails | external/sysview/SEGGER_RTT.c:632-642 | from any state and for any length with a second wrap-around there is a write that does not keep the newest bytes |
| RttConcurrent.EveryInterleaving | external/sysview/SEGGER_RTT.c:327-454 | over every interleaving of target byte copies, `WrOff` publications and probe reads: consumed + unread = published, plus in-flight = accepted, in order, and the next byte copied never changes an unread byte |
| RttConcurrent.StepKeeps | external/sysview/SEGGER_RTT.c:327-454 | each of the seven steps keeps the invariant that ties offsets, cells, staged bytes and probe cursor together |
| RttConcurrent.CopyKeeps | external/sysview/SEGGER_RTT.c:347-353 | a byte copied ahead of `WrOff` leaves every unread byte alone |
| RttConcurrent.PublishRdKeeps | external/sysview/SEGGER_RTT.c:479-528 | a probe release only increases the free space the target may see |
| RttConcurrent.StaleRdOffUnderReports | external/sysview/SEGGER_RTT.c:438-454 | whatever runs after the space check, the free space never falls below what the check saw until the target publishes |
| RttConcurrent.UninterruptedCopy | external/sysview/SEGGER_RTT.c:378-401 | left alone, the byte steps amount to the block copy of the sequential methods |
| RttConcurrent.LookExact | external/sysview/SEGGER_RTT.c:327-454 | what the space check decides in plain numbers: skip takes all or nothing, trim what fits, block a first part up to the end of the buffer |
| RttConcurrent.ProbeDrains | external/sysview/SEGGER_RTT.c:479-528 | a probe left alone looks, reads and releases every published byte |
| RttConcurrent.TargetSends | external/sysview/SEGGER_RTT.c:669-754 | a skip-mode write that fits, left alone, publishes all of its data |
| RttTerminal.DemuxRun | external/sysview/SEGGER_RTT.c:1331-1454 | after any run of writes, switches and terminal outputs with payloads free of 0xFF, a host demultiplexer attributes every byte to the intended terminal and ends on the active one |
| RttTerminal.FeedOp | external/sysview/SEGGER_RTT.c:416-422 | one operation's bytes are read as its text on its terminal, and leave the terminal it is meant to leave |
| RttTerminal.Channel.Attribution | external/sysview/SEGGER_RTT.c:1331-1454 | the same for the bytes really taken and still waiting in the ring of channel 0 |
| RttTerminal.Channel.Write | external/sysview/SEGGER_RTT.c:850-865 | a plain write adds its accepted prefix to the record of operations and keeps the active terminal |
| RttTerminal.Channel.SetTerminal | external/sysview/SEGGER_RTT.c:1331-1362 | succeeds exactly for ids below 16 when the mode blocks or two cells are free, and then the stream carries the switch; otherwise -1 and no trace |
| RttTerminal.Channel.TerminalOut | external/sysview/SEGGER_RTT.c:1381-1454 | status and accepted text in each mode; the output is bracketed by switches; only block mode can block, and only without room for all three writes and with a probe that takes too little |
| RttTerminal.Channel.Sandwich | external/sysview/SEGGER_RTT.c:1415-1417 | three blocking writes cannot block when the ring has room for all of them |
| SysviewPacket.NumberRoundTrip | external/sysview/SEGGER_SYSVIEW.c:300-311 | the variable-length number (unsigned LEB128, section 7.6 of the DWARF 5 standard) decodes to itself whatever follows |
| SysviewPacket.NumberLength | external/sysview/SEGGER_SYSVIEW.c:300-311 | a 32-bit value takes at most five bytes |
| SysviewPacket.NumberCanonical | external/sysview/SEGGER_SYSVIEW.c:300-311 | and in the shortest form: every byte but the last is marked, and the last is zero only for the value zero |
| SysviewPacket.StringRoundTrip | external/sysview/SEGGER_SYSVIEW.c:388-420 | a string comes back cut to its limit if and only if the cut length fits the two length bytes |
| SysviewPacket.HeaderNumberExact | external/sysview/SEGGER_SYSVIEW.c:673-689 | a prepended header number survives if and only if it is below 2^14 |
| SysviewPacket.Header | external/sysview/SEGGER_SYSVIEW.c:673-689 | the prepended header never needs more than the four reserved bytes |
| SysviewPacket.FieldsRoundTrip | external/sysview/SEGGER_SYSVIEW.c:300-420 | field lists decode by their layout, whatever follows |
| SysviewPacket.FieldsExact | external/sysview/SEGGER_SYSVIEW.c:300-420 | field lists come back if and only if they match the kinds in number, kind and string limit |
| SysviewPacket.KnownExact | external/sysview/SEGGER_SYSVIEW.c:668-676 | an event below 24, which carries no length, comes back whatever follows if and only if its fields match the fixed layout of its id |
| SysviewPacket.PacketRoundTrip | external/sysview/SEGGER_SYSVIEW.c:673-696 | a packet decodes to its id, fields or payload, and delta; ids below 24 by their fixed layout, others by their length |
| SysviewPacket.StreamRoundTrip | external/sysview/SEGGER_SYSVIEW.c:673-696 | any concatenation of packets decodes to the same packets in order |
| SysviewPacket.UniquelyDecodable | external/sysview/SEGGER_SYSVIEW.c:673-696 | no byte stream has two readings |
| SysviewPacket.ZerosReadAsNops | external/sysview/SEGGER_SYSVIEW.c:1635-1642 | the ten sync bytes read as five empty packets of zero duration |
| SysviewBuffer.PacketBuffer.PutU32 | external/sysview/SEGGER_SYSVIEW.c:300-311 | the encode loop stores the variable-length number at the pointer and changes nothing else |
| SysviewBuffer.PacketBuffer.PutStr | external/sysview/SEGGER_SYSVIEW.c:388-420 | the string loop stores length and characters, cut to the limit |
| SysviewBuffer.PacketBuffer.PutFields | external/sysview/SEGGER_SYSVIEW.c:1292-1390 | the payload of a record function, field after field |
| SysviewBuffer.PacketBuffer.PrependHeader | external/sysview/SEGGER_SYSVIEW.c:673-689 | id, or id and length, written backwards, ends exactly at the payload and stays inside the reserved bytes |
| SysviewBuffer.PacketBuffer.FramePacket | external/sysview/SEGGER_SYSVIEW.c:673-696 | prepending the header and appending the delta in place yields the frame of the payload |
| SysviewLog.HostReads | external/sysview/SEGGER_SYSVIEW.c:663-712 | a host that knows only the start time recovers every stored packet that is well formed and, by adding deltas modulo 2^32, the exact capture time of each |
| SysviewLog.StandardEvents | external/sysview/SEGGER_SYSVIEW.h:102-131 | every event the record functions write, by the number of its id and with its fields, can be read back |
| SysviewLog.LogEncodes | external/sysview/SEGGER_SYSVIEW.c:663-712 | the log's bytes are its packets and its last time is the host's running sum |
| SysviewLog.LogLeft | external/sysview/SEGGER_SYSVIEW.c:641-712 | what one call adds to the stream is the overflow packet it reported, if any, followed by its own packet, if stored, each with its capture time |
| SysviewLog.Accounted | external/sysview/SEGGER_SYSVIEW.c:522-551 | one more call keeps stream, drop reports and failure counts in step with the trace |
| SysviewRecorder.Uplink.HostView | external/sysview/SEGGER_SYSVIEW.c:1238 | in every reachable state whose packets are well formed, bytes taken plus bytes waiting decode to the stored packets and their capture times |
| SysviewRecorder.Uplink.Store | external/sysview/SEGGER_SYSVIEW.c:702-712 | a packet is stored whole exactly if it fits, else not at all, and the time stamp moves only if it was |
| SysviewRecorder.Uplink.StoreSync | external/sysview/SEGGER_SYSVIEW.c:1642 | the sync bytes are logged as packets that take no time, or not stored |
| SysviewRecorder.Recorder.constructor | external/sysview/SEGGER_SYSVIEW.c:1204-1245 | for any ring sizes, recording starts switched off, nothing disabled, with the Init time stamp as the reference |
| SysviewRecorder.Recorder.HostSees | external/sysview/SEGGER_SYSVIEW.c:457-748 | in every reachable state in which the stored events can be read back at all, the host reads exactly the packets of the calls that stored one, in call order; its running clock at each packet is the clock reading that call took; overflow packets report the drops so far modulo 2^32; failed calls = `DropCount` (with its wrap-arounds) + changes from on to dropping |
| SysviewRecorder.Recorder.TrySendOverflowPacket | external/sysview/SEGGER_SYSVIEW.c:522-551 | the overflow packet carries the drop count and leaves the dropping state, always so with eleven bytes free; otherwise the count grows by one; keeps all invariants |
| SysviewRecorder.Recorder.Transmit | external/sysview/SEGGER_SYSVIEW.c:673-712 | the packet of the event with the delta since the last stored one, always so when nine bytes more than the payload are free; otherwise the dropping state and one failure more |
| SysviewRecorder.Recorder.Emit | external/sysview/SEGGER_SYSVIEW.c:641-712 | which of off, still dropping, suppressed, stored, failed happens, from state, mask and free space: an enabled event with room for payload and framing is stored, after an overflow report if one was due; and what each outcome leaves in the log and counters |
| SysviewRecorder.Recorder.Attempt | external/sysview/SEGGER_SYSVIEW.c:641-712 | the call enters the trace with the outcome due in its state and free space, and its clock readings; the trace still accounts for stream and counters |
| SysviewRecorder.Recorder.SendPacket | external/sysview/SEGGER_SYSVIEW.c:624-748 | the outcome is the one due in the state, mask and free space on entry; then one waiting host command is answered, unless this is such an answer; keeps the state in {0,1,2}; counting its own activations it is never more than two deep, and terminates though it handles host commands that send again; the packet is stamped with the first clock reading of the call, or the second after an overflow packet |
| SysviewRecorder.Recorder.Poll | external/sysview/SEGGER_SYSVIEW.c:730-743 | answers exactly one command if there is one and none is being handled, and none otherwise |
| SysviewRecorder.Recorder.Record | external/sysview/SEGGER_SYSVIEW.c:1272-1300 | encode and send any event that fits the packet buffer: it is traced with its outcome and the clock reading it was stamped with; an enabled event is stored whenever the ring has room for it and a due overflow report, a disabled one never is; then one waiting host command is answered |
| SysviewRecorder.Recorder.RecordSystime | external/sysview/SEGGER_SYSVIEW.c:1798-1809 | sends the OS time if there is one, else the cycle count, as read on entry |
| SysviewRecorder.Recorder.SendNumModules | external/sysview/SEGGER_SYSVIEW.c:2515-2523 | sends the number of registered modules |
| SysviewRecorder.Recorder.Start | external/sysview/SEGGER_SYSVIEW.c:1635-1666 | nothing unless off; otherwise puts the ten sync bytes first if they fit and makes, in this order, the calls start, init, system description, time, task list, module count, whatever host commands are answered in between; with none waiting, exactly these, and it ends switched on |
| SysviewRecorder.Recorder.Stop | external/sysview/SEGGER_SYSVIEW.c:1681-1690 | calls one stop event if on, and ends off in any case |
| SysviewRecorder.Recorder.EnableEvents | external/sysview/SEGGER_SYSVIEW.c:2769-2771 | of the 32 event ids the mask covers, exactly those set in it are recorded again and no other changes; ids from 32 on are never suppressed |
| SysviewRecorder.Recorder.DisableEvents | external/sysview/SEGGER_SYSVIEW.c:2783-2785 | exactly the ids below 32 set in the mask join the suppressed ones |
| SysviewLog.ClearMaskEnables | external/sysview/SEGGER_SYSVIEW.c:2769-2771 | bit arithmetic: clearing a mask unsets the test `DisabledEvents & (1u << id)` for exactly the ids of the mask |
| SysviewLog.SetMaskDisables | external/sysview/SEGGER_SYSVIEW.c:2783-2785 | and setting it sets the test for exactly those ids |
| SysviewLog.BitDoubles | external/sysview/SEGGER_SYSVIEW.c:664 | the test bits of consecutive ids are consecutive powers of two |
| SysviewRecorder.Recorder.HandleIncomingPacket | external/sysview/SEGGER_SYSVIEW.c:457-498 | consumes one byte, or two from command 128 on, and makes exactly the calls that answer the command |
| SysviewRecorder.Recorder.Answer | external/sysview/SEGGER_SYSVIEW.c:463-485 | the answers to the seven commands without parameter |
| SysviewPrintf.PrintExact | external/sysview/SEGGER_SYSVIEW.c:864-937 | for every value, width and flags: the text has length max(width, precision, digits), is padded as asked, and its digit area holds nothing but digits of the base that read as the value, if and only if the precision is at most 10 (decimal) or 8 (hexadecimal) |
| SysviewPrintf.TopWeightIsPower | external/sysview/SEGGER_SYSVIEW.c:906-916 | the weight search stops at the larger of the digit and precision exponents, without 32-bit overflow |
| SysviewPrintf.EmitReads | external/sysview/SEGGER_SYSVIEW.c:920-925 | the digit loop writes the right number of characters, all digits of the base, and they parse back to the value |
| SysviewPrintf.EmitLength | external/sysview/SEGGER_SYSVIEW.c:920-925 | whatever the weight, one digit leaves per digit of the weight |
| SysviewPrintf.SignedPrint | external/sysview/SEGGER_SYSVIEW.c:955-1013 | signed text is spaces, sign, digits of the base that read as the magnitude, spaces, as wide as field or number, if and only if the precision is within the same limit |
| SysviewPrintf.SignedReads | external/sysview/SEGGER_SYSVIEW.c:955-1013 | within that limit a reader that skips blanks, takes an optional sign and then digits gets the value back from every signed print; a minus stands exactly before negative values, a plus exactly before others when asked for |
| SysviewPrintf.WidthFits | external/sysview/SEGGER_SYSVIEW.c:877-881 | a 32-bit value has at most ten decimal and eight hexadecimal digits |
| SysviewPrintf.PrintfDesc.StoreChar | external/sysview/SEGGER_SYSVIEW.c:822-846 | characters sent in packets followed by those held are all characters stored; a packet leaves exactly at every 128th character |
| SysviewPrintf.PrintfDesc.Flush | external/sysview/SEGGER_SYSVIEW.c:1159-1164 | the held characters leave as one last packet, none if there are none; then the packets alone carry the whole text |
| SysviewPrintf.PrintfDesc.PutUnsigned | external/sysview/SEGGER_SYSVIEW.c:864-937 | the in-place printing loops store exactly the value-level text, and fail exactly where the weight wraps to zero or a digit exceeds the table |
| SysviewPrintf.PrintfDesc.PutInt | external/sysview/SEGGER_SYSVIEW.c:955-1013 | the same for signed printing |
| SysviewPrintf.PrintfDesc.PutMargins | external/sysview/SEGGER_SYSVIEW.c:976-1008 | spaces, sign and zeros in front of the digits, and the width passed on |
| SysviewPrintf.PrintfDesc.FindWeight | external/sysview/SEGGER_SYSVIEW.c:906-916 | the weight loop terminates and finds the value-level weight, or zero |
| RwBufferModel.EveryRun | os/drivers/rwbuffer.c:133-874 | in every run of reads, writes and timeout flushes on a working device in which no reload window is stale: flushed blocks followed by buffered ones are the blocks written, once each and in order; flushing gives the unbuffered disk; and every read inside the device returns the last value written to each block |
| RwBufferModel.ReadReads | os/drivers/rwbuffer.c:720-808 | from a coherent state a read returns what callers wrote, up to the end of the device, and its refill loop terminates |
| RwBufferModel.ReadRangeExact | os/drivers/rwbuffer.c:343-388 | for any device size, dirty range, cached range and request: every coherent state with these bounds is coherent after the read, whatever the blocks hold, if and only if the request overlaps or touches the dirty range or the last window it loads does not meet it |
| RwBufferModel.ReadFlushExact | os/drivers/rwbuffer.c:734-745 | a read flushes exactly when dirty range and request overlap or touch, in plain block numbers |
| RwBufferModel.WriteDropsExact | os/drivers/rwbuffer.c:814-874 | a write empties the read-ahead buffer exactly when the two ranges overlap or touch, and otherwise leaves it alone |
| RwBufferModel.WriteSendsExact | os/drivers/rwbuffer.c:246-289 | nothing goes to the device while blocks follow the buffered ones and fit; otherwise the buffered blocks go first, and blocks too many for the buffer go after them |
| RwBufferModel.ReadAheadExact | os/drivers/rwbuffer.c:343-388 | after a read that had to load, the read-ahead buffer is as full as size and device end allow and reaches the end of the request; nothing is loaded exactly if the cached blocks cover all of the request that lies on the device |
| RwBufferModel.UnsafeReadBreaks | os/drivers/rwbuffer.c:343-388 | for every other combination of bounds there is a state, good up to then, that the read leaves with a wrong cached block |
| RwBufferModel.ClearWindowIsFresh | os/drivers/rwbuffer.c:343-388 | a window clear of dirty blocks is never stale |
| RwBufferModel.StaleBlockIsReturned | os/drivers/rwbuffer.c:734-774 | once a cached block is wrong, reading it returns the wrong data even though the read flushes first |
| RwBufferModel.WitnessRun | os/drivers/rwbuffer.c:720-874 | write block 2, read block 0, read block 2: the last read returns the old data |
| RwBufferModel.WriteKeeps | os/drivers/rwbuffer.c:814-874 | a write changes the believed disk exactly at its blocks, keeps accounts and coherence |
| RwBufferModel.WriteBufferKeeps | os/drivers/rwbuffer.c:246-289 | buffering, with its flush on a gap or a full buffer, loses and reorders nothing |
| RwBufferModel.FlushKeeps | os/drivers/rwbuffer.c:172-194 | a flush moves the buffered blocks to the device and leaves the believed disk alone |
| RwBufferModel.FlushForReadKeeps | os/drivers/rwbuffer.c:734-745 | after the flush test of a read no dirty block is left in the requested range |
| RwBufferModel.ReadLoopLoads | os/drivers/rwbuffer.c:752-795 | what the refill loop leaves in the read-ahead buffer is the window given by a closed rule |
| RwBuffer.RwBuffers.constructor | os/drivers/rwbuffer.c:609-688 | initialisation leaves both buffers empty |
| RwBuffer.RwBuffers.WrFlush | os/drivers/rwbuffer.c:172-194 | the in-place flush is the value-level flush if its one device call succeeds; if not, the buffered blocks are gone and nothing else changes |
| RwBuffer.RwBuffers.BufferBlocks | os/drivers/rwbuffer.c:246-289 | the in-place buffering is the value-level one; if the device refuses the flush it needs, it reports the error and changes nothing |
| RwBuffer.RwBuffers.FlushOnMiss | os/drivers/rwbuffer.c:254-270 | blocks that do not follow or do not fit cause one flush first; if the device refuses it nothing is lost |
| RwBuffer.RwBuffers.WriteTo | os/drivers/rwbuffer.c:814-874 | the whole write refines the value-level write when no device call fails; a refused flush leaves a buffered write undone; a write past the buffer loses what was buffered if its flush is refused, and still goes to the device |
| RwBuffer.RwBuffers.RhReload | os/drivers/rwbuffer.c:343-388 | reload reads up to the buffer size or the end of the device; past the end it reports -ESPIPE and changes nothing; exactly on a device error it reports -EIO and leaves the buffer empty |
| RwBuffer.RwBuffers.ReadFrom | os/drivers/rwbuffer.c:720-808 | the whole read refines the value-level read, flush test included (ReadFlushExact, ReadRangeExact): data, end-of-device error and new state; after a failed reload the blocks delivered so far are right, the error is reported and the read-ahead buffer is empty; exactly after a refused flush it reads on without the lost blocks |
| RwBuffer.RwBuffers.RefillLoop | os/drivers/rwbuffer.c:752-795 | the loop terminates, with a failing device too, and delivers the value-level blocks, or a prefix of them up to a failed reload |
| RwBuffer.RwBuffers.BufferRead | os/drivers/rwbuffer.c:311-335 | supplies exactly the cached blocks from the requested one on |
| RwBuffer.RwBuffers.WorkingDevice | os/drivers/rwbuffer.c:172-194 | failures are counted from the device's answers alone, so on a device that accepts every call there are none and all of the above refine the value model |
| PcmModel.WholeStream | os/audio/pcm_decode.c:487-625 | for any frame size, any rate and any split of any stream, the concatenated outputs are the bytes at positions p with p mod period < align |
| PcmModel.AnySplit | os/audio/pcm_decode.c:487-625 | how the stream is cut into buffers does not matter, from any phase |
| PcmModel.FixedRate | os/audio/pcm_decode.c:517-619 | the same selection rule from any position of the stream |
| PcmModel.OneFrameInRateExact | os/audio/pcm_decode.c:418-473 | one frame in `rate` frames is kept on every stream if and only if align*(rate-1) fits the 8-bit skip field |
| PcmModel.FramesThroughRateChanges | os/audio/pcm_decode.c:418-619 | through any changes between rates whose stored gap is a multiple of the frame size, and any buffers, the output is whole input frames at multiples of the frame size, in order, possibly followed by the start of one more |
| PcmModel.FramesExact | os/audio/pcm_decode.c:418-619 | for every frame size and set of rates: whole aligned frames on every run over these rates if and only if each rate's gap, align*(rate-1) modulo 256, is a multiple of align |
| PcmModel.UnalignedSkipFails | os/audio/pcm_decode.c:517-619 | for every other frame size and rate a stream is given whose second output frame is not a frame of the input |
| PcmModel.SixByteFrames | os/audio/pcm_decode.c:517 | six bytes per frame at rate 50 is such a case: the gap 294 is stored as 38 |
| PcmModel.UsualFormats | os/audio/pcm_decode.c:385-399 | one or two channels of 8 or 16 bits meet the condition at every rate |
| PcmModel.FittingSkip | os/audio/pcm_decode.c:517 | and so does every gap that fits its 8-bit field |
| PcmModel.TrackByte | os/audio/pcm_decode.c:517-619 | one byte at such a rate keeps that description |
| PcmDecoder.Decoder.Configure | os/audio/pcm_decode.c:418-473 | starting and stopping reset the phase, a change of rate keeps it |
| PcmDecoder.Decoder.Subsample | os/audio/pcm_decode.c:487-625 | the in-place compaction leaves exactly the selected bytes of this buffer and carries the phase over |
| PcmDecoder.Decoder.CopyDown | os/audio/pcm_decode.c:606-610 | the destination never passes the source, so no byte is read after it was overwritten |
| PcmDecoder.Decoder.FinishFrame | os/audio/pcm_decode.c:519-566 | completes the frame left over from the previous buffer |
| PcmDecoder.Decoder.Compact | os/audio/pcm_decode.c:568-619 | the main loop selects from the rest of the buffer |
| PcmDecoder.Decoder.EnqueueStreaming | os/audio/pcm_decode.c:992-1014 | a streamed buffer is subsampled, and the final one ends the stream |
| CanTransmit.CanDevice.InWriteOrder | os/drivers/can.c:369-545 | with all sends successful the hardware has been given the written messages no longer waiting: once each, in write order |
| CanTransmit.CanDevice.RefusedSends | os/drivers/can.c:396-417 | a refused send loses its message and keeps its FIFO cell: between head and queue lie the messages in the hardware and one cell per refusal; nothing offered is missing if and only if no send was refused |
| CanTransmit.CanDevice.Xmit | os/drivers/can.c:369-423 | sends until nothing waits or the hardware refuses, keeping head, queue, tail in cyclic order even when a send completes inside the call; returns -EIO exactly on an empty FIFO and -EBUSY when nothing could be sent; the three debug assertions hold |
| CanTransmit.CanDevice.SendNext | os/drivers/can.c:401-416 | `queue` advances before the send, so a completion from inside the send finds the ring consistent |
| CanTransmit.CanDevice.Send | os/drivers/can.c:410-416 | a send that reports completions from inside keeps the invariant and only moves forward; the completions it reports are counted, and a refused message is lost |
| CanTransmit.CanDevice.TxDone | os/drivers/can.c:795-828 | one completion frees one message and restarts sending; -ENOENT exactly on an empty FIFO |
| CanTransmit.CanDevice.WriteMsgs | os/drivers/can.c:429-545 | appends a prefix of the messages and tells how many: all when they fit or it blocks to the end, without blocking exactly as many as there is room for, blocking at least as many and only after a wait; when the last answer of `dev_txempty` was that the hardware is idle, then after a full write, and also when a wait fails or never ends, nothing waits or the hardware has refused since that answer; it fails only if a wait fails |
| CanTransmit.CanDevice.MakeRoom | os/drivers/can.c:472-511 | returns with space behind `tail` and a fresh answer of `dev_txempty`, or with the reason why not; a wait that fails or never ends on idle hardware had everything offered to it first, so nothing waits or the hardware has refused since; a non-blocking call on a full FIFO changes nothing |
| CanTransmit.CanDevice.Append | os/drivers/can.c:513-527 | one message more at the end of the waiting ones |
| CanTransmit.CanDevice.WaitForSpace | os/drivers/can.c:496-507 | signals are waited out; the first other end of a wait decides, and the completions that arrive meanwhile are counted |
| TashModel.RoundTripExact | apps/shell/tash_main.c:293-419 | printing a list of commands and running the line executes exactly that list if and only if every command has 1 to 30 arguments and none ends in a backslash |
| TashModel.Parse | apps/shell/tash_main.c:302-397 | a command followed by another leaves strictly less text, so the line terminates |
| TashModel.ReadEscaped | apps/shell/tash_main.c:343-358 | escaped text inside quotes extends the argument by the text itself |
| TashModel.ReadArgs | apps/shell/tash_main.c:302-397 | printed arguments are read back one by one, whatever ends the command |
| TashModel.BackslashBreaks | apps/shell/tash_main.c:343-358 | a final backslash swallows the closing quote: the command is void or has different arguments |
| TashModel.TooManyBreaks | apps/shell/tash_main.c:302-405 | a thirty-first quoted argument voids the command |
| TashModel.Stable | apps/shell/tash_main.c:302-397 | later text never removes what an argument already holds, up to a final backslash |
| TashModel.NoEmptyCommand | apps/shell/tash_main.c:413-415 | only commands with arguments are executed |
| TashParser.Tokenizer.RemoveChar | apps/shell/tash_main.c:61-76 | the text behind a character moves down over it, NUL included |
| TashParser.Tokenizer.Step | apps/shell/tash_main.c:302-397 | one round in place keeps earlier arguments intact, shortens the text ahead even when the pointer steps back, and preserves what the rest of the command means |
| TashParser.Tokenizer.ParseCommand | apps/shell/tash_main.c:302-411 | the in-place loop leaves in `argv` the strings of the value-level parse |
| TashParser.Tokenizer.Arguments | apps/shell/tash_main.c:399-415 | the C strings that `argv` points to are the parsed arguments |
| TashParser.Tokenizer.ExecuteCmdline | apps/shell/tash_main.c:293-419 | the whole line executes, in order, the commands of the value-level definition, whose meaning is pinned by RoundTripExact and LineExecutes, and terminates |
| TashParser.RunPrinted | apps/shell/tash_main.c:293-419 | the round trip, with its exact condition, for the in-place code |
| TashSyntax.LineExecutes | apps/shell/tash_main.c:293-419 | any typed line of words from bare and quoted stretches, with any spacing, commands ended by newline or semicolon, empty commands and a trailing comment, executes exactly its commands with quotes and escapes taken away |
| TashSyntax.LastWordTakesRest | apps/shell/tash_main.c:302-405 | a thirty-first word, if bare, takes the rest of the line |
| TashParser.RunTyped | apps/shell/tash_main.c:293-419 | the in-place code does the same for any typed line |
| TashSort.StrncmpZero | apps/shell/tash_command.c:226 | names match in the table exactly when their first fifteen characters agree |
| TashSort.StrcmpExact | lib/libc/string/lib_strcmp.c:66-75 | `strcmp` reports the dictionary order of two names if and only if the deciding character difference fits its `signed char` result |
| TashSort.SortPermutes | apps/shell/tash_command.c:117-138 | the gap sort permutes the table |
| TashSort.PassOrders | apps/shell/tash_command.c:129-136 | after a pass, entries one gap apart are in order |
| TashSort.SortExact | apps/shell/tash_command.c:117-138 | the sort puts every table over a set of names in dictionary order if and only if any two of them differ first by at most 127, as 7-bit names do |
| TashSort.FarApart | apps/shell/tash_command.c:117-138 | two names further apart, in order before the sort, come out reversed |
| TashTable.SortRepresents | apps/shell/tash_command.c:117-138 | sorting changes neither which names are bound nor to what, and no two entries share a key |
| TashTable.InstallRepresents | apps/shell/tash_command.c:294-303 | appending an entry under a new key binds exactly that key |
| TashTable.FirstInstallStays | apps/shell/tash_command.c:271-307 | whatever follows, a name keeps the command of its first successful install |
| TashTable.CommandTable.InsertAt | apps/shell/tash_command.c:130-135 | the inner loop in place is the value-level insertion |
| TashTable.CommandTable.SortCmds | apps/shell/tash_command.c:117-138 | the three nested loops in place are the value-level sort |
| TashTable.CommandTable.ListNames | apps/shell/tash_command.c:143-164 | lists every installed name once, in order for close names, and permutes the table only |
| TashTable.CommandTable.Find | apps/shell/tash_command.c:225-227 | finds the entry with the same first fifteen characters, or reports that no such name is installed |
| TashTable.CommandTable.InstallCmd | apps/shell/tash_command.c:271-307 | -1 on a full table, -2 on a known key, else the entry is added and the table marked unsorted |
| TashTable.CommandTable.ExecuteCmd | apps/shell/tash_command.c:217-254 | a name selects, by its first fifteen characters, the command its install history says: called for type 0, launched for type 1, rejected for any other type, or unknown |
| TashTable.Perform | apps/shell/tash_command.c:117-307 | after any run of installs and listings from an empty table every name selects what the history alone determines |

## Left out

- Interrupt locks, mutexes and semaphores: each record call, driver call and shell command is one atomic step; only the RTT target and probe interleave.
- RttTerminal.Channel.TerminalOut: models `char` as unsigned, as on ARM; with a signed `char` the guard at line 1391 of SEGGER_RTT.c lets terminal ids from 128 on through.
- RTT: overwriting writes of length zero and rings of one cell (the byte loop and the wrap loop assume more), channel allocation, naming and key input.
- RttRing.Ring.WriteSkipNoLock: requires a non-empty write, because its byte loop runs at least once.
- RttRing.Ring.WriteWithOverwriteNoLock: requires a non-empty write and that ring and data together stay below 2^32 bytes, as they do in one address space.
- SystemView: the post-mortem mode and the packet buffer on the stack (the shipped configuration has neither), shrinking of ids, cycle counters narrower than 32 bits, format-string scanning of `_VPrintTarget` and formatting on the host.
- SysviewPrintf.PrintfDesc.PutInt: does not cover the most negative integer, whose negation overflows in C.
- SysviewRecorder.Recorder.Record: requires that the encoded event fits the packet buffer, whose size the record functions choose for the longest event.
- SysviewRecorder.Recorder.HostSees: speaks of runs whose stored events the host can read back; `SysviewPacket.KnownExact` and `SysviewPacket.HeaderNumberExact` say exactly which events those are, and the public record functions accept others.
- rwbuffer: `rwb_invalidate_writebuffer`, `rwb_invalidate_readahead` and media removal; contents of a block are one opaque value; the device handle passed at line 264 and the conditional `else` before the last return of read and write are modelled by their evident intent.
- RwBuffer.RwBuffers.BufferBlocks: requires that the blocks lie on the device, as its only caller does here.
- RwBuffer.RwBuffers.WriteTo: requires that the blocks lie on the device, since the buffer itself never checks the range of a write.
- PCM: WAV header parsing, endian conversion and the forwarding of buffers to the lower half.
- PcmDecoder.Decoder.constructor: requires a frame size of at least one byte; the header check admits zero, with which the copy loop makes no progress on a non-empty buffer and never ends.
- CAN: the receive FIFO, remote requests, open and close counts, truncated messages in the user's buffer.
- CanTransmit.CanDevice.TxDone: requires a message in the hardware or an empty FIFO, that is, completions never outnumber sends.
- TASH: reading and echoing the console, scripts, task creation, and the return value of a line, which is that of the last command.
- TashParser.Tokenizer.ExecuteCmdline: requires one NUL at the end of the line, as a C string has.
- TashTable.CommandTable.ExecuteCmd: the table may not change between the lookup and the call, although the code releases its mutex in between.
- TashSort.StrcmpExact: models the C version of `strcmp` with unsigned `char`; an architecture may supply its own.
- Other drivers (`audio.c`, `pwm.c`, `rtc.c`, `timer.c`, `watchdog.c`, `loop.c`, `boardctl.c`): registration and dispatch to lower halves.
- Headers, C++ runtime stubs and `s5jchksum.py`: declarations and file I/O.
