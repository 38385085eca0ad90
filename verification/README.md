# A verified model of ASCII-Serial-Com

This project models the ASCII-Serial-Com library in Dafny and proves what its layers promise, from the
ring buffer to registers accessed over the wire. Verify it with `dafny verify dfyconfig.toml`.

| file | models |
|---|---|
| `AscException.dfy` | the error codes (`asc_exception.h`), and results for calls that may throw |
| `Mask.dfy`, `Sequences.dfy`, `Resync.dfy`, `CircularBuffers.dfy` | the power-of-two ring buffer (`circular_buffer.c`) |
| `Crc.dfy`, `CrcTables.dfy`, `CrcImplementations.dfy`, `CrcDetection.dfy` | the four CRC-16/DNP implementations |
| `Hex.dfy`, `Frames.dfy`, `Encoding.dfy`, `SerialCom.dfy` | encoder and decoder (`ascii_serial_com.c`) |
| `Streams.dfy`, `Runs.dfy` | whole runs of the decoder and of the rings |
| `Registers.dfy` | masked registers behind pointers (`ascii_serial_com_register_pointers.c`) |
| `Device.dfy`, `Serving.dfy` | the device (`ascii_serial_com_device.c`) and its polling loop (`asc_helpers.h`) |
| `Timer.dfy` | the millisecond timer (`millisec_timer.c`) |
| `Literals.dfy` | frames and conversations of the unit tests, byte for byte |

## How it is built

Objects that the source updates in place are classes: `CircularBuffer`, a window of an array that two rings
share; `AsciiSerialCom` with its two rings; `MessageSlot`, the five variables a message is decoded into;
`RegisterPointers`; `AsciiSerialComDevice`; `MillisecTimer`. Each method is proved against a function of its
inputs and the old state (`Receive`, `Put`, `Handle`, `DeviceStep`, ...), and the properties are lemmas about
those functions: exact outcome tables, acceptance if and only if, round trips, and whole runs. What reaches the
wire or a register is also stated in bytes, numbers and bits, without those functions (`WireFormat`,
`ErrorReplyBytes`, `RefusalExact`, `ReadExact`, `WriteExact`, `ReceiveRead`, ..., `Literals.dfy`).

A throw is a result value, with the state left as it was at the throw. Bytes, checksums and registers are
bit-vectors; indices and sizes are unbounded naturals, with the `size_t` subtraction of `get_blocks` and the
32-bit clock written out modulo their width. Registers are four bytes wide, as on every target but the AVR.

Long methods of the source are split: `PutMessage` calls `PushHead` (`PushHeader`, `PushData`) and `PushTail`;
`GetMessage` calls `GetResynchronised`, `GetFrame` and `PopFrame` (`PopHeader`, `PopData`, `PopChecksum`);
`HandleMessage` calls `AccessRegister`; `DeviceReceive` calls `HandleStored`.

## Where the code and its promises disagree

- `remove_front_unfinished_frames` is documented to return the number of elements removed. An empty line is
  popped but not counted (`circular_buffer.c:401-405`): `ReportedExact` says for which buffers the promise is
  kept, `ReportedExample` gives one for which it is not.
- A call of the decoder on a complete line does not always consume it (`ascii_serial_com.c:188-199`):
  `ProgressExact` says exactly when it does, `StuckExample` gives a line that stays and `StuckShape` that none is
  shorter. `Recovery` bounds the damage: 62 bytes without a line end push any such line out.
- The length check of a register write asks for `5 + REGWIDTHBYTES` bytes while `5 + 2 * REGWIDTHBYTES` are
  parsed (`ascii_serial_com_register_pointers.c:66`): `DecidedExact` says exactly for which requests the missing
  digits are taken from an earlier message, and `ShortWriteExample` shows it in frames. The other wire properties
  are about values with all eight digits.
- `get_blocks` computes a wrong first block when the slice starts beyond the end of the array
  (`circular_buffer.c:435-440`): `GetBlocks` says exactly when the blocks are right. On the input side they
  always are. Encoding carries the condition as the precondition `Reaches` (`WithinReach`), which `HeadBlocks`
  shows to be exactly what put_message needs; for messages that a frame can carry `SendableWithin` reduces it to:
  a message that fits finds `iStart + size <= 64`. `OutOfReach` builds an object that violates it, and `FourReads`
  shows four ordinary requests that do so in the polling loop. `ConversationServed` says what keeps it.
- The decoder's comment promises two errors (`ascii_serial_com.h:126`); `DecoderBounds` has three;
  `ChecksumProblemExact` says exactly when the third is thrown, `ChecksumProblemExample` gives a buffer.

## Model

| member | source | states |
|---|---|---|
| `Mask.PowerOfTwoTestExact` | circular_buffer.c:19 | the bit test `x != 0 && (x & (~x + 1)) == x`, in arithmetic of any width, holds exactly of the powers of two |
| `Mask.IsPow2Exact` | circular_buffer.c:19 | the recursive predicate used for capacities is: some power `2^k` equals the number |
| `Mask.MaskIsModulus` | circular_buffer.c:21-43 | masking with a power of two less one is the remainder modulo that power |
| `CircularBuffers.CircularBuffer.Init` | circular_buffer.c:45-58 | throws and changes nothing unless the capacity is a power of two; else an empty valid ring, its window filled with `@`, the rest of the array untouched |
| `CircularBuffers.CircularBuffer.IncStart` | circular_buffer.c:21-23 | the front index moves on by one, around the end |
| `CircularBuffers.CircularBuffer.IncStop` | circular_buffer.c:25-27 | the back index moves on by one, around the end |
| `CircularBuffers.CircularBuffer.DecStart` | circular_buffer.c:29-35 | the front index moves back by one, around the end |
| `CircularBuffers.CircularBuffer.DecStop` | circular_buffer.c:37-43 | the back index moves back by one, around the end |
| `CircularBuffers.CircularBuffer.StopIsModulus` | circular_buffer.c:148-157 | in every valid ring the back index is (front + size) mod capacity |
| `CircularBuffers.CircularBuffer.GetElement` | circular_buffer.c:126-135 | the element of the logical contents, or an out-of-bounds throw |
| `CircularBuffers.CircularBuffer.PushFront` | circular_buffer.c:137-146 | adds at the front of the contents; a full ring loses its back; the rest of the shared array is unchanged |
| `CircularBuffers.CircularBuffer.PushBack` | circular_buffer.c:148-157 | adds at the back of the contents; a full ring loses its front; the rest of the shared array is unchanged |
| `CircularBuffers.CircularBuffer.PopFront` | circular_buffer.c:159-167 | removes and returns the first element; on an empty ring throws and changes nothing |
| `CircularBuffers.CircularBuffer.PopBack` | circular_buffer.c:169-177 | removes and returns the last element; on an empty ring throws and changes nothing |
| `CircularBuffers.CircularBuffer.RemoveFrontTo` | circular_buffer.c:179-193 | drops everything before the first occurrence, and the occurrence itself when inclusive; drops all when there is none |
| `CircularBuffers.CircularBuffer.RemoveBackTo` | circular_buffer.c:195-210 | drops everything after the last occurrence, and the occurrence itself when inclusive; drops all when there is none |
| `CircularBuffers.CircularBuffer.FindFirstElement` | circular_buffer.c:212-222 | index of the first occurrence in the contents, or the size |
| `CircularBuffers.CircularBuffer.FindLastElement` | circular_buffer.c:224-235 | index of the last occurrence in the contents, or the size |
| `CircularBuffers.CircularBuffer.CountElement` | circular_buffer.c:237-247 | counts the occurrences in the contents |
| `Sequences.CountIsMultiplicity` | circular_buffer.c:237-247 | the count is the multiplicity of the value in the multiset of the contents |
| `CircularBuffers.CircularBuffer.GetFirstBlock` | circular_buffer.c:249-258 | the block of the array is a prefix of the contents inside the ring: all of them, or up to the end of the array |
| `CircularBuffers.CircularBuffer.DeleteFirstBlock` | circular_buffer.c:260-275 | removes exactly that prefix |
| `CircularBuffers.CircularBuffer.PushBackBlock` | circular_buffer.c:277-283 | the contents become the last `capacity` elements of the old contents followed by the block |
| `CircularBuffers.CircularBuffer.PopFrontBlock` | circular_buffer.c:285-307 | moves a prefix into the destination, changes nothing beyond it, and keeps the remaining contents |
| `CircularBuffers.CircularBuffer.Clear` | circular_buffer.c:364-368 | empties the ring |
| `CircularBuffers.CircularBuffer.GetBlocks` | circular_buffer.c:428-448 | throws out of bounds exactly when the slice exceeds the size; otherwise the blocks spell out the slice if and only if ring front + slice start is at most the capacity |
| `Runs.Apply` | circular_buffer.c:126-426 | each of fifteen operations gives the result, and leaves the contents, that the operation on sequences gives |
| `Runs.ApplyAll` | circular_buffer.c:19-426 | for every power-of-two capacity and every sequence of operations, results and contents are those of a run on sequences no longer than the capacity; the index invariant and the rest of the array survive |
| `Resync.CleanIsFront` | circular_buffer.c:385-426 | for every buffer, what remains is the suffix from the first complete frame, else from an unfinished frame, else nothing: no complete frame is lost and nothing precedes the first; with one marker for both ends, nothing remains |
| `Resync.FrontUnique` | circular_buffer.c:385-426 | that position is unique, so the property determines the result |
| `Resync.CleanShape` | circular_buffer.c:385-426 | the result is empty or starts with a start marker, with no other before its first end marker |
| `Resync.CleanIdempotent` | circular_buffer.c:385-426 | resynchronising twice is resynchronising once |
| `Resync.CleanFixed` | circular_buffer.c:385-426 | a buffer that already is at a frame is not changed |
| `Resync.ReportedCount` | circular_buffer.c:385-426 | the returned count is the number of removed elements less the number of removed empty lines |
| `Resync.ReportedExact` | circular_buffer.h:379-389 | the documented count (elements removed) is returned if and only if a complete frame starts before every empty line of the buffer |
| `Resync.ReportedExample` | circular_buffer.c:401-405 | a concrete buffer on which the returned count is wrong |
| `CircularBuffers.CircularBuffer.RemoveFrontUnfinishedFrames` | circular_buffer.c:385-426 | the recursive, popping code terminates and leaves exactly the specified contents and count |
| `Crc.RunAppend` | crc_16_dnp_tbl4bit.c:27-41 | updating over two blocks is updating over their concatenation, for every form of the step |
| `Crc.DownLinear` | crc_16_dnp_bbf.c:41-55 | any number of register shifts is linear over GF(2) |
| `Crc.MirrorExchanges` | crc_16_dnp_bbf.c:21-32 | bit k of the reflection of a word is its bit 15 - k |
| `Crc.MirrorTwice` | crc_16_dnp_bbf.c:21-32 | reflecting twice gives the word back |
| `Crc.DirectIsReflected` | crc_16_dnp_tbl4bit.c:27-41 | for every bit string the register of the direct form is the reflection of the register of the reflected form |
| `Crc.AugmentedIsDirect` | crc_16_dnp_bbb.c:37-71 | for every bit string the augmented register followed by sixteen zero bits is the direct register |
| `Crc.FormsAgree` | crc_16_dnp_bbf.h:99-101 | reflected and inverted, the direct and the augmented form give the checksum of the reflected one, for every message |
| `CrcTables.FoldIsDown` | crc_16_dnp_tbl4bit.c:27-41 | up to sixteen message bits can be added to the register at once before it is shifted |
| `CrcTables.NibbleEntry` | crc_16_dnp_tbl4bit.c:23-25 | every entry of the 16-entry table is four steps of the shift register |
| `CrcImplementations.ByteEntry` | crc_16_dnp_crcmod.c:9-42 | every entry of the 256-entry table is eight steps of the shift register |
| `CrcImplementations.NibbleStepExact` | crc_16_dnp_tbl4bit.c:33-39 | two look-ups in the 16-entry table are eight bit steps |
| `CrcImplementations.ByteStepExact` | crc_16_dnp_crcmod.c:45-49 | one look-up in the 256-entry table is eight bit steps |
| `CrcImplementations.Tbl4bitUpdate` | crc_16_dnp_tbl4bit.c:27-41 | the loop over a block is the reflected bit-by-bit register run over its bytes |
| `CrcImplementations.CrcmodCompute` | crc_16_dnp_crcmod.c:8-52 | the loop, with its inversions, is the reflected register run over the bytes |
| `CrcImplementations.Reflect` | crc_16_dnp_bbf.c:21-32 | the loop computes the bits of the word, up to the length given, in opposite order |
| `CrcImplementations.BbfUpdate` | crc_16_dnp_bbf.c:34-56 | the nested loops are the direct register run over the bytes |
| `CrcImplementations.BbfFinalize` | crc_16_dnp_bbf.h:99-101 | reflects the register and inverts it |
| `CrcImplementations.BbbUpdate` | crc_16_dnp_bbb.c:37-56 | the nested loops, with a reflected byte, are the augmented register run over the bytes |
| `CrcImplementations.BbbFinalize` | crc_16_dnp_bbb.c:58-71 | sixteen zero bits, the reflection and the inversion |
| `CrcImplementations.AllAgree` | ascii_serial_com.c:204-215 | on every block of bytes the four implementations, each with its own initial value and finish, return one and the same 16-bit checksum |
| `CrcDetection.FoldInjective` | crc_16_dnp_tbl4bit.c:27-41 | registers that differ stay different while the same bits follow |
| `CrcDetection.WindowInjective` | crc_16_dnp_tbl4bit.c:27-41 | different windows of up to sixteen bits leave different registers |
| `CrcDetection.BurstDetected` | crc_16_dnp_bbf.c:41-55 | two different messages of one length, of any length, that agree outside sixteen consecutive bits have different checksums |
| `Hex.HexOf8Parses` | ascii_serial_com.c:268-310 | parsing the two digits of a number, upper or lower case, gives it back |
| `Hex.HexOf16Parses` | ascii_serial_com.c:281-318 | the same for four digits |
| `Hex.HexOf32Parses` | ascii_serial_com.c:287-326 | the same for eight digits |
| `Hex.Parse8Prints` | ascii_serial_com.c:268-310 | printing what was parsed from two digits gives them back, upper-cased |
| `Hex.Parse16Prints` | ascii_serial_com.c:281-318 | the same for four digits |
| `Hex.Parse32Prints` | ascii_serial_com.c:287-326 | the same for eight digits |
| `Hex.ConvertUint8ToHex` | ascii_serial_com.c:268-279 | the loop writes the two digits at the offset and nothing else |
| `Hex.ConvertUint16ToHex` | ascii_serial_com.c:281-285 | the loop writes the four digits at the offset and nothing else |
| `Hex.ConvertUint32ToHex` | ascii_serial_com.c:287-291 | the loop writes the eight digits at the offset and nothing else |
| `Hex.ConvertHexToUint8` | ascii_serial_com.c:293-310 | the value of two digits of either case, or a throw if either is no digit |
| `Hex.ConvertHexToUint16` | ascii_serial_com.c:312-318 | the value of four digits, or a throw |
| `Hex.ConvertHexToUint32` | ascii_serial_com.c:320-326 | the value of eight digits, or a throw |
| `Hex.DigitLiterals` | ascii_serial_com.c:268-279 | the sixteen upper-case digits, and the lower-case ones, byte by byte |
| `Hex.DigitNumber` | ascii_serial_com.c:293-310 | which of all 256 bytes is a digit, and its value as a number |
| `Hex.Parse16Number` | ascii_serial_com.c:312-318 | four digits stand for 4096, 256, 16 and 1 times their values |
| `Hex.Parse32Number` | ascii_serial_com.c:320-326 | eight digits stand for 65536 times the first four and the last four |
| `Frames.ReceiveFrame` | ascii_serial_com.c:90-160 | a complete frame is delivered exactly when its checksum field is right, and is consumed either way; what follows it stays |
| `Frames.RoundTrip` | ascii_serial_com.c:50-161 | decoding a frame, whatever follows it, gives the message back and leaves what follows |
| `Frames.OutcomeTable` | ascii_serial_com.c:83-160 | every outcome by the position of the first period and line end of the resynchronised buffer: no message, the two throws that drop or keep the line, or the popping of a frame |
| `Frames.BodyTable` | ascii_serial_com.c:113-160 | how the popping of a frame ends: a throw that has dropped everything through the period, or exactly period + 6 bytes consumed with the checksum right or wrong |
| `Frames.DecoderBounds` | ascii_serial_com.c:108-125 | for every buffer: at most 54 data bytes are stored and only the three documented errors can be thrown |
| `Frames.ProgressExact` | ascii_serial_com.c:188-199 | a call that finds a complete line consumes it if and only if the line has no period or its first period is at 4 to 58 |
| `Frames.StuckExample` | ascii_serial_com.c:194-199 | start, period, end: a line that a call throws on and keeps |
| `Frames.StuckShape` | ascii_serial_com.c:83-112 | no shorter line is kept: a call that keeps a line keeps at least two bytes before its end marker |
| `Frames.ChecksumProblemExact` | ascii_serial_com.c:194-196 | the third, undocumented error is thrown if and only if the buffer is resynchronised to a line whose first period is at 59 or beyond |
| `Frames.ChecksumProblemExample` | ascii_serial_com.c:194-196 | a buffer of 61 bytes on which it is thrown |
| `Frames.DeliveredIsFrame` | ascii_serial_com.c:90-160 | whatever is delivered, the consumed bytes were the frame of that message, upper-case checksum included |
| `Frames.AcceptanceExact` | ascii_serial_com.c:90-160 | a message is delivered if and only if the resynchronised buffer begins, byte for byte, with its frame, and it has at most 54 data bytes and no marker |
| `Frames.WireFormat` | ascii_serial_com.c:61-74 | the frame of every message in bytes: `>`, versions, command, data, `.`, the upper-case checksum of all these, line end |
| `Frames.SendableBytes` | ascii_serial_com.c:50-161 | a frame can carry exactly the messages of at most 54 data bytes without `>`, `.` and line end |
| `Frames.ReceiveResynchronised` | ascii_serial_com.c:90-161 | resynchronising beforehand does not change the outcome |
| `Encoding.PutExact` | ascii_serial_com.c:50-75 | every way an encoding ends: too long; does not fit in 64 bytes (throws, its head having pushed out the front); a start marker among its last bytes; else appended as a frame |
| `Encoding.PutAppendsFrame` | ascii_serial_com.c:58-74 | a message that a frame can carry and that fits never throws and is appended as its frame |
| `Encoding.EncodeDecode` | ascii_serial_com.c:50-161 | encoding, then decoding, is the identity on every message that a frame can carry |
| `Encoding.DecodeEncode` | ascii_serial_com.c:50-161 | re-encoding a delivered message reproduces the consumed bytes |
| `Encoding.ErrorReplySendable` | ascii_serial_com.c:239-256 | the reply to any delivered message has at most 14 data bytes and is itself a message that a frame can carry |
| `Encoding.ErrorReplyReadBack` | ascii_serial_com.c:239-256 | decoded by the host, it holds the versions of the offending message, command `e`, the two-digit code, the offending command and the first nine data bytes at most |
| `Encoding.ErrorReplyBytes` | asc_exception.h:26-47 | every error reply, for every message, in bytes: `e`, the two digits of each code, the offending command and its first nine data bytes |
| `Encoding.StreamReadBack` | ascii_serial_com.c:219-237 | decoded by the host, a streaming frame holds the versions, command `s`, the two-digit counter, a comma and the data, for up to 51 data bytes |
| `Encoding.BurstRejected` | ascii_serial_com.c:139-157 | a frame changed between start and period within sixteen consecutive bits, with no marker created, is consumed and never delivered |
| `SerialCom.AsciiSerialCom.constructor` | ascii_serial_com.c:38-48 | two empty valid rings on the two halves of one array, counter 0, checksum honoured |
| `SerialCom.AsciiSerialCom.WriteChecksum` | ascii_serial_com.c:173-217 | the checksum of the logical bytes of the first or last frame, or the error, wherever the ring wraps |
| `SerialCom.AsciiSerialCom.CrcOfSlice` | ascii_serial_com.c:200-216 | the checksum over the blocks of a slice is that of its logical bytes |
| `Encoding.SendableWithin` | circular_buffer.c:435-440 | a message that a frame can carry is out of reach of get_blocks exactly when it fits while the output ring extends beyond the end of its array |
| `Runs.HeadBlocks` | ascii_serial_com.c:61-70 | the blocks that put_message has get_blocks compute spell out the head just pushed if and only if the message was within reach |
| `Runs.OutOfReach` | circular_buffer.c:435-440 | a reachable interface object on which no message is within reach although every one of up to 27 data bytes fits |
| `SerialCom.AsciiSerialCom.PutMessage` | ascii_serial_com.c:50-75 | status, output contents and the place where the output ring starts are those of the specification; the input half of the array is untouched |
| `SerialCom.AsciiSerialCom.PutError` | ascii_serial_com.c:239-256 | encodes exactly the error reply |
| `SerialCom.AsciiSerialCom.PutSMessage` | ascii_serial_com.c:219-237 | encodes the counter and the data, and counts modulo 256; more than 51 bytes throw and change nothing |
| `SerialCom.AsciiSerialCom.GetMessage` | ascii_serial_com.c:77-161 | input contents, status and all five variables, field by field, for every way a call ends, also at a throw; the output buffer is untouched |
| `SerialCom.PopData` | ascii_serial_com.c:118-125 | the data loop stores the bytes before the period and stops by its count |
| `Runs.FirstOut` | ascii_serial_com.c:77-161 | of frames one behind the other, decoding gives the first message and leaves the others |
| `Runs.Transfer` | ascii_serial_com.c:50-161 | messages encoded behind those already queued, moved and decoded come out all and in order, from any rotation of both rings, as long as they fit and reach |
| `Runs.FeedBytes` | asc_helpers.h:313-325 | a run of pushes, each followed by a decoding, shows exactly what the specification of runs shows and never touches the output buffer |
| `Runs.Perform` | ascii_serial_com.c:38-161 | each of six operations changes only its own ring, and how; an encoding is performed exactly when it is within reach |
| `Runs.PerformAll` | ascii_serial_com.c:38-161 | over every run of pushes, pops, encodings and decodings, each ring holds what its own operations give, though both share one array and calls may throw; the run of the output ring, with the place where it starts, also says which encodings are performed |
| `Streams.FeedAppend` | asc_helpers.h:313-325 | feeding two pieces one after the other is feeding their concatenation |
| `Streams.QuietBytes` | ascii_serial_com.c:90-100 | bytes without a line end show nothing and throw nothing, from any buffer without one |
| `Streams.FrameDelivers` | ascii_serial_com.c:77-161 | a frame delivers its message on its last byte and is silent before |
| `Streams.StreamDelivers` | ascii_serial_com.c:77-161 | from any buffer without a line end, any frames between any noise without line ends deliver exactly their messages, in order, each on its last byte, and no call throws |
| `Streams.BlockThenRest` | ascii_serial_com.c:77-161 | noise and a frame show their message on the last byte and leave an empty buffer for whatever follows |
| `Streams.Recovery` | ascii_serial_com.c:83-112 | from any buffer at all, 62 bytes without a line end leave no complete line in it |
| `Streams.RecoveryDelivers` | ascii_serial_com.c:83-161 | after such bytes the next frame is delivered on its last byte |
| `Streams.StuckStays` | ascii_serial_com.c:188-199 | 61 bytes may not be enough: a kept line stays while the buffer has room behind it |
| `Timer.ThreeWays` | millisec_timer.c:18-23 | for all 32-bit values, the three-way comparison holds exactly when `(now - set) mod 2^32` has reached `(expire - set) mod 2^32` |
| `Timer.MillisecTimer.SetRel` | millisec_timer.c:8-14 | enables the timer with the interval asked for |
| `Timer.MillisecTimer.IsExpired` | millisec_timer.c:16-29 | answers by elapsed time modulo 2^32 and disables the timer when it fires |
| `Timer.MillisecTimer.IsExpiredRepeat` | millisec_timer.c:30-47 | answers by elapsed time modulo 2^32 and, when it fires, moves both times on by the interval |
| `Timer.FiresOnce` | millisec_timer.c:16-29 | over any polls, a one-shot timer answers true to the first that finds the interval elapsed and to no other |
| `Timer.ExpiredExact` | millisec_timer.c:30-47 | against a clock that does not wrap, a poll fires exactly when the time since the set time, modulo 2^32, reaches the period |
| `Timer.DriftFree` | millisec_timer.c:30-47 | over any polls, early, late or out of order, the true set time is the first one plus as many periods as fires |
| `Timer.FiresExact` | millisec_timer.c:30-47 | every poll of any run fires exactly when the time since the true set time it finds, modulo 2^32, reaches the period |
| `Timer.NeverEarly` | millisec_timer.c:30-47 | with a clock that never runs back, no fire is early |
| `Timer.FiresOnTime` | millisec_timer.c:30-47 | a poll less than 2^32 ms after the true set time it finds fires exactly when one more period has passed than has fired: none missed |
| `Timer.PolledUntilFalse` | millisec_timer.c:30-47 | a poll that answers false has been preceded by exactly floor((t - S0) / r) fires |
| `Timer.ZeroPeriod` | millisec_timer.c:33-34 | a period of zero fires at every poll and never moves |
| `Timer.OnceAcrossTheWrap` | millisec_timer.c:16-29 | a one-shot of 2 ms set at 0xFFFFFFFF fires at clock value 1, and once |
| `Timer.RepeatAcrossTheWrap` | millisec_timer.c:30-47 | a period of 2 ms set at 0xFFFFFFFF fires at 1 and 3, and twice when it is next polled at 8 |
| `Registers.MaskedBits` | ascii_serial_com_register_pointers.c:74 | any bits inside the mask are those of the value, any bits outside it those of the old word |
| `Registers.HandleMessage` | ascii_serial_com_register_pointers.c:26-81 | reply or throw, data buffer, register memory and output buffer are those of the specification; the input buffer is untouched |
| `Registers.AccessRegister` | ascii_serial_com_register_pointers.c:56-80 | the same for the part behind the register number |
| `Registers.StoreParsed` | ascii_serial_com_register_pointers.c:71-75 | stores `(v & mask) | (old & ~mask)` of the eight digits, or throws and stores nothing |
| `Registers.RefusalExact` | ascii_serial_com_register_pointers.c:29-70 | which requests are refused with 20, 16, 17, 21 or 22, each reply in bytes, and which throw; neither changes anything |
| `Registers.ReadExact` | ascii_serial_com_register_pointers.c:49-64 | a read of the register with that number answers its number as it came, a comma and eight upper-case digits of its value, or of 0 |
| `Registers.WriteExact` | ascii_serial_com_register_pointers.c:49-80 | a write stores `(v & mask) | (old & ~mask)` in the cell of that register and echoes its number; a null entry stores nothing; a non-digit throws |
| `Registers.HandleRead` | ascii_serial_com_register_pointers.c:26-81 | the handler on a read, in the fields of its state: the reply, and memory unchanged |
| `Registers.HandleWrite` | ascii_serial_com_register_pointers.c:26-81 | the handler on a write, in the fields of its state: the cell that changes, to what, and the echo |
| `Registers.HandleSendable` | ascii_serial_com_register_pointers.c:26-81 | the answer to any delivered message is a message that a frame can carry |
| `Registers.MaskSafety` | ascii_serial_com_register_pointers.c:71-78 | after any requests, well formed, erroneous or throwing, a register is its initial value with the bits inside its mask replaced by those of the last value written |
| `Registers.ProtectedBits` | ascii_serial_com_register_pointers.c:71-78 | bits outside the mask keep their initial value over any requests |
| `Registers.UnmappedUnchanged` | ascii_serial_com_register_pointers.c:71-78 | memory that no register points to never changes |
| `Registers.DecidedExact` | ascii_serial_com_register_pointers.c:66 | a request is decided by its own message, whatever an earlier one left in the buffer, if and only if it is not a write with only some of the value digits that are parsed |
| `Registers.ShortWriteDependsOnBuffer` | ascii_serial_com_register_pointers.c:66-73 | for every such short write there is a buffer holding the same message that is decided otherwise |
| `Device.AsciiSerialComDevice.constructor` | ascii_serial_com_device.c:5-9 | an empty device with the given configuration |
| `Device.AsciiSerialComDevice.DeviceReceive` | ascii_serial_com_device.c:11-55 | status, both rings and the place where the output ring starts, stored message, register memory and streaming flag are those of the specification, whenever the answer is within reach |
| `Device.AsciiSerialComDevice.HandleStreaming` | asc_helpers.h:244-256 | `n` sets the flag, `f` clears it, anything else leaves it |
| `Device.StoredSendable` | ascii_serial_com_device.c:13-16 | after a decoding that did not throw, the stored command is 0 or the stored message is one that a frame carried |
| `Device.DispatchSendable` | ascii_serial_com_device.c:18-54 | whatever was delivered, the answer is a message that a frame can carry |
| `Serving.ExchangeServed` | asc_helpers.h:313-325 | noise and the frame of any message, in turns with or without a byte and with any readiness of the transmitter: with room when the frame is complete, what was transmitted and what waits is what waited before and the frame of the answer |
| `Serving.ExchangeReach` | asc_helpers.h:313-325 | an exchange stays within reach if and only if its answer, when it fits, finds the output ring within its array |
| `Serving.ConversationServed` | asc_helpers.h:313-325 | any number of frames between noise, in any turns with room for each answer when its frame is complete: what was transmitted and what waits is what waited before and all answers, in order |
| `Serving.DrainedHasRoom` | asc_helpers.h:313-325 | a drained output ring has room for every answer, wherever it starts |
| `Serving.FourReads` | asc_helpers.h:313-325 | four reads back to back, a byte in and a byte out each turn: three are served, the fourth is out of reach although its answer fits |
| `Serving.RefusedAnswer` | ascii_serial_com_device.c:50-54 | a command without a handler is answered by error 15, in bytes, and changes no register |
| `Serving.StreamingAnswer` | asc_helpers.h:244-256 | `n` and `f` switch streaming without an answer |
| `Serving.NoopAnswer` | ascii_serial_com_device.c:48-49 | `z` has no answer, and no effect but on the data buffer |
| `Serving.WriteOverWire` | ascii_serial_com_register_pointers.c:65-80 | the frame of a write stores the masked value and adds the frame that echoes the register number |
| `Serving.ReadOverWire` | ascii_serial_com_register_pointers.c:57-64 | the frame of a read adds the frame of number, comma and upper-case hex of the value |
| `Serving.WriteThenRead` | ascii_serial_com_register_pointers.c:49-80 | the frame of a write followed by the frame of a read: the second answer holds `(v & mask) | (old & ~mask)`, or 0 for a null entry |
| `Serving.WriteThenReadNumbers` | ascii_serial_com_register_pointers.c:49-80 | the same for every register number and value written in hex of either case |
| `Serving.ShortWriteOverWire` | ascii_serial_com_register_pointers.c:66-73 | a write frame with four digits stores them followed by the four digits that an earlier frame left in the data buffer |
| `Serving.ShortWriteExample` | ascii_serial_com_register_pointers.c:66-73 | one write frame, after two different earlier ones, leaves two different values |
| `Serving.RunsMemory` | ascii_serial_com_register_pointers.c:26-81 | whatever arrives in any turns, memory changes only by the requests that reach the handler, in order |
| `Serving.DeviceMaskSafety` | ascii_serial_com_register_pointers.c:71-78 | whatever arrives, each register is its initial value with the masked bits of the last value written; no bit outside its mask ever changes |
| `Serving.TurnsRecover` | asc_helpers.h:313-325 | whatever the device holds, 62 bytes without a line end leave no complete line in its input ring, with any idle turns between |
| `Serving.ReadAfterAnything` | ascii_serial_com_register_pointers.c:57-80 | after any turns at all and then 62 bytes without a line end, a read frame is answered with exactly that value |
| `Serving.ReceiveRead` | ascii_serial_com_device.c:18-27 | device_receive on a read frame, in the fields of the device: with a register handler and state, whatever else is set, it adds the frame of the value in memory |
| `Serving.ReceiveWrite` | ascii_serial_com_device.c:18-27 | device_receive on a write frame, in the fields of the device: it changes that cell of memory and adds the echo |
| `Serving.ReceiveSwitch` | ascii_serial_com_device.c:39-47 | device_receive on an `n` or `f` frame with their handler set, whatever else is set: the flag is set or cleared, nothing is added |
| `Serving.ReceiveRefused` | ascii_serial_com_device.c:11-55 | device_receive on any other frame but `z`, or without the handler: it adds error 15 in bytes and changes nothing else |
| `Serving.TakeTurn` | asc_helpers.h:313-325 | one turn on the device object: a byte out, a byte in, device_receive, as the specification of a turn says |
| `Serving.Serve` | asc_helpers.h:313-325 | the loop on the device object transmits and leaves what the specification of runs says, as long as no answer goes out of reach |
| `Literals.WriteNothing` | unit_test/test_ascii_serial_com.c:244 | `>00w.23A6\n`, byte for byte: its message, its decoding and its encoding |
| `Literals.PlainData` | unit_test/test_ascii_serial_com.c:255 | the same of `>00wFFFF.9F3B\n` |
| `Literals.NotACommand` | unit_test/test_ascii_serial_com.c:171 | the same of `>xxx.79BD\n` |
| `Literals.TwoVersions` | unit_test/test_ascii_serial_com_device.c:75 | the same of `>12r.4EBA\n` |
| `Literals.WriteRefused` | unit_test/test_ascii_serial_com_device.c:228 | the same of `>00e15,w,.DF68\n` |
| `Literals.StreamedData` | unit_test/test_ascii_serial_com.c:368 | the same of `>00s01,0000.91AE\n` |
| `Literals.RegistersInBytes` | avr/arduino_uno_register_pointers.c:29-31 | noise, a write frame, a read frame and an `n` frame through the loop of a device with a register handler only: memory and every byte of the three answers |
| `Literals.RefusalInBytes` | unit_test/test_ascii_serial_com_device.c:228-240 | `>00w.23A6\n` and an `n` frame through the loop of a device without a register handler: `>00e15,w,.DF68\n`, and streaming is on |

## Left out

- SerialCom.AsciiSerialCom.GetMessage: requires that the checksum is honoured; with `ignoreCRCMismatch` set the decoder skips the length checks of `compute_checksum`, and its guarantees do not apply. The flag's two setters are left out with it.
- SerialCom.AsciiSerialCom.PutMessage: requires `Reaches`, because beyond it `get_blocks` returns a block outside the ring; what the code then reads is not modelled.
- SerialCom.AsciiSerialCom.WriteChecksum: requires the same of the frame it covers.
- SerialCom.AsciiSerialCom.PutError: requires the same of the reply it builds.
- SerialCom.AsciiSerialCom.PutSMessage: requires the same of the streaming message it builds.
- Registers.HandleMessage: requires the same of its answer.
- Registers.AccessRegister: requires the same of its answer.
- Device.AsciiSerialComDevice.DeviceReceive: requires the same of its answer; and only the handlers of `asc_helpers.h` are modelled, so the handler of `s` messages is null.
- Serving.TakeTurn: requires the same of the answer in the turn.
- Serving.Serve: requires the same of every answer of the run.
- Registers.HandleRead: requires the same of the reply.
- Registers.HandleWrite: requires the same of the echo.
- Serving.ReceiveRead: requires room for the reply in the output ring without a wrap.
- Serving.ReceiveWrite: requires the same of the echo.
- Serving.ReceiveRefused: requires the same of the error reply.
- Runs.Transfer: requires the same of every message it encodes.
- Runs.Perform: does not perform an encoding that is out of reach, and reports it.
- CircularBuffers.CircularBuffer.GetBlocks: the sum of first element and length is not wrapped at 2^64.
- CRC registers are 16 bits wide; the higher bits that a wider `uint_fast16_t` would hold are masked away or never read by the source.
- AVR registers of one byte, and 16-bit `size_t`.
- Changes of register memory by hardware between requests, and aliasing of registers with the library's own buffers.
- The receiving counters of streaming messages, which the source never reads.
- `circular_buffer_push_back_string_uint8`, printing, file-descriptor and poll input and output.
- `ascii_serial_com_register_block.c`, an unmasked variant of the register handler.
- The `arm`, `avr`, `riscv` and `native` programs, UART and timer set-up, and how an interrupt fills the extra input buffer: a turn is given the byte it takes from there, if any.
