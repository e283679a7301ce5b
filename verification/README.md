# Verified models of the RS485 and Modbus sources

Dafny models of the algorithms of this repository, and proofs of what they promise.  `dafny verify dfyconfig.toml`
checks everything.

| component | files |
|---|---|
| Modbus RTU master of the RS485 demo: CRC-16, the eighteen request builders, the two-port receive state machine | `CrcTables`, `Crc16`, `CrcErrors`, `Frames`, `FrameSizes`, `FrameDecoding`, `Receive`, `Master` |
| LRU cache: hash index and oldest-to-youngest chain over the same entries, with mutually recursive `put` and `rehash` | `LruSpec`, `LruCache` |
| probe sequence of the hash table | `Residues`, `HashProbe` |
| circular list with a sentinel | `RingList` |
| strong pointers and their counts, as interleaved atomic steps | `RefCount`, `RefCountCalls` |
| atomic word operations with retry loops, as interleaved atomic steps | `AtomicWord` |
| overlapping moves of objects with lifetimes | `MoveTypes` |
| bitmask id allocator | `Bitmask` |
| shared definitions | `Binary`, `Casts`, `FiniteSets`, `Flatten`, `Int32`, `Octets`, `Options`, `Storage` |

Code that changes things in place is modelled by methods on classes and arrays: the builders write into a 256-byte
array, the two ports are objects, cache entries and list nodes are objects linked by pointers.  Each such method is
proved against a function of the old state, and what the source promises is proved of those functions over all inputs
and all runs.  Threads are modelled as a state machine whose steps are the atomic instructions.

## Where the code differs from what one would expect

- **F15 byte count.**  `length/8+1` is one byte too many for every multiple of 8 (`CoilBytesAgree`); a caller that
  supplies just the bytes section 6.11 asks for then gets an array index exception instead of a frame, and a slave that
  compares the counts rejects the frame of one that supplies more (`MessageIsUnderstood`).
- **Numbers beyond 16 bits.**  The builders check the range of the slave address and, most of them, of the start
  address.  All other numbers are cut down to 16 bits without notice, which is exactly when a slave cannot tell the
  request from its frame (`MessageIsRecovered`, `WideLengthsCollide`).
- **Replies without a request.**  StopReceive clears the expected id and function to 0, and sendRaw never sets them.
  From then until the next builder call, a reply of id 0 and function 0 with a correct CRC is accepted.  Accepted
  replies answer the last request exactly if the recorded function is not 0 (`RepliesAnswerTheLastRequest`,
  `ZeroReplyIsAccepted`).
- **Put on a full cache.**  The oldest pair is evicted before the key is looked up.  A put of a present key therefore
  leaves the cache alone exactly if it is not full (`PutOfPresentKey`); on a full one it may evict the pair of its own
  key, which it then inserts anew (`PutOfPresentKeyAccepted`).
- **Negative lengths.**  They are not refused, and are sent in ways that no slave can read back
  (`NegativeLengthsAreLost`).  As division truncates towards zero, F15 sends one coil byte for -7 to -1 and none for
  -15 to -8; for -71 to -16 it cuts the message, and below that it fails (`NegativeCoils`).  F16 cuts the message for
  -3 to -1.  For the least 124 lengths, whose double wraps around to a small number, it pads the message with zeros
  and so asks to write 0 to up to 123 registers; for all others it fails (`NegativeRegisters`,
  `LeastLengthsWriteZeros`).  F21 writes no register for a negative reg_count, but takes it off the byte count
  (`WriteSubsLength`, `RegisterCountMinusOne`).  F15 from -71 to -56 and F16 with -3 cut off even the function code, and
  a reply that echoes such a frame is rejected; all other echoes are accepted (`HeadlessIff`, `EchoIsAccepted`,
  `EchoIsRejected`).
- **A list inserted into itself.**  Inserting a range of a list after its own start and not after its own end never
  ends (`OwnRangeNeverEnds`).
- **Direction of moves.**  move_forward_type and move_backward_type check nothing: called in the wrong direction on
  overlapping ranges, the first copy already lands on a live object, unless the memmove branch is taken.
- **Weight of a bit mask.**  bitmask_weight also counts ids beyond num_bits in the last word.

## Model

| member | source | states |
|---|---|---|
| CrcTables.EntryIsEightShifts | HCBI_API/RS485_demo2/app/src/main/java/com/example/rs485_demo/MainActivity.java:54-111 | each entry of the two literal tables is the byte shifted eight times through the register with polynomial 0xA001, low half in `table_crc_hi`, high half in `table_crc_lo` |
| ModbusCrc.CrcLoop | HCBI_API/RS485_demo2/app/src/main/java/com/example/rs485_demo/MainActivity.java:638-656 | the loop over `crc_hi`, `crc_lo` computes the fold of the table step over exactly the first `buffer_length` bytes, for any pair of tables, and runs out of bounds for every other length (a negative one never reaches 0) |
| ModbusCrc.Crc16 | HCBI_API/RS485_demo2/app/src/main/java/com/example/rs485_demo/MainActivity.java:638-656 | the same with the two literal tables and both registers preset to 0xFF |
| ModbusCrc.FeedIsSerial | HCBI_API/RS485_demo2/app/src/main/java/com/example/rs485_demo/MainActivity.java:646-650 | one table step is eight steps of the bit-by-bit register, for any tables whose entries are eight shifts of their index |
| ModbusCrc.CrcIsSerialCrc | HCBI_API/RS485_demo2/app/src/main/java/com/example/rs485_demo/MainActivity.java:638-656 | for messages of any length, crc16 is the bit-by-bit CRC of section 6.2.2 of MODBUS over Serial Line V1.02 (polynomial 0xA001, preset 0xFFFF) with its two bytes swapped |
| ModbusCrc.ExampleOfTheStandard | HCBI_API/RS485_demo2/app/src/main/java/com/example/rs485_demo/MainActivity.java:638-656 | the example of that section: 02 07 is followed by 41 12 |
| ModbusCrc.CheckIs | HCBI_API/RS485_demo2/app/src/main/java/com/example/rs485_demo/MainActivity.java:585-593 | the two bytes that sendFrame appends are the register, low-order byte first |
| ModbusCrc.TrailingCrc | HCBI_API/RS485_demo2/app/src/main/java/com/example/rs485_demo/MainActivity.java:715-720 | a frame's trailing bytes are the CRC of what precedes them if and only if crc16 of the whole frame is zero |
| ModbusCrc.TrailingCheck | HCBI_API/RS485_demo2/app/src/main/java/com/example/rs485_demo/MainActivity.java:715-720 | the same on the numbers the receive code compares, for every frame of two bytes or more |
| CrcErrors.SerialIsBits | HCBI_API/RS485_demo2/app/src/main/java/com/example/rs485_demo/MainActivity.java:638-656 | the CRC of a message is that of its bits shifted in one at a time, low bit of each byte first |
| CrcErrors.SameCrc | HCBI_API/RS485_demo2/app/src/main/java/com/example/rs485_demo/MainActivity.java:638-656 | two messages of equal length have the same crc16 if and only if the CRC of their difference, started from zero, is zero |
| CrcErrors.AdjacentBytesAreDetected | HCBI_API/RS485_demo2/app/src/main/java/com/example/rs485_demo/MainActivity.java:638-656 | different messages of equal length that agree outside two adjacent bytes never have the same crc16 |
| CrcErrors.BurstsAreDetected | HCBI_API/RS485_demo2/app/src/main/java/com/example/rs485_demo/MainActivity.java:638-656 | stronger: nor do messages that agree outside any window of 16 bits, aligned with bytes or not |
| CrcErrors.OddErrorsAreDetected | HCBI_API/RS485_demo2/app/src/main/java/com/example/rs485_demo/MainActivity.java:638-656 | nor do messages that differ in an odd number of bits, wherever they are |
| FrameDecoding.MessageMeans | HCBI_API/RS485_demo2/app/src/main/java/com/example/rs485_demo/MainActivity.java:731-1240 | for each of the eighteen builders and all arguments for which the message is written whole and no count of registers is negative: it starts with the slave address and the function code and decodes, field by field as sections 6.1 to 6.18 of the Modbus Application Protocol V1.1b3 lay them out, to the request as it is carried (F5 a flag, F24 without its unused length, arrays up to their count) with every number cut down to 16 bits |
| FrameDecoding.CoilIsOnOrOff | HCBI_API/RS485_demo2/app/src/main/java/com/example/rs485_demo/MainActivity.java:827-855 | whatever F5 is given and sends, the value is 0xFF00 for on and 0x0000 for off, the only two of section 6.5 |
| FrameDecoding.MessageIsRecovered | HCBI_API/RS485_demo2/app/src/main/java/com/example/rs485_demo/MainActivity.java:731-1240 | for each builder and all arguments for which anything is sent: slave address, function and the request as it is carried are read back exactly if every number that is carried is an unsigned 16-bit value |
| FrameDecoding.MessageIsUnderstood | HCBI_API/RS485_demo2/app/src/main/java/com/example/rs485_demo/MainActivity.java:731-1240 | a slave that also checks byte counts and quantities against the data reads it back exactly if, moreover, it is not an F15 request whose length is a multiple of 8 |
| FrameDecoding.FramesAreEqualIff | HCBI_API/RS485_demo2/app/src/main/java/com/example/rs485_demo/MainActivity.java:731-1240 | two such frames, CRC included, are equal exactly if the slave addresses are and the requests as carried, with every number cut down to 16 bits; functions included, across all builders |
| FrameDecoding.FramesAreInjective | HCBI_API/RS485_demo2/app/src/main/java/com/example/rs485_demo/MainActivity.java:731-1240 | with numbers in range, equal frames come from equal slave addresses and equal requests as carried |
| FrameDecoding.WideLengthsCollide | HCBI_API/RS485_demo2/app/src/main/java/com/example/rs485_demo/MainActivity.java:731-753 | beyond 16 bits they do not: reading 1 coil and reading 65537 coils are the same frame |
| FrameDecoding.NegativeLengthsAreLost | HCBI_API/RS485_demo2/app/src/main/java/com/example/rs485_demo/MainActivity.java:983-1050 | no message that F15 or F16 sends for a negative length is read back as the request |
| FrameDecoding.LeastLengthsAreMisread | HCBI_API/RS485_demo2/app/src/main/java/com/example/rs485_demo/MainActivity.java:1017-1050 | the least 124 lengths of F16 are read instead, counts and all, as a request to write 0 to that many registers, from none to 123 |
| FrameDecoding.UnReadSubsOfReadSubs | HCBI_API/RS485_demo2/app/src/main/java/com/example/rs485_demo/MainActivity.java:1074-1107 | any list of F20 sub-requests is decoded to the same list, with every field cut down to 16 bits |
| FrameDecoding.UnWriteSubsOfWriteSubs | HCBI_API/RS485_demo2/app/src/main/java/com/example/rs485_demo/MainActivity.java:1109-1149 | any list of F21 sub-requests with 16-bit counts is decoded to the same list, with the registers written, all cut down to 16 bits |
| FrameSizes.Outcomes | HCBI_API/RS485_demo2/app/src/main/java/com/example/rs485_demo/MainActivity.java:521-1240 | for every builder and all arguments: IllegalArgumentException exactly if the slave address, or a start address that is checked, is out of range; a frame exactly if moreover the message fits the buffer with its CRC and no argument array is shorter than what is read of it |
| FrameSizes.NegativeCoils | HCBI_API/RS485_demo2/app/src/main/java/com/example/rs485_demo/MainActivity.java:983-1015 | what F15 does with every negative length: to -7 it sends one coil byte, to -15 none, to -71 a message cut short, and below it fails |
| FrameSizes.LengthMinusOne | HCBI_API/RS485_demo2/app/src/main/java/com/example/rs485_demo/MainActivity.java:983-1015 | the message for length -1 |
| FrameSizes.LengthMinusEight | HCBI_API/RS485_demo2/app/src/main/java/com/example/rs485_demo/MainActivity.java:983-1015 | the message for length -8 |
| FrameSizes.NegativeRegisters | HCBI_API/RS485_demo2/app/src/main/java/com/example/rs485_demo/MainActivity.java:1017-1050 | what F16 does with every negative length: to -3 it sends a message cut short, for the least 124 one padded with zeros, and for all others it fails |
| FrameSizes.LeastLengthsWriteZeros | HCBI_API/RS485_demo2/app/src/main/java/com/example/rs485_demo/MainActivity.java:1017-1050 | the padded messages are those of a request to write 0 to that many registers |
| FrameSizes.LengthNextToTheLeast | HCBI_API/RS485_demo2/app/src/main/java/com/example/rs485_demo/MainActivity.java:1017-1050 | the message for the length next to the least int: write 0 to one register |
| FrameSizes.WriteSubsLength | HCBI_API/RS485_demo2/app/src/main/java/com/example/rs485_demo/MainActivity.java:1125-1139 | the byte count F21 accumulates, the sum of 7+2*reg_count, is the length of what it writes less two for every register that negative counts take off; it is that length exactly if no count is negative |
| FrameSizes.WriteSubsThatFit | HCBI_API/RS485_demo2/app/src/main/java/com/example/rs485_demo/MainActivity.java:1109-1149 | for all sub-requests: F21 sends exactly if each brings the words it asks for and what it writes is at most 251 bytes, and otherwise runs out of an array; the count byte sent is the length of what follows exactly if the negative counts add up to a multiple of 128 (to 0 if there are none) |
| FrameSizes.RegisterCountMinusOne | HCBI_API/RS485_demo2/app/src/main/java/com/example/rs485_demo/MainActivity.java:1109-1149 | the message for one sub-request with count -1: a count byte of 5 before 7 bytes |
| FrameSizes.HeadlessIff | HCBI_API/RS485_demo2/app/src/main/java/com/example/rs485_demo/MainActivity.java:983-1050 | a message that is sent is shorter than slave address and function code exactly for F15 with a length from -71 to -56 and F16 with length -3 |
| FrameSizes.LengthMinusThree | HCBI_API/RS485_demo2/app/src/main/java/com/example/rs485_demo/MainActivity.java:1017-1050 | the message for length -3: the slave address alone |
| FrameSizes.ReadSubsThatFit | HCBI_API/RS485_demo2/app/src/main/java/com/example/rs485_demo/MainActivity.java:1074-1107 | F20 sends exactly if there are at most 35 sub-requests |
| FrameSizes.RegistersThatFit | HCBI_API/RS485_demo2/app/src/main/java/com/example/rs485_demo/MainActivity.java:1017-1050 | F16 sends exactly if there are at most 123 registers |
| FrameSizes.WritesThatFit | HCBI_API/RS485_demo2/app/src/main/java/com/example/rs485_demo/MainActivity.java:1180-1218 | F23 sends exactly if there are at most 121 registers to write |
| FrameSizes.CoilBytesAgree | HCBI_API/RS485_demo2/app/src/main/java/com/example/rs485_demo/MainActivity.java:983-1015 | F15's byte count `length/8+1` is that of section 6.11 exactly if length is not a multiple of 8; given just the bytes that section asks for, it sends exactly in that case and below 1976 coils |
| Master.MainActivity.F1ReadCoilStatus | HCBI_API/RS485_demo2/app/src/main/java/com/example/rs485_demo/MainActivity.java:731-753 | F1: the in-place builder sends, refuses, or runs out of bounds exactly as `Build` of its request says, the function that the decoder inverts, for all arguments; what is transmitted is that message and its CRC; the port's expected reply changes exactly if the arguments are in range |
| Master.MainActivity.F2ReadInputStatus | HCBI_API/RS485_demo2/app/src/main/java/com/example/rs485_demo/MainActivity.java:755-777 | F2: the in-place builder sends, refuses, or runs out of bounds exactly as `Build` of its request says, the function that the decoder inverts, for all arguments; what is transmitted is that message and its CRC; the port's expected reply changes exactly if the arguments are in range |
| Master.MainActivity.F3ReadHoldingRegisters | HCBI_API/RS485_demo2/app/src/main/java/com/example/rs485_demo/MainActivity.java:779-801 | F3: the in-place builder sends, refuses, or runs out of bounds exactly as `Build` of its request says, the function that the decoder inverts, for all arguments; what is transmitted is that message and its CRC; the port's expected reply changes exactly if the arguments are in range |
| Master.MainActivity.F4ReadInputRegisters | HCBI_API/RS485_demo2/app/src/main/java/com/example/rs485_demo/MainActivity.java:803-825 | F4: the in-place builder sends, refuses, or runs out of bounds exactly as `Build` of its request says, the function that the decoder inverts, for all arguments; what is transmitted is that message and its CRC; the port's expected reply changes exactly if the arguments are in range |
| Master.MainActivity.F5ForceSingleCoil | HCBI_API/RS485_demo2/app/src/main/java/com/example/rs485_demo/MainActivity.java:827-855 | F5: the in-place builder sends, refuses, or runs out of bounds exactly as `Build` of its request says, the function that the decoder inverts, for all arguments; what is transmitted is that message and its CRC; the port's expected reply changes exactly if the arguments are in range |
| Master.MainActivity.F6PresetSingleRegister | HCBI_API/RS485_demo2/app/src/main/java/com/example/rs485_demo/MainActivity.java:857-885 | F6: the in-place builder sends, refuses, or runs out of bounds exactly as `Build` of its request says, the function that the decoder inverts, for all arguments; what is transmitted is that message and its CRC; the port's expected reply changes exactly if the arguments are in range |
| Master.MainActivity.F7ReadExceptionStatus | HCBI_API/RS485_demo2/app/src/main/java/com/example/rs485_demo/MainActivity.java:887-908 | F7: the in-place builder sends, refuses, or runs out of bounds exactly as `Build` of its request says, the function that the decoder inverts, for all arguments; what is transmitted is that message and its CRC; the port's expected reply changes exactly if the arguments are in range |
| Master.MainActivity.F8DiagnosticsQuery | HCBI_API/RS485_demo2/app/src/main/java/com/example/rs485_demo/MainActivity.java:910-935 | F8: the in-place builder sends, refuses, or runs out of bounds exactly as `Build` of its request says, the function that the decoder inverts, for all arguments; what is transmitted is that message and its CRC; the port's expected reply changes exactly if the arguments are in range |
| Master.MainActivity.F11FetchCommEventCounter | HCBI_API/RS485_demo2/app/src/main/java/com/example/rs485_demo/MainActivity.java:937-958 | F11: the in-place builder sends, refuses, or runs out of bounds exactly as `Build` of its request says, the function that the decoder inverts, for all arguments; what is transmitted is that message and its CRC; the port's expected reply changes exactly if the arguments are in range |
| Master.MainActivity.F12FetchCommEventLog | HCBI_API/RS485_demo2/app/src/main/java/com/example/rs485_demo/MainActivity.java:960-981 | F12: the in-place builder sends, refuses, or runs out of bounds exactly as `Build` of its request says, the function that the decoder inverts, for all arguments; what is transmitted is that message and its CRC; the port's expected reply changes exactly if the arguments are in range |
| Master.MainActivity.F15ForceMultipleCoils | HCBI_API/RS485_demo2/app/src/main/java/com/example/rs485_demo/MainActivity.java:983-1015 | F15, with a negative length and too short an array: the in-place builder sends, refuses, or runs out of bounds exactly as `Build` of its request says, the function that the decoder inverts, for all arguments; what is transmitted is that message and its CRC; the port's expected reply changes exactly if the arguments are in range |
| Master.MainActivity.F16PresetMultipleRegs | HCBI_API/RS485_demo2/app/src/main/java/com/example/rs485_demo/MainActivity.java:1017-1050 | F16, with a negative length and too short an array: the in-place builder sends, refuses, or runs out of bounds exactly as `Build` of its request says, the function that the decoder inverts, for all arguments; what is transmitted is that message and its CRC; the port's expected reply changes exactly if the arguments are in range |
| Master.MainActivity.F17ReportSlaveID | HCBI_API/RS485_demo2/app/src/main/java/com/example/rs485_demo/MainActivity.java:1052-1072 | F17: the in-place builder sends, refuses, or runs out of bounds exactly as `Build` of its request says, the function that the decoder inverts, for all arguments; what is transmitted is that message and its CRC; the port's expected reply changes exactly if the arguments are in range |
| Master.MainActivity.F20ReadGeneralReference | HCBI_API/RS485_demo2/app/src/main/java/com/example/rs485_demo/MainActivity.java:1074-1107 | F20: the in-place builder sends, refuses, or runs out of bounds exactly as `Build` of its request says, the function that the decoder inverts, for all arguments; what is transmitted is that message and its CRC; the port's expected reply changes exactly if the arguments are in range |
| Master.MainActivity.F21WriteGeneralReference | HCBI_API/RS485_demo2/app/src/main/java/com/example/rs485_demo/MainActivity.java:1109-1149 | F21, with its running index and accumulated count byte: the in-place builder sends, refuses, or runs out of bounds exactly as `Build` of its request says, the function that the decoder inverts, for all arguments; what is transmitted is that message and its CRC; the port's expected reply changes exactly if the arguments are in range |
| Master.MainActivity.F22MaskWrite4XRegister | HCBI_API/RS485_demo2/app/src/main/java/com/example/rs485_demo/MainActivity.java:1151-1178 | F22: the in-place builder sends, refuses, or runs out of bounds exactly as `Build` of its request says, the function that the decoder inverts, for all arguments; what is transmitted is that message and its CRC; the port's expected reply changes exactly if the arguments are in range |
| Master.MainActivity.F23ReadWrite4XRegisters | HCBI_API/RS485_demo2/app/src/main/java/com/example/rs485_demo/MainActivity.java:1180-1218 | F23: the in-place builder sends, refuses, or runs out of bounds exactly as `Build` of its request says, the function that the decoder inverts, for all arguments; what is transmitted is that message and its CRC; the port's expected reply changes exactly if the arguments are in range |
| Master.MainActivity.F24ReadFIFOQueue | HCBI_API/RS485_demo2/app/src/main/java/com/example/rs485_demo/MainActivity.java:1220-1240 | F24: the in-place builder sends, refuses, or runs out of bounds exactly as `Build` of its request says, the function that the decoder inverts, for all arguments; what is transmitted is that message and its CRC; the port's expected reply changes exactly if the arguments are in range |
| Master.MainActivity.FrameInitAt | HCBI_API/RS485_demo2/app/src/main/java/com/example/rs485_demo/MainActivity.java:521-556 | address and start address are checked before anything is written; the header and the record of the port follow |
| Master.MainActivity.FrameInit | HCBI_API/RS485_demo2/app/src/main/java/com/example/rs485_demo/MainActivity.java:558-582 | the same without a start address |
| Master.MainActivity.SendFrame | HCBI_API/RS485_demo2/app/src/main/java/com/example/rs485_demo/MainActivity.java:585-636 | the message is completed with its CRC and copied out, unless it does not fit the buffer with it |
| Master.MainActivity.Send | HCBI_API/RS485_demo2/app/src/main/java/com/example/rs485_demo/MainActivity.java:731-1240 | all eighteen at once, by the request they are called for |
| Master.MainActivity.SendRecorded | HCBI_API/RS485_demo2/app/src/main/java/com/example/rs485_demo/MainActivity.java:540-546 | to the ports a builder call is one step of their state machine, or none if an argument is illegal, and leaves the other port alone |
| Master.StoreByte | HCBI_API/RS485_demo2/app/src/main/java/com/example/rs485_demo/MainActivity.java:155-158 | a byte read is one step of the state machine: stored and counted while receiving, ignored while idle, fatal to the thread beyond 256 bytes |
| Master.CheckReceivedData | HCBI_API/RS485_demo2/app/src/main/java/com/example/rs485_demo/MainActivity.java:684-727 | returns true exactly if the port's state accepts: two bytes at least, the recorded id and function, and a trailing CRC that matches |
| Master.HandleTimeout | HCBI_API/RS485_demo2/app/src/main/java/com/example/rs485_demo/MainActivity.java:214-229 | the timeout gives that verdict if the port was receiving, and then resets it |
| Master.HandleOther | HCBI_API/RS485_demo2/app/src/main/java/com/example/rs485_demo/MainActivity.java:230-233 | any other message stops the port, without a verdict |
| Master.StopReceive | HCBI_API/RS485_demo2/app/src/main/java/com/example/rs485_demo/MainActivity.java:669-682 | one step of the state machine: idle, index 0, no expected reply |
| Master.MainActivity.ReadyToReceive | HCBI_API/RS485_demo2/app/src/main/java/com/example/rs485_demo/MainActivity.java:658-667 | one step of the state machine |
| Master.MainActivity.OnByte | HCBI_API/RS485_demo2/app/src/main/java/com/example/rs485_demo/MainActivity.java:142-166 | one step of the state machine, on the given port only |
| Master.MainActivity.OnTimeout | HCBI_API/RS485_demo2/app/src/main/java/com/example/rs485_demo/MainActivity.java:210-235 | one step of the state machine, with the verdict |
| Master.MainActivity.OnOther | HCBI_API/RS485_demo2/app/src/main/java/com/example/rs485_demo/MainActivity.java:230-233 | one step of the state machine |
| Master.MainActivity.Replay | HCBI_API/RS485_demo2/app/src/main/java/com/example/rs485_demo/MainActivity.java:142-1240 | after any run of builder calls, ReadyToReceive, bytes, timeouts and other messages, the fields of both ports are the state that the history of the run leads to, so that what holds of every history holds of them |
| Receive.PortsAreIsolated | HCBI_API/RS485_demo2/app/src/main/java/com/example/rs485_demo/MainActivity.java:142-262 | after every run, each port is in the state that its own events alone would have led to: no step on one port changes the other |
| Receive.HistoryIsTracked | HCBI_API/RS485_demo2/app/src/main/java/com/example/rs485_demo/MainActivity.java:142-262 | after every run, a port that is idle has index 0, and one that is receiving and has not overrun holds exactly the bytes read since ReadyToReceive; id and function are those the history expects |
| Receive.AcceptsIsCrcZero | HCBI_API/RS485_demo2/app/src/main/java/com/example/rs485_demo/MainActivity.java:684-727 | CheckReceivedData accepts exactly the frames with the expected id and function whose crc16 as a whole is zero |
| Receive.VerdictOfHistory | HCBI_API/RS485_demo2/app/src/main/java/com/example/rs485_demo/MainActivity.java:684-727 | after every run of at most 256 bytes an exchange, the verdict depends only on the bytes since ReadyToReceive and the request last recorded, as stated there |
| Receive.ReceivedState | HCBI_API/RS485_demo2/app/src/main/java/com/example/rs485_demo/MainActivity.java:658-667 | ReadyToReceive followed by the bytes of a reply, with any events of the other port in between, leaves exactly those bytes |
| Receive.EchoIsAccepted | HCBI_API/RS485_demo2/app/src/main/java/com/example/rs485_demo/MainActivity.java:585-727 | any frame that a builder sends, echoed byte by byte after ReadyToReceive, with no other frame_init or timeout on that port in between and whatever happens on the other, is accepted if and only if its message holds slave address and function code, that is, it is not one of those requests, and the port's read thread has not died of more than 256 bytes before |
| Receive.EchoIsRejected | HCBI_API/RS485_demo2/app/src/main/java/com/example/rs485_demo/MainActivity.java:669-727 | such a request, after any history: the echo of F16 with length -3 is rejected |
| Receive.RepliesAnswerTheLastRequest | HCBI_API/RS485_demo2/app/src/main/java/com/example/rs485_demo/MainActivity.java:669-711 | every reply that would be accepted carries the id and function of the last request built for the port if and only if the recorded function is not 0: with 0, set by StopReceive or never overwritten, it need not |
| Receive.ZeroReplyIsAccepted | HCBI_API/RS485_demo2/app/src/main/java/com/example/rs485_demo/MainActivity.java:489-519 | with no request pending (as after sendRaw, which records none), a reply of id 0 and function 0 with a correct CRC is accepted |
| Receive.AcceptedWithoutRequest | HCBI_API/RS485_demo2/app/src/main/java/com/example/rs485_demo/MainActivity.java:669-711 | the smallest such case: before any request |
| HashProbe.TrimmedHashFitsCookie | RS485/tl/native_client/jni/utils/BasicHashtable.h:120-122 | a trimmed hash leaves the two flag bits of a bucket's cookie alone and can be read back from it |
| HashProbe.TrimmedBits | RS485/tl/native_client/jni/utils/BasicHashtable.h:120-122 | bit by bit: the two topmost bits of the hash are mixed into its two lowest, and the others stay |
| HashProbe.RotationHalvesAreDisjoint | RS485/tl/native_client/jni/utils/BasicHashtable.h:134-136 | the two shifted halves of the hash share no bits, so joining them is adding them |
| HashProbe.RotatedIsTurned | RS485/tl/native_client/jni/utils/BasicHashtable.h:134-136 | the rotation, computed with quotient and remainder, is the 32-bit word (h >> 7) | (h << 25) |
| HashProbe.ProbeIsLinear | RS485/tl/native_client/jni/utils/BasicHashtable.h:130-142 | for every 32-bit hash, every number of buckets and of steps: the bucket reached is (h + k*(t % (count-1) + 1)) % count, where t is the hash turned by seven bits |
| HashProbe.PrimeChainVisitsAll | RS485/tl/native_client/jni/utils/BasicHashtable.h:124-142 | for every prime bucket count and every 32-bit hash, the probe sequence visits every bucket exactly once in its first count steps |
| HashProbe.CompositeChainRepeats | RS485/tl/native_client/jni/utils/BasicHashtable.h:124-142 | for every composite count there is a hash whose sequence comes back early |
| HashProbe.ChainsVisitAllIffPrime | RS485/tl/native_client/jni/utils/BasicHashtable.h:124-142 | hence all sequences visit all buckets if and only if the count is prime |
| LruCache.BasicHashtable.Find | RS485/tl/native_client/jni/utils/BasicHashtable.h:268-282 | finds an entry with the key if there is one |
| LruCache.BasicHashtable.Add | RS485/tl/native_client/jni/utils/BasicHashtable.h:284-341 | the table gains the entry and keeps all others, each at a place of its own with its key, value and links; with room, where it was |
| LruCache.BasicHashtable.RemoveAt | RS485/tl/native_client/jni/utils/BasicHashtable.h:297-309 | exactly that entry goes, and nothing moves |
| LruCache.LruCache.AttachToCache | RS485/tl/native_client/jni/utils/LruCache.h:194-203 | appends the entry to the chain: afterwards parent and child pointers are inverse along it, from oldest to youngest |
| LruCache.LruCache.DetachFromCache | RS485/tl/native_client/jni/utils/LruCache.h:205-220 | takes the entry out of the chain, wherever it is, and clears its two pointers |
| LruCache.LruCache.Size | RS485/tl/native_client/jni/utils/LruCache.h:116-119 | the table's size is the length of the chain |
| LruCache.LruCache.Get | RS485/tl/native_client/jni/utils/LruCache.h:121-132 | returns the value, or the null value, and moves a pair that is hit to the young end |
| LruCache.LruCache.Put | RS485/tl/native_client/jni/utils/LruCache.h:134-155 | drops the oldest pair of a full cache first, even if the key then turns out to be present; otherwise appends the pair; in a table with room it never rebuilds the table, which ends the recursion with rehash |
| LruCache.LruCache.Remove | RS485/tl/native_client/jni/utils/LruCache.h:157-171 | reports and removes the pair of the key, if there is one |
| LruCache.LruCache.RemoveOldest | RS485/tl/native_client/jni/utils/LruCache.h:173-180 | the same for the oldest pair |
| LruCache.LruCache.Clear | RS485/tl/native_client/jni/utils/LruCache.h:182-192 | with a listener, reports exactly the pairs of the cache, in their order from the oldest; empties the cache |
| LruCache.LruCache.Rehash | RS485/tl/native_client/jni/utils/LruCache.h:222-233 | moves all pairs to a new table in their order; nothing is evicted or reported, and every entry is new |
| LruCache.LruCache.Replay | RS485/tl/native_client/jni/utils/LruCache.h:121-233 | any run of calls on a new cache keeps the heap invariant and acts as the run of the sequence specification, contents and listener calls |
| LruCache.VisitsAll | RS485/tl/native_client/jni/utils/LruCache.h:116-119 | a chain that visits the entries of the table once each is as long as the table is large |
| LruSpec.SizeIsBounded | RS485/tl/native_client/jni/utils/LruCache.h:134-138 | after every run, the size is at most a capacity other than 0 |
| LruSpec.PairsAreConserved | RS485/tl/native_client/jni/utils/LruCache.h:134-192 | over every run, the multiset of pairs put in successfully is that of the pairs still cached plus those reported |
| LruSpec.RunIsOrderedByUse | RS485/tl/native_client/jni/utils/LruCache.h:121-180 | after every run, every younger key has been used since the last use of every older one |
| LruSpec.ReportsAreOrderedByUse | RS485/tl/native_client/jni/utils/LruCache.h:134-192 | over every run, the pairs that one call reports come in the order of their last use |
| LruSpec.OldestLeaveFirst | RS485/tl/native_client/jni/utils/LruCache.h:134-192 | over every run, a pair that leaves by eviction or removeOldest is the one used longest ago: every key that stays has been used since |
| LruSpec.HitBecomesYoungest | RS485/tl/native_client/jni/utils/LruCache.h:121-132 | a get that hits moves its pair behind all others, which keep their order; one that misses changes nothing |
| LruSpec.PutBecomesYoungest | RS485/tl/native_client/jni/utils/LruCache.h:134-155 | a put of an absent key drops the oldest pair of a full cache and appends its own |
| LruSpec.NextLookup | RS485/tl/native_client/jni/utils/LruCache.h:121-192 | what any key leads to after any call, as for a map: only a put changes it to a value, only if the key was absent or just evicted, and then to the value put |
| LruSpec.LookupIsTheLastPut | RS485/tl/native_client/jni/utils/LruCache.h:121-192 | over every run, a key leads to a value if and only if a put of that value was accepted for it and its pair has not been reported since |
| LruSpec.PutOfPresentKey | RS485/tl/native_client/jni/utils/LruCache.h:134-155 | a put of a key that is present leaves the cache as it is and reports nothing exactly if the cache is not full |
| LruSpec.PutOfPresentKeyAccepted | RS485/tl/native_client/jni/utils/LruCache.h:134-155 | and it puts its pair in exactly if it is full and the key is that of the oldest pair, which it has just evicted |
| LruSpec.EvictionIsOfTheLeastRecentlyUsed | RS485/tl/native_client/jni/utils/LruCache.h:134-155 | a put evicts a key only if at least capacity - 1 different other keys, among them all that are cached, were inserted or hit since its own last insertion or hit |
| RingList.List.constructor | RS485/tl/native_client/jni/utils/List.h:163-165 | a new list is a ring of the sentinel alone |
| RingList.List.Insert | RS485/tl/native_client/jni/utils/List.h:210-219 | the new node stands before the given one, at its place among nodes and values; all other nodes keep theirs |
| RingList.InsertedPlaces | RS485/tl/native_client/jni/utils/List.h:210-219 | what insertion means, place by place: the new one at its place, those before it unmoved, the others one further |
| RingList.WithoutPlaces | RS485/tl/native_client/jni/utils/List.h:227-242 | what erasing means, place by place |
| RingList.SplicedPlaces | RS485/tl/native_client/jni/utils/List.h:221-225 | what inserting a range means, place by place |
| RingList.List.InsertRange | RS485/tl/native_client/jni/utils/List.h:221-225 | copies a range to the place, in order, from another list, which it leaves as it is, or from the list itself, unless the place lies after the range's start and not after its end |
| RingList.List.OwnRangeNeverEnds | RS485/tl/native_client/jni/utils/List.h:221-225 | in that case the loop has not reached the end of the range after any number of rounds, each of which adds a value |
| RingList.List.Erase | RS485/tl/native_client/jni/utils/List.h:227-235 | exactly that node is unlinked and deleted, and the next one returned |
| RingList.List.EraseRange | RS485/tl/native_client/jni/utils/List.h:237-242 | exactly the nodes of the range are deleted, once each, though each is read before it goes |
| RingList.List.Clear | RS485/tl/native_client/jni/utils/List.h:244-256 | every node but the sentinel is deleted, once, none is read afterwards |
| RingList.List.Distance | RS485/tl/native_client/jni/utils/List.h:268-282 | counts the places from one iterator to another; if the second comes first, the places of the walk through the sentinel |
| RingList.List.Size | RS485/tl/native_client/jni/utils/List.h:183-186 | the number of values |
| RingList.List.Empty | RS485/tl/native_client/jni/utils/List.h:180-181 | true exactly if there is no value |
| RingList.List.Copy | RS485/tl/native_client/jni/utils/List.h:166-169 | a copy has the same values in nodes of its own |
| RingList.List.Assign | RS485/tl/native_client/jni/utils/List.h:312-328 | the target has the values of the source, which is untouched; the first min(m, n) nodes of the target are reused, and exactly the surplus ones deleted; a list assigned to itself stays |
| RingList.OverlaidThenRest | RS485/tl/native_client/jni/utils/List.h:317-326 | overwriting as far as both lists go, then erasing or copying the rest, yields the values of the source |
| RefCount.EveryRunKeepsInv | RS485/tl/native_client/jni/utils/StrongPointer.h:112-200 | every interleaving keeps the invariant: each count is the number of owning sp objects and increments in flight |
| RefCount.CountsAndDeletions | RS485/tl/native_client/jni/utils/RefBase.h:173-204 | in every reachable state, an object is deleted at most once, by one thread, and has been or is being deleted if and only if it has been owned and the last owner is gone |
| RefCount.LastReleaseDeletes | RS485/tl/native_client/jni/utils/RefBase.h:181-185 | a decrement leads to the delete if and only if it leaves no owner |
| RefCount.OwnersHoldLiveObjects | RS485/tl/native_client/jni/utils/StrongPointer.h:112-200 | no owning sp, a thread's or a member of an object, ever holds an object that is deleted or being deleted |
| RefCount.NoUseAfterDelete | RS485/tl/native_client/jni/utils/StrongPointer.h:112-200 | no call is ever stuck, and no increment, decrement or delete touches a deleted object |
| RefCount.NewPointerStaysGood | RS485/tl/native_client/jni/utils/StrongPointer.h:146-174 | the pointer a call is going to store leads to a live object from its increment to its store, even if dropping the old pointer has destroyed the sp that it was read from |
| RefCount.PathsLeadToLiveObjects | RS485/tl/native_client/jni/utils/StrongPointer.h:112-200 | an object that a thread reaches from its own sp objects through members of objects is live |
| RefCount.MembersAreDestroyed | RS485/tl/native_client/jni/utils/StrongPointer.h:140-144 | over every run, the sp members of a deleted object are gone, and their references with them, by the time its thread is between calls again; from the delete on each is being destroyed, in that thread, until it is gone |
| RefCount.SelfAssignmentIsSafe | RS485/tl/native_client/jni/utils/StrongPointer.h:146-186 | as the new pointer is counted before the old one is dropped, assigning an sp to itself or to its own pointer never deletes the object, whatever other threads do meanwhile |
| RefCount.CountsAtRest | RS485/tl/native_client/jni/utils/StrongPointer.h:112-200 | when all threads are between calls, the count is the number of sp objects that point to the object, and it has been deleted exactly if there are none |
| RefCountCalls.AssignedPointer | RS485/tl/native_client/jni/utils/StrongPointer.h:146-174 | once an assignment from an sp is over, in every interleaving, the target holds the pointer that the source, be it a member reached by a path, held when it began |
| RefCountCalls.AssignedRaw | RS485/tl/native_client/jni/utils/StrongPointer.h:156-186 | the same for a plain pointer |
| RefCountCalls.ConstructedPointer | RS485/tl/native_client/jni/utils/StrongPointer.h:119-138 | the same for a constructor that copies |
| RefCountCalls.ConstructedRaw | RS485/tl/native_client/jni/utils/StrongPointer.h:112-131 | the same for a constructor from a plain pointer |
| RefCountCalls.ClearedPointer | RS485/tl/native_client/jni/utils/StrongPointer.h:194-200 | once clear is over, the sp holds nothing |
| RefCountCalls.DestroyedPointer | RS485/tl/native_client/jni/utils/StrongPointer.h:140-144 | an sp that is being destroyed is gone by the time its thread is between calls, and keeps its pointer until then |
| RefCountCalls.OneStepCalls | RS485/tl/native_client/jni/utils/StrongPointer.h:112-200 | a new object has count 0 and no owner; an sp that is handed over or becomes a member keeps its pointer |
| RefCountCalls.ThreadsMayCall | RS485/tl/native_client/jni/utils/StrongPointer.h:112-200 | the model lets every thread between calls make objects and construct, copy, assign, clear and destroy what it owns |
| RefCountCalls.CallsAreBounded | RS485/tl/native_client/jni/utils/RefBase.h:173-204 | however the threads are scheduled, the calls under way, with all destructors they lead to, take a bounded number of steps |
| RefCountCalls.CallsComplete | RS485/tl/native_client/jni/utils/RefBase.h:173-204 | from every reachable state all calls under way can be completed |
| AtomicWord.RunsAreLinearizable | RS485/tl/native_client/jni/cutils/atomic-x86.h:80-151 | in every interleaving of add, inc, dec, cas and the retry loops, the word is the fold of the completed calls in one order; each returned what it would have in that order; and the order respects real time |
| AtomicWord.LogIsOfCallsBegun | RS485/tl/native_client/jni/cutils/atomic-x86.h:80-151 | for each thread, the calls in that order are exactly the calls it has begun, in the order it began them, but for one that it may not have completed yet |
| AtomicWord.EntriesBegan | RS485/tl/native_client/jni/cutils/atomic-x86.h:80-151 | real time, over every run: every entry of the order is of a call that its thread began at some step of the run, and it comes after all calls that had returned before that step |
| AtomicWord.LogGrows | RS485/tl/native_client/jni/cutils/atomic-x86.h:80-151 | what has been ordered stays so as the run goes on |
| AtomicWord.FailedCasMeansProgress | RS485/tl/native_client/jni/cutils/atomic-x86.h:132-151 | a cas in a loop fails only if some other call has completed since its load |
| AtomicWord.RetriesAreBounded | RS485/tl/native_client/jni/cutils/atomic-x86.h:132-151 | a loop has failed at most as often as other calls have completed since it began |
| AtomicWord.TriesAreBounded | RS485/tl/native_client/jni/cutils/atomic-x86.h:131-151 | the same counted over the run: the calls returned before a call began and its failed tries together are at most the calls returned by now |
| AtomicWord.UndisturbedCallsReturn | RS485/tl/native_client/jni/cutils/atomic-x86.h:80-151 | any call returns within three steps of its thread if no other thread steps in between |
| AtomicWord.CallsTellWhatTheyFound | RS485/tl/native_client/jni/cutils/atomic-x86.h:80-151 | over every run: cas returns 0 exactly if it found the expected value and has stored the new one, and otherwise has stored nothing; add, and, or return what they found |
| AtomicWord.CombinedBits | RS485/tl/native_client/jni/cutils/atomic-x86.h:131-151 | for all 32 bits of the two's complement: what android_atomic_and stores has a bit exactly if word and mask both have it, what android_atomic_or stores exactly if one of them has |
| AtomicWord.OrsOnlySet | RS485/tl/native_client/jni/cutils/atomic-x86.h:142-151 | where calls only or, a bit is set exactly if it was at first or is in the mask of some completed call |
| AtomicWord.AndsOnlyClear | RS485/tl/native_client/jni/cutils/atomic-x86.h:131-140 | where calls only and, a bit is set exactly if it was at first and is in the masks of all completed calls |
| AtomicWord.NoUpdateIsLost | RS485/tl/native_client/jni/cutils/atomic-x86.h:109-117 | where calls only add, the word has changed by exactly the sum of the completed increments, in two's complement |
| AtomicWord.CountsAreExact | RS485/tl/native_client/jni/cutils/atomic-x86.h:119-129 | where calls are only inc and dec, the word has changed by the number of one less that of the other |
| MoveTypes.MoveForward | RS485/tl/native_client/jni/utils/TypeHelpers.h:176-198 | the objects arrive if and only if memmove is used, the ranges are empty or apart, or the destination lies ahead; then exactly the destination is live and holds them in order, constructors ran on raw slots only, and destructors once on each source slot, unless trivial |
| MoveTypes.MoveBackward | RS485/tl/native_client/jni/utils/TypeHelpers.h:200-218 | the same with the destination behind |
| MoveTypes.Memmove | RS485/tl/native_client/jni/utils/TypeHelpers.h:177-181 | the memmove branch leaves the same storage as the loops |
| MoveTypes.MoveOne | RS485/tl/native_client/jni/utils/TypeHelpers.h:186-195 | one object: refused if its slot is in use |
| MoveTypes.DestinationIsLive | RS485/tl/native_client/jni/utils/TypeHelpers.h:176-218 | after a move the destination holds the source's objects in order and is all of the two ranges that is live |
| MoveTypes.MoveBackRestores | RS485/tl/native_client/jni/utils/TypeHelpers.h:176-218 | moving back restores every slot |
| Bitmask.WordsAreJustEnough | RS485/tl/native_client/jni/cutils/bitops.h:48-49 | BITS_TO_WORDS is the least number of words with room for the bits |
| Bitmask.LiveIsDigit | RS485/tl/native_client/jni/cutils/bitops.h:50-52 | an id is live exactly if the binary digit id % 32 of word id / 32 is 1 |
| Bitmask.Init | RS485/tl/native_client/jni/cutils/bitops.h:54-57 | no id in the words of the mask is live |
| Bitmask.Ffz | RS485/tl/native_client/jni/cutils/bitops.h:59-76 | the least id below num_bits that is not live, or -1 exactly if all are |
| Bitmask.Weight | RS485/tl/native_client/jni/cutils/bitops.h:78-86 | the number of live ids in all words of the mask |
| Bitmask.WeightIsExact | RS485/tl/native_client/jni/cutils/bitops.h:78-86 | that is the number below num_bits if and only if no id beyond is live |
| Bitmask.Set | RS485/tl/native_client/jni/cutils/bitops.h:88-91 | exactly that id becomes live |
| Bitmask.Clear | RS485/tl/native_client/jni/cutils/bitops.h:93-96 | exactly that id ceases to be |
| Bitmask.Test | RS485/tl/native_client/jni/cutils/bitops.h:98-101 | tells whether the id is live |
| Bitmask.PopcountCounts | RS485/tl/native_client/jni/cutils/bitops.h:83-85 | popcounts of words add up to numbers of ids |
| Bitmask.AllocateId | RS485/tl/native_client/jni/cutils/bitops.h:36-42 | ffz, then set: the least free id becomes live, and no other |
| Bitmask.LiveIdsAreNotHandedOut | RS485/tl/native_client/jni/cutils/bitops.h:36-42 | over every run, an id is handed out a second time only if it has been cleared in between |
| Bitmask.Replay | RS485/tl/native_client/jni/cutils/bitops.h:36-101 | after any run of calls with ids below num_bits, the mask holds exactly the ids of the run, and its weight is their number |

## Left out

- Serial port reads and writes, CountDownTimer, thread start and logging: they appear as the steps "a byte arrived"
  and "timeout"; each step is atomic, and `data_tx` is not shared between threads.
- RS485 demo: sendRaw, which only writes to the port, and all of the user interface.  A null array argument of a
  builder is not distinguished from an empty one.
- LruCache.BasicHashtable.Add: whether an entry lands in a bucket that counts as filled already, and by how much
  a full table grows, is left open, because the bodies of BasicHashtableImpl are not part of this model; an index is
  represented by the entry it leads to.  Hash values, load factors, iteration and SharedBuffer copies are left out with
  them.
- LruCache.LruCache.Put: size_t and the table's capacity are unbounded, so that doubling never overflows.
- LruCache.LruCache.Remove: which listener is set does not matter, only whether one is; it does not call the cache
  back.
- HashProbe.PrimeChainVisitsAll: index plus increment is taken not to overflow size_t.
- RingList.List.InsertRange: constructors, destructors and assignments of the values run no code of their own.
- RefCount.CountsAndDeletions: counts are unbounded.  An sp that has become a member of an object is not assigned to
  until that object is deleted, as threads that share the object could then race for it; members are destroyed in any
  order, not just in that of their declaration.  A plain pointer may be wrapped only by the thread that made the object
  or that reaches it from an sp of its own.  force_set is left out: it needs the RefBase counts.
- AtomicWord.RunsAreLinearizable: memory is sequentially consistent; the plain loads and stores with barriers add
  nothing to that and are left out, as are the ARM and MIPS variants.
- MoveTypes.MoveForward: an object with a trivial destructor counts as gone once it has been copied from; construct,
  destroy, copy and splat are plain loops that would only add easy members.
- Bitmask.AllocateId: the usage comment at bitops.h:38-39 sets whatever ffz returned, which is out of bounds for -1;
  the model sets nothing then.
- Bitmask.Init: there is no bounds checking in the source; callers supply enough words, and num_bits is not negative.
- wp, the weak counts and attemptIncStrong of RefBase, UniquePtr, and the declarations of Binder, Looper, Vector and
  String classes: their bodies are not part of this model.
- EthernetDemo, camera, LCD, GPIO, infrared and audio demos: user interface, and calls into device
  libraries whose code is not part of this model.
