# Verified model of the Omnicomm communicator

The communicator receives telemetry from vehicle controllers over TCP, acknowledges it so
that the controllers may delete it, and hands the decoded records to a storage thread. This
project models the protocol stack between the socket and the storage backend and proves
what it is for:

* **Bytes to frames** (`Escape`, `Frames`, `Receiver`). The un-escaper, whose state survives
  between network reads, and the resumable scan of its buffer refine one pure parser of the
  whole stream, however the stream is cut; encoded messages with gaps come out exactly.
* **Checksum** (`Bits`, `CrcTable`, `Crc`, `CrcValues`). The table-driven CRC-16 is bit-serial division by
  the V.41 generator; every burst of at most sixteen bits and every odd number of flipped
  bits is detected, at any length.
* **Handlers and sessions** (`Handlers`, `System`, `Records`, `Labels`, `Connection`,
  `Network`, `Dialogue`). Any number of sessions share one counter map and interleave handler
  by handler. No record is deleted before it is taken in and all its events are queued;
  requests never outnumber identifications. Every interleaving of network reads on many
  connections is such a run, so the theorems hold of bytes. A record without events leaves
  nothing in the queue and is deleted all the same; when that happens is stated exactly. A
  whole dialogue is followed from the bytes of the controller to the replies while the rest
  of the program goes on.
* **Record chain and queue** (`InfoPackage`, `Queue`, `Backend`, `Intake`, `Server`). The
  length-prefixed chain tiles its block; the bounded queue conserves messages in order through
  every interleaving with a worker whose batch may be cut short. Put together with the connections: each event of
  each deleted record is saved, being worked off, queued, or dropped with a cut batch.
* **Record codec** (`WireFormat`, `Messages`, `RecReg`, `Parse`, `Serializer`, `Sizes`,
  `WorkedExamples`). All eight generated message types, as field tables that carry the
  constants of the generated code. Tag prediction changes nothing, concatenation is merge,
  sizes are exact, has-bit masks never hide a set field. The look-ahead of the runtime after a
  single value of a packed field does change what is read; when it does is stated exactly.

`Protocol` and `Backend` hold the classes whose methods update fields as the source does.
Their contracts equate the new state with the functions of `Handlers`, `Intake` and `Queue`,
and the lemmas are about those functions.

Reading notes:

* A byte is an integer below 256; the 16-bit CRC register is its bits, most significant
  first. `uint32` arithmetic wraps explicitly; signed overflow in `mes_number + i` is taken
  to wrap as well.
* A C++ exception is the outcome `Threw` (a returned `threw` in `Backend`). `room` is the
  number of entries the queue takes of one frame before `add_message` throws. In `System`
  and `Network` each frame has any room, because the storage thread may drain the queue at
  any moment; sessions interleave between handlers in `System` and between reads in
  `Network`, as one thread runs all handlers.
* `Connection` and `Dialogue` follow one connection in an arbitrary `Environment`: before
  each frame counters and room may be anything. It is a function of the number of frames
  handled, so every course of events is one such function. The dialogue asks of it that no
  other session moves the counter of this controller and that each batch fits when its own
  frame comes.
* In the class the storage thread works too: before each call of `add_message` gets the lock
  it takes the steps that a `Schedule` names. The contract of `ReciveImpl` is `ReadInto`,
  the read of one connection into that queue; `Intake` shows it to be a read of `Connection`
  with the rooms its frames find, and a run of `Queue`.
* The server asks for the next read before it hands the current one to the protocol, so a
  read that is already complete can reach a connection after it was stopped. It is processed
  like any other, and after an exception the frames still in the buffer are handled again.
  `ReciveImpl`, `ReceiveData`, `System` and `Network` cover this; the theorems on cutting
  the input (`Receiver`, `WholeConnection`) are about the input up to the first stop.
* A queued message is kept as the parts its text is made of (controller, firmware, label,
  event identifier, decoded record).
* Where a data frame has seven or eight data bytes, `check_length` passes but
  `get_im_length` wraps around and the parser reads on beyond the frame; the outcome is
  `Undefined`. A method that meets it returns at that point, a run is `lost` from there on
  with everything else as it was before, and nothing is claimed of what the source then
  does. `UndefinedExactly` shows there is no other such frame.
* `send` writes the CRC low byte first and `get_crc` reads it high byte first. The round trip
  therefore encodes in the receiver's order, and `OwnFrameAccepted` says when the program
  would accept its own output.
* The header comments call `last_mes_number` the number of the last record, and requests and
  deletions use it so: the records of a frame with `k` records are numbered from
  `last_mes_number - k + 1`. The queued labels instead count events back from
  `last_mes_number - 1`. A record may carry any number of events, none included, and a record
  that does not parse is not an error. So labels tell records only where every record carries
  exactly one event (`LabelsNumberRecords`); `Records` is about records, `Labels` about labels.
* Constants, byte orders and signs are fixed by statements about given bytes, next to the
  functions and in `CrcValues` and `WorkedExamples`; round trips alone would allow any pair of
  inverse functions.
* A message object of the codec holds has-bits and values in table order; the has-bit words
  are their bits, and a mask is the test whether one of eight bits is set.
* A single value of a packed field is read by a runtime routine that is handed the packed
  tag. As in the 2.4 runtime the code was generated for, the routine goes on while that tag
  follows and the list has storage left (`Spare`), and so takes the length of a packed list
  for a value. Theorems about parsing hold for every `Spare`; `GROWTH` is that of a list
  that starts with room for four and doubles. Nothing the serializer writes triggers it.

## Model

| member | source | states |
|---|---|---|
| Crc.TableHoldsRemainders | omnicomm/utils.cpp:22-55 | each of the 256 table entries is the remainder of its index after eight division steps |
| Crc.ComputeCrc16 | omnicomm/utils.cpp:62-67 | the table loop equals bit-by-bit division by the V.41 generator from the all-ones register, for every byte string |
| Crc.Residue | omnicomm/utils.cpp:62-67 | appending two bytes brings the register to zero if and only if they are the CRC, high byte first |
| CrcValues.EmptyChecksum | omnicomm/utils.cpp:63 | the checksum of no data is sixteen ones |
| CrcValues.CheckValue | omnicomm/utils.cpp:62-67 | the checksum of the ASCII digits 1 to 9 is 0x29B1 |
| CrcValues.StartComplements | omnicomm/utils.cpp:62-67 | from two bytes on it is division from the zero register with the first sixteen bits complemented |
| Crc.BurstDetected | omnicomm/utils.cpp:62-67 | two different equal-length strings of any length that differ only within sixteen consecutive bits have different checksums |
| Crc.TwoBytesDetected | omnicomm/utils.cpp:62-67 | a change confined to two neighbouring bytes is always detected |
| Crc.OddErrorsDetected | omnicomm/utils.cpp:62-67 | any odd number of flipped bits, wherever they are, is detected |
| Frames.CheckCrcIsResidue | omnicomm/transport_messages.hpp:60-71 | a frame is accepted if and only if its bytes after the prefix, trailer included, leave remainder zero |
| Frames.AcceptedIsMade | omnicomm/transport_messages.hpp:40-76 | every accepted frame is the encoding of its own command and data |
| Frames.MakeFrameAccepted | omnicomm/transport_messages.hpp:40-76 | the encoding of a command and data is accepted and gives both back |
| Bytes.LittleEndian | omnicomm/transport_messages.hpp:37-40 | integer fields have their least significant byte first |
| Frames.Layout | omnicomm/transport_messages.hpp:33-75 | marker 0xC0, command, two-byte length, data, and two bytes of checksum, high one first |
| Frames.ImLengthMeaningful | omnicomm/transport_messages.hpp:88-92 | among frames that pass check_length, the record block lies inside the data if and only if the data has at least nine bytes |
| Escape.WireEscaped | omnicomm/protocol.cpp:482-519 | on the wire 0xC0 stands only first, every 0xDB is followed by its code, and n bytes become n+2 to 2n+3 |
| Escape.EscapeCodes | omnicomm/protocol.cpp:508-557 | 0xC0 is sent as DB DC and 0xDB as DB DD; an escape byte without a code is kept with what follows it |
| Escape.WireRecovered | omnicomm/protocol.cpp:482-557 | un-escaping what was sent gives the message and its two CRC bytes, ending in the normal state |
| Escape.AnySplit | omnicomm/protocol.cpp:525-557 | the un-escaper fed in pieces gives what the whole input gives |
| Escape.OwnFrameAccepted | omnicomm/protocol.cpp:482-502 | a frame emitted by send passes check_crc exactly when the two bytes of its CRC are equal |
| Receiver.FrameAlone | omnicomm/transport_messages.hpp:60-75 | length and checksum of a frame depend on no byte outside it |
| Receiver.ScanFrames | omnicomm/protocol.cpp:198-251 | everything handed over is a complete frame with a valid checksum |
| Receiver.ScanTiles | omnicomm/protocol.cpp:198-256 | the scanned bytes are the frames handed over, each after a marker-free gap, and then what is kept |
| Receiver.RetainedShape | omnicomm/protocol.cpp:195-256 | what is kept is a marker-free prefix followed by nothing or an incomplete frame of at most 65540 bytes |
| Receiver.ScanAppend | omnicomm/protocol.cpp:198-256 | scanning a longer buffer is scanning its first part and then what that left together with the rest |
| Receiver.ChunkingIndependence | omnicomm/protocol.cpp:189-258 | frames, stop and final receiver state depend only on the concatenation of all reads |
| Receiver.ParsesTheStream | omnicomm/protocol.cpp:189-258 | any sequence of reads from a new connection gives what the pure parser gives on the whole stream |
| Receiver.StreamRoundTrip | omnicomm/protocol.cpp:189-258 | encoded messages with marker-free gaps, cut anywhere, give exactly their frames in order, and an empty receiver if there is no trailing gap |
| Connection.WholeConnection | omnicomm/protocol.cpp:189-258 | what a connection queues, counts, sends and how it ends do not depend on how its input is cut, while other sessions and the storage thread act between its frames |
| Connection.EncodedMessagesHandled | omnicomm/protocol.cpp:189-300 | a stream of encoded messages in any pieces has the effect of handling its frames one by one, in any environment |
| Network.ReadIsRun | omnicomm/protocol.cpp:189-300 | one network read has on sessions, counters, queue and replies the effect of a run of deliveries, also after a stop |
| Network.ReadsAreRuns | omnicomm/protocol.cpp:189-300 | every interleaving of reads on many connections is a run of the session-level system |
| Network.NoRecordLostInReads | omnicomm/protocol.cpp:189-459 | whatever bytes arrive in interleaved reads, if data frames start no later than counter + 1 by their count of records, every record covered by a counter or a sent deletion was carried by a frame all of whose events are queued |
| Network.ReadsLeaveEntriesExactly | omnicomm/info_package.cpp:94-106 | over interleaved reads every deleted record has left an entry if and only if every one carries an event |
| Network.RequestsAccountedInReads | omnicomm/protocol.cpp:189-476 | over interleaved reads no connection is sent more requests than its identifications accepted, and every reply carries the right number |
| Network.NothingLostFromStart | omnicomm/protocol.cpp:189-459 | the same for records, for a server that starts with the counters of an earlier run |
| Network.DeletionsCoverCarried | omnicomm/protocol.cpp:128-141 | no deletion and no counter goes beyond what was carried, above the number the server started with for the controller, zero where it had none |
| Network.NewServerLosesNothing | omnicomm/protocol.cpp:128-141 | a server without counters deletes only records from 1 on that frames have carried |
| Network.RequestsAccountedFromStart | omnicomm/protocol.cpp:189-476 | the same for requests and replies, from the start and without any assumption |
| Server.ServerIsNetwork | omnicomm/protocol.cpp:189-459 | connections beside a working storage thread behave as the network whose frames meet the rooms found |
| Server.ServerIsQueueRun | backends/base.cpp:46-151 | and the queue behaves as a run of its step system, with the same messages accepted in the same order |
| Server.DeletedRecordsTraced | omnicomm/protocol.cpp:365-459 | from bytes to storage: each event of each deleted record was queued and is saved, in work, queued, or dropped with a cut batch |
| Dialogue.DialogueHandled | omnicomm/protocol.cpp:306-476 | identification, confirmation, archive frames and end of archive give exactly the specified replies, queue entries, counter and phase, while other counters and the queue change at will |
| Dialogue.OpeningReplies | omnicomm/protocol.cpp:330-359 | a controller without a counter is asked for everything and told to delete nothing; one with a counter is told to delete up to it and asked for what follows |
| Dialogue.DialogueEndToEnd | omnicomm/protocol.cpp:189-476 | the same from the raw bytes, with gaps and any cutting |
| Handlers.FailureIsAtomic | omnicomm/protocol.cpp:264-300 | a handler that throws leaves session and counters as they were, sends nothing, and has queued nothing or a prefix of the frame cut where the room ended |
| Handlers.UndefinedExactly | omnicomm/transport_messages.hpp:128-130 | the undefined case is exactly a data frame with seven or eight data bytes |
| Handlers.ThrewExactly | omnicomm/transport_messages.hpp:88-92 | a handler throws exactly on a frame too short for its command, a malformed chain, or too little room |
| Handlers.IdentEffect | omnicomm/protocol.cpp:330-359 | session, replies and phase after an identification, by the bytes of the frame |
| Handlers.ConfirmEffect | omnicomm/protocol.cpp:306-324 | a confirmation acts only while the first one is awaited, and otherwise sends nothing |
| Handlers.ArchiveEndEffect | omnicomm/protocol.cpp:369-377 | the end of the archive sends the deletion up to a nonzero counter |
| Handlers.DataEffect | omnicomm/protocol.cpp:379-410 | a data frame taken in full moves the counter; current data is answered with the deletion and ends the session's work |
| Handlers.OthersIgnored | omnicomm/protocol.cpp:266-286 | any other command changes nothing |
| Handlers.LabelsConsecutive | omnicomm/protocol.cpp:416-431 | entry i of a frame with n entries carries label number last - n + 1 + i, under the session's controller, with its own content |
| Records.NoRecordLost | omnicomm/protocol.cpp:365-459 | over every interleaving, if data frames start no later than counter + 1 by their count of records, every record above the first counters and covered by a counter or a sent deletion was carried by a frame all of whose events are queued, overflow included |
| Records.SafeExactly | omnicomm/protocol.cpp:365-410 | a data frame keeps that guarantee if and only if the records it skips were carried before |
| Records.DeletedIsQueued | omnicomm/info_package.cpp:78-111 | every event of a deleted record stands in the queue log, in its place and order, under its controller |
| Records.EmptyRecordDeleted | omnicomm/protocol.cpp:395-410 | an input on which a record is deleted and nothing is queued: a record of no bytes |
| Records.DeletedHasEntryExactly | omnicomm/info_package.cpp:94-106 | every deleted record has left an entry if and only if every one of them carries an event |
| Records.EventfulNotLost | omnicomm/protocol.cpp:365-459 | over every run, if all records sent carry events, each deleted record has an entry of its own |
| Records.LabelMisleads | omnicomm/protocol.cpp:422-431 | inputs on which the label of one record is on an event of the next |
| Records.LabelsNumberRecords | omnicomm/protocol.cpp:422-431 | the labels of a frame are the numbers of its records if and only if every record carries exactly one event |
| Labels.NoLabelMissing | omnicomm/protocol.cpp:365-459 | over every interleaving, if the labels of data frames start no later than counter + 1, every label up to a counter or a sent deletion has been given out |
| Labels.LabelsExactly | omnicomm/protocol.cpp:365-410 | a data frame keeps that guarantee if and only if the labels it skips were given out before |
| System.RequestsAccounted | omnicomm/protocol.cpp:306-410 | requests sent, plus one while the initial confirmation is awaited, never exceed identifications accepted |
| System.RunRepliesRight | omnicomm/protocol.cpp:445-476 | every request carries 0 or counter + 1 modulo 2^32, every deletion the current nonzero counter |
| Labels.LabelsGapless | omnicomm/protocol.cpp:416-431 | in any interleaving, where a session's queueing frames are taken in full, its labels form one run without gaps if and only if each frame's labels start where the previous ones ended |
| Labels.DownloadGapless | omnicomm/protocol.cpp:416-431 | frames whose records adjoin and carry one event each give labels without gaps |
| Labels.OwnAmongAccepted | omnicomm/protocol.cpp:426-431 | the entries of a session are, each once and in order, among those the run adds to the queue |
| Labels.LabelIsNumber | omnicomm/protocol.cpp:423-428 | below 2^31 the n-th label is n - 1 |
| Protocol.ReplyReadBack | omnicomm/transport_messages.hpp:105-144 | what is sent for a reply un-escapes to one frame of ten bytes with its command, length four and the number, least significant byte first |
| Protocol.Counterer.GetLastCounter | omnicomm/protocol.cpp:128-141 | the stored counter, and zero for an unknown controller |
| Protocol.Counterer.SetLastCounter | omnicomm/protocol.cpp:147-155 | exactly one counter is overwritten |
| Protocol.TransportProtocol.StoreData | omnicomm/protocol.cpp:525-557 | appends the un-escaped input to the buffer and keeps the pending escape |
| Protocol.TransportProtocol.StuffByteToBuffer | omnicomm/protocol.cpp:508-519 | appends the byte in escaped form |
| Protocol.TransportProtocol.Send | omnicomm/protocol.cpp:482-502 | one transmission: raw first byte, escaped rest, escaped CRC low byte first; nothing for no data |
| Protocol.TransportProtocol.SendDelete | omnicomm/protocol.cpp:445-459 | sends the deletion for a nonzero counter, otherwise nothing |
| Protocol.TransportProtocol.SendRequest | omnicomm/protocol.cpp:465-476 | sends one request for what follows the counter |
| Protocol.TransportProtocol.ProcessInfoMessages | omnicomm/protocol.cpp:416-431 | queues the frame's entries in order until the queue is full, while the storage thread works; a malformed chain queues nothing; undefined without a block |
| Protocol.TransportProtocol.ProcessDeleteConfirmation | omnicomm/protocol.cpp:306-324 | effect of the handler on session, counters, queue and replies |
| Protocol.TransportProtocol.ProcessControllerIdent | omnicomm/protocol.cpp:330-359 | effect of the handler; too short a frame throws with nothing changed |
| Protocol.TransportProtocol.ProcessArchiveData | omnicomm/protocol.cpp:365-389 | effect of the handler; the counter moves only after the whole frame is queued |
| Protocol.TransportProtocol.ProcessCurrentData | omnicomm/protocol.cpp:395-410 | effect of the handler; the deletion goes out only after the whole frame is queued |
| Protocol.TransportProtocol.ProcessMessage | omnicomm/protocol.cpp:264-300 | dispatch in any phase; a throwing handler stops the client |
| Protocol.TransportProtocol.TakeFrame | omnicomm/protocol.cpp:198-251 | one turn of the scan: too few bytes, a bad checksum stops the client, or one frame is handled and the rest remains |
| Protocol.TransportProtocol.ReciveImpl | omnicomm/protocol.cpp:189-258 | the whole new state, the queue's included, is that of the pure receiver beside the storage thread, for any input and also after a stop; nothing is erased when a handler throws |
| Intake.ReadIntoIsRead | omnicomm/protocol.cpp:189-258 | a read beside the storage thread is a read whose frames meet the rooms they find |
| Intake.ReadAdds | backends/base.cpp:46-151 | it is a run of the queue, which gains exactly what the connection queued, in order |
| InfoPackage.ChainRoundTrip | omnicomm/info_package.cpp:73-112 | every list of records is recovered in order |
| InfoPackage.ChainTiles | omnicomm/info_package.cpp:73-112 | the parse finishes only on a concatenation of length-prefixed records |
| InfoPackage.ChainUnique | omnicomm/info_package.cpp:73-112 | the decomposition is unique |
| InfoPackage.OddByteRejected | omnicomm/info_package.cpp:80-85 | a leftover odd byte always throws |
| InfoPackage.OverlongRejected | omnicomm/info_package.cpp:80-85 | a record longer than what is left always throws |
| InfoPackage.ResponseRoundTrip | omnicomm/transport_messages.hpp:121-131 | a data frame carries any list of records of total size up to 65526 bytes |
| InfoPackage.DecodeSerialized | omnicomm/info_package.cpp:90-96 | a record that is a serialized message decodes to that message |
| InfoPackage.MessageAt | omnicomm/info_package.cpp:94-106 | the message for event i of record k carries that event and that record, after those of the records before |
| InfoPackage.ChainBytes | omnicomm/transport_messages.hpp:159-165 | a record stands behind the count of its bytes, low byte first, the two bytes not counted |
| InfoPackage.BlockLayout | omnicomm/transport_messages.hpp:121-131 | the last record number is at byte 4 and the records from byte 13 up to the checksum |
| InfoPackage.ParseInfoPackage | omnicomm/info_package.cpp:73-112 | throws exactly on a malformed block, otherwise appends one message per event identifier of each record, in order; undefined exactly where there is no block |
| InfoPackage.LookAheadHarms | omnicomm/message.pb.cc:4736-4740 | an input for which reading ahead turns events 5 and 7 into 5 and 1 and a failed parse |
| Queue.RunConserves | backends/base.cpp:46-151 | in every interleaving, added splits in order into saved or dropped, in flight and queued; each message is saved at most once |
| Queue.FromTheStart | backends/base.cpp:46-151 | from the empty queue every interleaving is accounted for, without drops unless a batch is cut, within an unchanged capacity |
| Queue.NothingDropped | backends/base.cpp:100-151 | if no batch is cut short, added = saved ++ in flight ++ queued |
| Queue.NeverOverfull | backends/base.cpp:46-61 | the queue never exceeds an unchanged capacity |
| Queue.EndedForGood | backends/base.cpp:145-146 | a worker interrupted in its sleep saves and drops nothing any more |
| Queue.SaveEffects | backends/base.cpp:126-129 | a save that returns counts also if the worker is interrupted after it, one that throws does not |
| Queue.FillIsRun | backends/base.cpp:46-151 | a series of calls of add_message with the storage thread in between is a run that adds exactly what was accepted |
| Backend.BaseImpl.AddMessage | backends/base.cpp:46-61 | throws exactly when the queue is full once the lock is held and then adds nothing, otherwise appends |
| Backend.BaseImpl.WorkTurn | backends/base.cpp:100-151 | one turn of the worker, with producers adding at every point, is a run of the step system: the queue is taken, a prefix of the batch saved, the rest dropped, cut where a call failed, and what arrived meanwhile is queued |
| Messages.MergeEmpty | omnicomm/message.pb.cc:5086-5113 | a fresh message is the identity of merging |
| Messages.MergeFields | omnicomm/message.pb.cc:1021-1070 | field by field: a set scalar wins, lists are appended, groups merged |
| Messages.MergeAssociates | omnicomm/message.pb.cc:5086-5113 | merging is associative, through nested groups |
| RecReg.RecRegWellFormed | omnicomm/message.pb.cc:4994-5072 | every tag, width and mask constant of all eight message types is right, numbers ascending |
| RecReg.KindsOfFields | omnicomm/message.pb.cc:489-728 | which fields of all types are signed, text, or lists |
| WireFormat.ZigZagSign | omnicomm/message.pb.cc:1619-1626 | signed numbers alternate: odd codes are negative, the magnitude is half the code rounded up |
| WorkedExamples.ConfirmationReceived | omnicomm/transport_messages.hpp:33-75 | the ten bytes of a confirmation are one frame to the receiver, with its number |
| WorkedExamples.PositionRecordBytes | omnicomm/message.pb.cc:1613-1728 | the bytes 2B 08 02 10 01 18 96 01 2C are a position with latitude 1, longitude -1 and speed 150, both ways |
| WorkedExamples.TextAndLists | omnicomm/message.pb.cc:4922-4992 | bytes of text, of a packed list, and of repeated text |
| WorkedExamples.LastValueWins | omnicomm/message.pb.cc:1613-1728 | of two values for one field the last one counts |
| WorkedExamples.GroupMustEnd | omnicomm/message.pb.cc:4751-4757 | a group ends with its own end tag or the parse fails |
| Parse.FollowPredictions | omnicomm/message.pb.cc:489-728 | the chain of predicted tags after a field does what the plain loop does |
| Parse.MergePartialFromCodedStream | omnicomm/message.pb.cc:4722-4860 | the method with tag prediction accepts the same inputs and builds the same message, has-bits included, as a plain loop, for any input and any storage of its lists |
| Parse.LookAheadExactly | omnicomm/message.pb.cc:4736-4740 | reading a single value of a packed field gives what the wire format asks for if and only if no packed tag follows it or no storage is left |
| Parse.CalmParse | omnicomm/message.pb.cc:4736-4740 | if no single value of a packed field is followed by its packed tag, at any depth, every storage gives the message the wire format asks for |
| Parse.UnknownFieldIgnored | omnicomm/message.pb.cc:4845-4855 | a well-formed field of unknown number or other wire type, nested at will, changes nothing |
| Serializer.ParseSerialized | omnicomm/message.pb.cc:4922-4992 | serialize(b) in front of any further input merges b into the message being parsed |
| Serializer.ConcatenationIsMerge | omnicomm/message.pb.cc:4722-4860 | parsing serialize(a) then serialize(b) is MergeFrom of a then b |
| Serializer.MessageRoundTrip | omnicomm/message.pb.cc:4922-4992 | a fresh message parsed from serialize(a) is a |
| Sizes.MaskCovers | omnicomm/message.pb.cc:893-996 | a has-bit mask that is clear hides no set field |
| Sizes.ByteSize | omnicomm/message.pb.cc:4994-5072 | the exact serialized length, and a cache that is right for the serializer |
| Sizes.SerializeWithCachedSizesToArray | omnicomm/message.pb.cc:4922-4992 | with a fresh cache, appends exactly the serialization |
| Sizes.SerializeToArray | omnicomm/message.pb.cc:4922-5072 | the bytes written are as many as ByteSize said, and parse back to the message |
| Sizes.MergeFrom | omnicomm/message.pb.cc:1021-1070 | merging under masks is merging of every field |
| Sizes.Clear | omnicomm/message.pb.cc:458-487 | resetting under masks leaves a fresh message |

## Left out

- Protobuf runtime: unknown-field sets (skipped, not kept), reflection, recursion limits and UTF-8 checks are library internals; the wire primitives follow the Protocol Buffers encoding specification, so a packed length beyond the input is an error.
- Partly read values: after a failed parse the source goes on with whatever was merged; the model keeps complete values and, for a string cut short, the bytes that were there.
- Codec objects: messages are values that methods take and return, so update in place and pointers between nested message objects are not captured; cached sizes are returned by ByteSize and passed to the serializer instead of stored in the message.
- Text of queued messages: the extract functions and string formatting of `info_package.cpp` are replaced by the decoded record itself.
- Files: `load_counters` and `save_counters` swallow their errors; the initial counter map is a parameter.
- Network plumbing: sockets, strands, buffers, timers, the accept loop and reads of a whole buffer, which are rejected; sending appends to a log and stopping sets a flag.
- Storage backends and factory: `begin_batch`, `save_message_impl` and `end_batch` are calls that succeed or throw; the size of the previous batch passed to `begin_batch` is not modelled.
- Worker thread: `start`, `stop` and joining; that an interruption caught inside a batch does not end the worker is modelled, that `stop` may then wait is not.
- Second parser: the `info_protocol_t` class, which is not wired in.
- Logging, settings, daemon mode, `otime_to_string`, `to_hex_string`; trace lines read the message number of a confirmation without a length check, which has no effect here.
- Recovery after a checksum failure and delivery of queued messages to a database: the code does not provide them.
