# A verified model of the DTC/TTC cache server, agent and configuration master

DTC/TTC is a key-value cache server, a proxy agent in front of it and a master that hands
configurations to the agents. This project models the parts of it that carry long-running
obligations, and proves what each part promises, for all inputs and all runs.

| file | what it models |
|---|---|
| Basics.dfy | 32-bit integers and other shared definitions |
| BarrierProtocol.dfy, BarrierUnit.dfy | the per-key serialiser of the cache: a protocol over arrive and reply events, and the hash table with free list that implements it |
| TxtEscape.dfy, TxtHex.dfy, TxtNumber.dfy, TxtRow.dfy, TxtDump.dfy | the text dump: writer, reader and the decoders that work in place in the line buffer |
| Sender.dfy, Receiver.dfy | the agent's packet transport over a socket that takes and gives any number of bytes |
| LittleEndian.dfy | the 32-bit fields of packet and frame headers |
| XBuffer.dfy, ProtocolInput.dfy, ProtocolHandler.dfy | the administration protocol of the master: buffer, framing, message queue |
| Flush.dfy | reference-counted flush requests and the flush rate controller |
| ConfigPush.dfy | agents that download configurations from a master over connections that may drop |
| FrontWorker.dfy, CacheServer.dfy, ConfigChecksum.dfy | the agent's request accounting, connection choice, and configuration validation and checksum |

Each part has the same layout. A pure module states the operations on values and proves the
laws. A module with classes follows the source's own loops and updates, and each of its methods
is proved against the pure functions, so that the laws hold of the objects in every run. The
environment is explicit: the kernel takes and gives any part of a stream, downstream answers
only requests it holds, a task arrives once, and versions given to the master never decrease.

`dafny verify dfyconfig.toml` checks everything.

## Promises the code keeps only in part

For each of these one member shows the code failing and another says when it does not.

- `xbuffer::tidy` moves the unread bytes to the front and lowers the write position, but leaves
  the read position (src/3rdparty/net/xbuffer.h:92-99). It loses nothing exactly when the read
  position is 0 (`TidyKeeps`, `TidyLoses`). `ensure_capacity` computes the new size in 32 bits, so
  growing to 2^32 bytes or more cuts the block below its contents. It keeps the unread bytes
  exactly unless it tidies or the size wraps (`EnsureCapacityKeeps`).
- So `handle_input` keeps the stream exactly when no read ends inside a frame after a complete
  one, and the announced length, with what is there, stays below 2^32 bytes (`InputStep`,
  `InputRun`). The first fails for a read that ends inside a header (`TornRead`,
  `CutInsideHeaderTears`), the second for a single valid header (`HugeLengthShrinks`,
  `HugeLengthExists`).
- `handle_output` keeps it exactly unless some queued message comes up while fewer than 4096
  bytes are buffered and does not fit behind the ones before it, but does with the room of the
  bytes already sent, or else takes the block to 2^32 bytes (`TearsExactly`, `HandleOutput`,
  `SecondMessageTears`).
- A row comes back from the text dump exactly when its printed strings hold no NUL and field 0 is
  discarded, prints as something, or all printed fields print as nothing (`RowRoundTrip`,
  `FileRoundTrip`, `EmptyFirstFieldLost`).
- The receiver takes a packet with an empty body for a closed connection, because the
  zero-length `recv` after its header returns 0 (`GetData`, `Receiver.Recv`).
- `m_downloading` says when a download is outstanding unless the full send queue refused the
  request, whose result is ignored (src/agent/heartbeat.cc:219-220); the model calls that state
  `stuck` (`OneDownload`). It takes 1024 messages on the connection (`FlagExact`), is reached
  with that many (`RefusedRequestSticks`) and lasts until the connection drops
  (`StuckUntilDrop`).
- Of the two states a master can start in, with a configuration and without, only the first
  makes every installed configuration newer than the one it replaces (`OnlyNewerExactly`). A
  master whose first database fetch failed announces version -1, which a 32-bit unsigned field
  turns into the newest version of all (src/agentm/main.cc:132, `UnconfiguredMasterDowngrades`).
- The map behind the checksum is independent of element order exactly when elements with one id
  agree and children with one name agree (`OrderInsensitiveExactly`). The bytes fed to MD5 are
  then independent of it too (`OrderInsensitive`). The converse fails for them: values are fed
  without separators, so two disagreements can cancel (`ConflictsCanCancel`). Children of one
  element that disagree always show (`InconsistentShows`), and so do two elements that disagree
  in a single value, so in configurations whose elements disagree in single values only the
  equivalence holds for the bytes (`OrderFreeExactly`). In every configuration the ids can be
  looked at one by one (`OrderFreeByGroup`). Validation rules conflicts out for
  MODULE and CACHEINSTANCE elements (`ValidHasNoConflict`), but the checksum also walks elements
  with other tags (`ForeignTagsOrderSensitive`).
- The product in the flush rate is an `int`, taken to wrap around. The limit reaches the
  interpolated rate for every age, and after every run, exactly when the product fits for the
  largest interpolated age (`RateExact`, `LimitMeetsTarget`, `RunMeetsTarget`,
  `OverflowStallsFlush`); a dirty-time span of 214770 seconds is the largest that is always safe
  (`ProductFits`, `SafeSpan`). Parameters become usable ones exactly unless a minimum of 2^30
  or more has to be doubled (`ClampGood`, `DoubledMinimumOverflows`).

`BARRIER_HASH_MAX` is `1024 * 8` without parentheses, so `key % BARRIER_HASH_MAX` is
`(key % 1024) * 8`: in bounds, and only every eighth slot is used (`Key2Idx`).

## Model

| member | source | states |
|---|---|---|
| BarrierProtocol.Serialised | src/cache/barrier_unit.cc:84-165 | in every run at most one tracked task per key is downstream, it is the front of that key's queue, and the tasks of a key go downstream in the order they were admitted |
| BarrierProtocol.RequestsSerialised | src/cache/barrier_unit.cc:85-131 | on the fields of the tasks: in every run two requests of one key downstream together are the same one, at the front of the queue, unless one is a batch request or an admin command other than Migrate |
| BarrierProtocol.OthersPass | src/cache/barrier_unit.cc:85-94 | batch requests and admin commands other than Migrate go downstream at their arrival, whatever the queues hold, and are answered without touching them |
| BarrierProtocol.ArrivalFate | src/cache/barrier_unit.cc:96-131 | in every run any other request is refused exactly when its queue, or without one the table, is full; else it is put last on its queue and sent at once exactly when it is first there |
| BarrierProtocol.LimitsRespected | src/cache/barrier_unit.cc:100-131 | in every run the number of keys held stays within `maxBarrier` and every queue within max(1, `maxKeyCount`) |
| BarrierProtocol.PeakIsHighWater | src/cache/barrier_unit.cc:118-131 | in every run the mark that the barriers allocated equal is the largest number of keys held at any moment, and was reached |
| BarrierProtocol.RepliedAtMostOnce | src/cache/barrier_unit.cc:84-165 | in every run each task that arrived was replied exactly once or is held, never both, and a held task is in flight or queued |
| BarrierProtocol.RefusedGoNowhere | src/cache/barrier_unit.cc:107-117 | a task refused at a limit is replied, never queued and never sent |
| BarrierProtocol.ErrorBranchesUnreachable | src/cache/barrier_unit.cc:147-162 | in every run a reply to a task in flight reaches neither "not in barrier" nor "not barrier header" |
| BarrierProtocol.ReplyAdvancesQueue | src/cache/barrier_unit.cc:145-158 | a reply moves every waiting task of its key up one place, sends the next one, and leaves other keys alone |
| BarrierProtocol.StepKeepsInv | src/cache/barrier_unit.cc:84-165 | every arrive or reply keeps the invariant behind the theorems above |
| BarrierProtocol.RunKeepsInv | src/cache/barrier_unit.cc:84-165 | so does every legal run, from any state that has it |
| BarrierTable.Key2Idx | src/cache/barrier_unit.h:48 | the slot is in bounds and a multiple of eight |
| BarrierTable.SlotOfKey | src/cache/barrier_unit.h:11-48 | keys below 1024 take every eighth slot in turn and the slots repeat from there, so two keys share one exactly when they agree modulo 1024 |
| BarrierTable.LinkKeepsTable | src/cache/barrier_unit.cc:124-125 | appending a barrier to its key's slot keeps every barrier in exactly the slot of its key |
| BarrierTable.UnlinkKeepsTable | src/cache/barrier_unit.cc:77-82 | moving a barrier off its slot does too |
| BarrierRefinement.OpenKeeps | src/cache/barrier_unit.cc:118-131 | hashing a free or new barrier refines the protocol's step; barriers ever allocated stay equal to the high-water mark of `count` |
| BarrierRefinement.JoinKeeps | src/cache/barrier_unit.cc:100-106 | queueing behind a task refines the protocol's step |
| BarrierRefinement.RefuseKeeps | src/cache/barrier_unit.cc:107-117 | refusing refines the protocol's step |
| BarrierRefinement.PassKeeps | src/cache/barrier_unit.cc:85-94 | a task that is not tracked goes straight downstream, as the protocol says |
| BarrierRefinement.PassBackKeeps | src/cache/barrier_unit.cc:135-143 | and is replied without touching any queue |
| BarrierRefinement.PopFrontKeeps | src/cache/barrier_unit.cc:149-158 | answering a task with others behind it refines the protocol's step |
| BarrierRefinement.PopLastKeeps | src/cache/barrier_unit.cc:152-155 | answering the last task of a key and freeing its barrier refines the protocol's step |
| BarrierRefinement.FindNode | src/cache/barrier_unit.cc:51-63 | a key has a barrier exactly when it has a queue, and the barrier holds that queue; free barriers are empty |
| BarrierUnit.Unit.constructor | src/cache/barrier_unit.h:39-51 | a new unit is valid in the initial protocol state |
| BarrierUnit.Unit.GetBarrier | src/cache/barrier_unit.cc:51-63 | the search returns the barrier of the key, or null exactly when the key has no queue |
| BarrierUnit.Unit.OpenBarrier | src/cache/barrier_unit.cc:118-131 | a barrier from the free list, or else a new one, is hashed with the task as its queue, and the unit takes the protocol's step |
| BarrierUnit.Unit.JoinBarrier | src/cache/barrier_unit.cc:100-106 | the task waits on its key's barrier, and the unit takes the protocol's step |
| BarrierUnit.Unit.Pass | src/cache/barrier_unit.cc:85-94 | a task that is not tracked is handed on, and the unit takes the protocol's step |
| BarrierUnit.Unit.Refuse | src/cache/barrier_unit.cc:107-117 | at either limit the task is replied with an error, and the unit takes the protocol's step |
| BarrierUnit.Unit.TaskNotify | src/cache/barrier_unit.cc:84-132 | the table, free list, counter and the tasks sent, replied and refused are those of the protocol after one more arrival |
| BarrierUnit.Unit.AttachFreeBarrier | src/cache/barrier_unit.cc:77-82 | the barrier leaves its slot for the head of the free list and the count drops |
| BarrierUnit.Unit.PopTask | src/cache/barrier_unit.cc:149-158 | the front task leaves its queue, and the next one is sent or the barrier freed, as the protocol says |
| BarrierUnit.Unit.PopLast | src/cache/barrier_unit.cc:152-155 | the last task of a key frees its barrier, and the unit takes the protocol's step |
| BarrierUnit.Unit.PopFront | src/cache/barrier_unit.cc:152-158 | the task behind the one answered goes downstream, and the unit takes the protocol's step |
| BarrierUnit.Unit.ReplyNotify | src/cache/barrier_unit.cc:134-165 | the same as TaskNotify for one more reply, with both error branches proved dead |
| TxtEscape.EscapeClean | src/cache/TxtEscape.cc:8-46 | escaped text holds no tab and no newline, no NUL unless the string did, and is at most twice as long |
| TxtEscape.EscapeCString | src/cache/TxtWriter.cc:73-74 | printing through `%s` prints the escaped string up to its first NUL |
| TxtEscape.UnescapeEscape | src/cache/TxtEscape.cc:8-95 | decoding the escape of a NUL-free string gives the string back and uses exactly its text, whatever stop follows |
| TxtEscape.UnescapeStopsAtToken | src/cache/TxtEscape.cc:55 | the cursor stops at the first NUL, tab or delimiter |
| TxtEscape.UnescapeNulFree | src/cache/TxtEscape.cc:48-95 | nothing decoded holds a NUL |
| TxtEscape.EscapeAppend | src/cache/TxtEscape.cc:14-42 | a string is escaped piece by piece |
| TxtEscape.EscapeTexts | src/cache/TxtEscape.cc:15-40 | the two characters each of the five special bytes is written as, and all other bytes as they are |
| TxtEscape.UnescapeTexts | src/cache/TxtEscape.cc:55-91 | what plain bytes, the five pairs, a backslash before another byte and one at the end decode to |
| TxtEscape.StrLen | src/cache/TxtEscape.cc:12-13 | the length of the part before the first NUL |
| TxtEscape.EscapeStr | src/cache/TxtEscape.cc:8-46 | a buffer of twice the length plus one receives the escaped text and its NUL, and nothing else; a negative length stands for that of the C string |
| TxtEscape.UnescapeStr | src/cache/TxtEscape.cc:48-95 | decoding in place equals the pure decoder on the original bytes; nothing before the token or from its stop on changes |
| TxtHex.HexClean | src/cache/TxtEscape.cc:97-111 | hex text is lower-case digits, twice as long as the bytes |
| TxtHex.UnhexHex | src/cache/TxtEscape.cc:97-128 | reading the hex of any bytes gives them back |
| TxtHex.UnhexNonEmpty | src/cache/TxtEscape.cc:120-125 | a token that does not start at a stop is an error or gives at least one byte |
| TxtHex.HexAppend | src/cache/TxtEscape.cc:104-107 | bytes are written one after the other |
| TxtHex.HexTexts | src/cache/TxtEscape.cc:104-107 | the two lower-case digits of a byte, the high one first, and that either case is read |
| TxtHex.ScanTexts | src/cache/TxtEscape.cc:121-124 | what else is scanned: white space, signs, "0x" and other bytes |
| TxtHex.EscapeBin | src/cache/TxtEscape.cc:97-111 | the buffer of `len*2+1` bytes receives the hex text and its NUL, and nothing else |
| TxtHex.UnescapeBin | src/cache/TxtEscape.cc:113-128 | the in-place hex decoder equals the pure one, with the same errors; bytes outside the token stay |
| TxtNumber.ReadSignedDecimal | src/cache/TxtReader.cc:71-76 | base-0 parsing of any printed 64-bit signed number gives it back |
| TxtNumber.ReadUnsignedDecimal | src/cache/TxtReader.cc:78-83 | base-0 parsing of any printed 64-bit unsigned number gives it back |
| TxtNumber.ParseBeforeNul | src/cache/TxtReader.cc:71-83 | number parsing never passes the NUL that ends the line |
| TxtNumber.RangeExactly | src/cache/TxtReader.cc:71-83 | a printed number is read back if it fits 64 bits and refused otherwise |
| TxtNumber.UnsignedNegative | src/cache/TxtReader.cc:78-83 | an unsigned field takes a minus sign and negates modulo 2^64 |
| TxtNumber.DecimalTexts | src/cache/TxtWriter.cc:55-61 | decimal digits in their order, with a minus sign for negative numbers |
| TxtNumber.BasePrefixes | src/cache/TxtReader.cc:71-83 | behind 0x digits are hexadecimal, behind any other 0 octal, and decimal otherwise |
| TxtNumber.NumberTexts | src/cache/TxtReader.cc:71-83 | the value of a digit string in any base, digit by digit |
| TxtNumber.SpaceSkipped | src/cache/TxtReader.cc:71-83 | white space in front of a number is skipped |
| TxtNumber.SignTaken | src/cache/TxtReader.cc:71-83 | a sign in front of the digits is taken |
| TxtRow.TokenRoundTrip | src/cache/TxtReader.cc:68-113 | a printed value followed by a tab or newline reads back as itself |
| TxtRow.FieldRoundTrip | src/cache/TxtReader.cc:57-116 | so does a printed field with its tab, also when it is empty |
| TxtRow.FieldsRoundTrip | src/cache/TxtReader.cc:144-153 | from any field on, the text of the remaining fields reads back as those fields, discarded ones left alone |
| TxtRow.TabsReadEmpty | src/cache/TxtReader.cc:61-66 | a line of tabs reads as a row of empty values, however many tabs it has |
| TxtRow.ReadStringsNulFree | src/cache/TxtReader.cc:138-156 | whatever reads back equal holds no NUL in its strings |
| TxtRow.MisalignedRow | src/cache/TxtReader.cc:61-66 | a row read one field off is never the row that was written, unless all fields are empty |
| TxtRow.RowRoundTrip | src/cache/TxtWriter.cc:98-124 | a row read back equals the row written if and only if it is dumpable |
| TxtRow.RowComesBack | src/cache/TxtReader.cc:138-156 | field by field: a dumpable row comes back with its values, discarded fields left alone |
| TxtRow.PrintedAs | src/cache/TxtWriter.cc:54-85 | each kind of value is printed in its own notation |
| TxtRow.LineTexts | src/cache/TxtWriter.cc:108-121 | a line ends in a newline and every further field is set off by a tab |
| TxtRow.EmptyReads | src/cache/TxtReader.cc:61-66 | an empty field reads as 0 or as the empty string |
| TxtRow.EmptyFirstFieldLost | src/cache/TxtReader.cc:61-66 | an empty first field before a non-empty one does not come back |
| TxtFile.FileRoundTrip | src/cache/TxtReader.cc:158-181 | reading a whole dump line by line gives as many rows as were written, and the same rows if and only if each is dumpable |
| TxtWriter.Writer.WriteValue | src/cache/TxtWriter.cc:51-92 | exactly the value's text is appended to the file |
| TxtWriter.Writer.WriteRow | src/cache/TxtWriter.cc:98-124 | exactly the row's line is appended, or nothing and -1 when the file is not open |
| TxtReader.ShowsLater | src/cache/TxtReader.cc:92-101 | values that point into the line buffer survive the decoding of later fields |
| TxtReader.Reader.Number2Value | src/cache/TxtReader.cc:71-83 | the number at the cursor, with the cursor left before the NUL |
| TxtReader.Reader.Token2Value | src/cache/TxtReader.cc:68-113 | a token of any kind, decoded in place, equals the pure token; bytes before and after it stay |
| TxtReader.Reader.Str2Value | src/cache/TxtReader.cc:57-116 | a field with its tab and default value equals the pure field |
| TxtReader.Reader.SaveRow | src/cache/TxtReader.cc:138-156 | after all fields were decoded in one buffer, every value, also those pointing into it, is what the pure reader gives on the original line |
| TxtReader.Reader.ReadRow | src/cache/TxtReader.cc:158-181 | exactly one line is consumed and read; -1, -2 and -3 for a closed file, its end and a bad row |
| SendQueue.AdvanceKeepsPackets | src/agent/sender.cc:139-158 | the packets freed followed by the packets kept are the packets queued, in order, and the lengths add up |
| SendQueue.AdvanceKeepsBytes | src/agent/sender.cc:139-158 | the bytes taken followed by the bytes left are the bytes that were pending |
| SendQueue.AdvanceFreesAllSent | src/agent/sender.cc:139-145 | every packet that went out whole is freed: what is left starts with a byte still to be sent |
| SendQueue.AddKeeps | src/agent/sender.cc:85-89 | adding a packet keeps the sender's invariant |
| SendQueue.SendKeeps | src/agent/sender.cc:132-158 | a send of any size keeps it |
| SendQueue.SenderConserves | src/agent/sender.cc:71-162 | bytes accepted plus bytes queued are all packets added; every packet is freed once or queued; none is freed before its last byte went out |
| Sender.Sender.constructor | src/agent/sender.cc:27-69 | a built sender has 256 slots and nothing queued |
| Sender.Sender.AddPacket | src/agent/sender.cc:71-92 | the packet is queued last, or refused with -1 exactly when the full queue may not grow |
| Sender.Sender.FreeSent | src/agent/sender.cc:139-145 | exactly the packets that went out whole are freed, in order |
| Sender.Sender.Compact | src/agent/sender.cc:152-158 | the in-place move brings `vec` and `pkt` to the front together |
| Sender.Sender.Consume | src/agent/sender.cc:139-158 | after both loops the queue is what is left, and every `pkt` entry still belongs to its `vec` entry |
| Sender.Sender.Send | src/agent/sender.cc:94-162 | with any answer of the kernel the bytes taken are the next ones of the stream, and the invariant holds |
| Sender.Sender.Destroy | src/agent/sender.cc:40-51 | at destruction every packet ever added has been freed exactly once, in order |
| PacketStream.PacketsOfFlatten | src/agent/receiver.cc:43-119 | cutting the concatenation of any packets gives those packets back |
| PacketStream.BodyLenOfParts | src/agent/receiver.cc:110-119 | for any four head bytes, eight lengths and body, the body length is the sum of the lengths modulo 2^32 |
| PacketStream.PartsArePacket | src/agent/receiver.cc:100-108 | a packet whose lengths describe its body is received if and only if the body has 1 byte to 64 MB |
| PacketStream.ReceiverTakes | src/agent/receiver.cc:62-140 | any bytes that arrive keep delivered packets plus held bytes equal to bytes consumed |
| PacketStream.ReceiverDelivers | src/agent/receiver.cc:142-150 | handing out the packet keeps it too, and what is handed out is a whole packet |
| PacketStream.DeliveredAreThePackets | src/agent/receiver.cc:43-150 | for every chunking the packets delivered are those of the bytes consumed |
| Receiver.Receiver.GetBodyLen | src/agent/receiver.cc:110-119 | the eight lengths summed in 32 bits |
| Receiver.Receiver.StartBody | src/agent/receiver.cc:80-95 | a header of a packet that is too long is refused, any other starts the packet's buffer |
| Receiver.Receiver.GetHeader | src/agent/receiver.cc:62-98 | no byte is lost; 1 exactly when the header is complete; 0 exactly when the socket gave less than asked |
| Receiver.Receiver.GetData | src/agent/receiver.cc:121-140 | no byte is lost; 1 exactly when the packet is complete; a request for no bytes fails |
| Receiver.Receiver.Recv | src/agent/receiver.cc:43-60 | no byte is lost; 1 exactly when a packet is ready; failure only when the peer is gone or the header asks for an empty or too long body |
| Receiver.Receiver.GetPacket | src/agent/receiver.cc:142-150 | the packet handed out is whole and is appended to the packets delivered |
| Transport.PacketsOfPrefix | src/agent/receiver.cc:43-150 | the packets of part of a stream are the first packets of the stream |
| Transport.EndToEnd | src/agent/sender.cc:94-162 | whatever the partial sends and receives, the packets delivered are the first packets added, unchanged and in order; once all bytes were consumed they are all there, the last one perhaps still waiting for GetPacket |
| Transport.EndToEndParts | src/agent/sender.cc:94-162 | the same for packets put together from head, lengths and body |
| XBuffer.TidyKeeps | src/agentm/protocol_handler.cc:80 | `tidy` keeps the unread bytes if and only if the read position is 0 |
| XBuffer.TidyLoses | src/agentm/protocol_handler.cc:95 | otherwise it drops as many unread bytes as were consumed before |
| XBuffer.ConsumeKeeps | src/agentm/protocol_handler.cc:56-76 | consuming drops exactly the first bytes and resets an empty buffer |
| XBuffer.EnsureCapacityKeeps | src/agentm/protocol_handler.cc:112 | there is room afterwards and the unread bytes are kept if and only if it neither tidies nor needs a size of 2^32 or more; in the last case the block gets smaller than its contents |
| LittleEndian.LE32RoundTrip | src/agentm/admin.h:40-45 | a 32-bit field reads back wherever it stands |
| AdminFrame.FrameFields | src/agentm/protocol_handler.cc:109-120 | the header fields and body of a frame read back whatever follows it |
| AdminFrame.FrameLayout | src/agentm/protocol_handler.cc:109-120 | a frame byte by byte: magic number, length, command, body |
| AdminFrame.HeaderValidBytes | src/agentm/admin.h:49-54 | the headers accepted, byte by byte |
| ProtocolInput.DrainSplits | src/agentm/protocol_handler.cc:54-93 | the loop on the buffer gives the processor the messages of the reference, with the same verdict and the same rest, and leaves the read position behind the frames consumed |
| ProtocolInput.InputStep | src/agentm/protocol_handler.cc:26-99 | one read, or one that would block, hands over the messages of the stream, and leaves the rest intact if and only if the cut is clean and the announced frame, with what is there, stays below 2^32 bytes; then there is room for the next read unless the buffer is full and the announced size is 0 in 32 bits |
| ProtocolInput.TornRead | src/agentm/protocol_handler.cc:78-98 | after any other cut the next read starts with a negative length or short of the bytes consumed, whatever arrives |
| ProtocolInput.CutInsideHeaderTears | src/agentm/protocol_handler.cc:78-82 | a read that ends inside the header right after a complete frame hands that frame over and makes the next length negative |
| ProtocolInput.HugeLengthShrinks | src/agentm/protocol_handler.cc:95-96 | a valid header that announces 2^32 - 24 to 2^32 - 13 bytes is a clean cut and cuts the block below the 12 bytes it holds |
| ProtocolInput.HugeLengthExists | src/agentm/admin.h:49-54 | there is such a header |
| ProtocolInput.BadHeaderDrops | src/agentm/protocol_handler.cc:45-52 | a read that starts with a wrong magic number or a command that is 0 or at least 18 drops the connection and hands nothing over |
| ProtocolInput.BadHeaderBehindDrops | src/agentm/protocol_handler.cc:84-91 | behind complete frames it hands over exactly those and drops the connection |
| ProtocolInput.UnknownCommandDrops | src/agentm/protocol_handler.cc:59-67 | so does a frame of a command from 1 to 7 |
| ProtocolInput.KnownCommandArrives | src/agentm/protocol_handler.cc:59-76 | a whole frame of a command from 8 to 17 is handed over if it parses, and the connection kept if it is accepted |
| ProtocolInput.SplitContinues | src/agentm/protocol_handler.cc:54-93 | cutting a stream in two steps gives the frames of cutting it in one |
| ProtocolInput.InputRun | src/agentm/protocol_handler.cc:26-99 | for every run of clean reads that never shrink the block, with any processor whose verdicts may depend on what it got before, the messages handed over are those of the whole stream, once each and in order |
| ProtocolInput.SplitOfFrames | src/agentm/protocol_handler.cc:109-120 | the frames serialised for any messages the processor accepts one after the other split into those messages with nothing left |
| ProtocolOutput.SerializeExact | src/agentm/protocol_handler.cc:109-120 | the frame is added behind the unread bytes if and only if making room neither tidies nor wraps |
| ProtocolOutput.SerializeKeeps | src/agentm/protocol_handler.cc:150-153 | moving a message from the queue to the buffer keeps bytes written plus buffer plus queue equal to all messages queued |
| ProtocolOutput.WriteKeeps | src/agentm/protocol_handler.cc:132 | so does a write of any size |
| ProtocolOutput.QueueKeeps | src/agentm/protocol_handler.cc:101-104 | so does a new message |
| ProtocolOutput.WholeNeverTears | src/agentm/protocol_handler.cc:146-154 | a buffer that was not sent in part is never damaged by filling it |
| ProtocolOutput.TearsExactly | src/agentm/protocol_handler.cc:146-154 | filling the buffer damages the stream if and only if some queued message comes up below 4096 bytes and does not fit behind the ones before it, but does with the room of the bytes sent or else takes the block to 2^32 bytes |
| ProtocolOutput.SecondMessageTears | src/agentm/protocol_handler.cc:146-154 | after one message sent in part the next one damages the stream if and only if fewer than 4096 bytes are left and its frame does not fit behind, but does with the room of the bytes sent or else takes the block to 2^32 bytes |
| ProtocolHandler.Handler.constructor | src/agentm/protocol_handler.cc:9-15 | a new handler has lost nothing and is in order |
| ProtocolHandler.Handler.KickOutput | src/agentm/protocol_handler.cc:122-142 | one message is taken from the queue when the buffer is empty; nothing is lost and output notification is on when bytes remain |
| ProtocolHandler.Handler.QueueMessage | src/agentm/protocol_handler.cc:101-107 | the message is queued last, nothing is lost and the handler does not stall |
| ProtocolHandler.Handler.Fill | src/agentm/protocol_handler.cc:148-154 | the buffer is filled to 4096 bytes or the queue is empty, and the stream is damaged if and only if the sizes before say so |
| ProtocolHandler.Handler.HandleOutput | src/agentm/protocol_handler.cc:144-172 | terminates; nothing is lost unless the sizes before say so; it returns with bytes left only after a short write, and notification is on exactly then |
| ProtocolHandler.Handler.DrainFrames | src/agentm/protocol_handler.cc:42-93 | the loop equals the pure one: buffer, messages handed to the processor, a refused one included, and exit |
| ProtocolHandler.Handler.ReadInput | src/agentm/protocol_handler.cc:26-99 | a read, one that would block, and a lost peer: messages handed over, buffer and verdict, to which InputStep and InputRun apply |
| FlushRate.ClampGood | src/cache/cache_flush.cc:148-160 | any parameters become usable ones if and only if no minimum of 2^30 or more has to be doubled, and usable ones are kept |
| FlushRate.ClampEdges | src/cache/cache_flush.cc:148-156 | where each parameter is cut off |
| FlushRate.DoubledMinimumOverflows | src/cache/cache_flush.cc:155-156 | otherwise the maximum age is negative and every age flushes at the fastest speed |
| FlushRate.InterpolatedMonotone | src/cache/cache_flush.cc:294 | the rate meant is monotone in the age, 1 at `minDirtyTime` and `maxFlushReq` at `maxDirtyTime` |
| FlushRate.InterpolatedFloor | src/cache/cache_flush.cc:294 | it is the straight line from 1 to the maximum, rounded down |
| FlushRate.TargetMonotone | src/cache/cache_flush.cc:284-300 | so is the target over all ages |
| FlushRate.ProductFits | src/cache/cache_flush.cc:294 | the product fits an `int` for all ages if and only if it does for the largest |
| FlushRate.SafeSpan | src/cache/cache_flush.cc:294 | a span up to 214770 always fits, and for 10000 requests no larger span does |
| FlushRate.RateExact | src/cache/cache_flush.cc:294 | the rate computed in 32 bits is the rate meant for every age if and only if the product fits |
| FlushRate.LimitMeetsTarget | src/cache/cache_flush.cc:284-300 | from limit 0 the limit reaches the target for every age if and only if the product fits |
| FlushRate.OverflowStallsFlush | src/cache/cache_flush.cc:294 | accepted parameters and an age for which the limit stays 0 where 3000 is called for |
| FlushRate.TruncTowardsZero | src/cache/cache_flush.cc:294 | the division rounds towards zero |
| FlushRate.SyncLimit | src/cache/cache_flush.cc:272-282 | in sync mode the limit is the maximum while memory is dirty, and 0 otherwise, whatever the age |
| FlushRate.NextLimitBounds | src/cache/cache_flush.cc:260-308 | the new limit is in bounds in both modes and falls in async mode only for an age below `minDirtyTime`; if the product fits it is the larger of the old limit and the target |
| FlushRate.RunBounds | src/cache/cache_flush.cc:260-308 | over every sequence of ages the limit is in bounds and falls only for a young age; if the product fits it is at least the target, and at least 1 once the age reaches `minDirtyTime` |
| FlushRate.RunMeetsTarget | src/cache/cache_flush.cc:260-308 | after every run the limit is at least the target of the last age if and only if the product fits |
| FlushRate.RunRemembersWorst | src/cache/cache_flush.cc:292-296 | if the product fits, then while ages stay old the limit is the largest target seen, or the one it started with |
| FlushRate.RunForgets | src/cache/cache_flush.cc:297-300 | one young age erases everything before it |
| FlushRequests.NotifiedOnce | src/cache/cache_flush.cc:64-76 | a waiting task was notified exactly once, or not yet and its request has rows outstanding |
| FlushRequests.RowKeeps | src/cache/cache_flush.cc:38-62 | a flushed row keeps `numReq` equal to the rows outstanding |
| FlushRequests.CommitKeeps | src/cache/cache_flush.cc:174-185 | committing a request with rows keeps `nFlushReq` equal to the committed requests |
| FlushRequests.DropKeeps | src/cache/cache_flush.cc:176-179 | committing one without rows notifies its task at once and keeps the invariant |
| FlushRequests.RowDoneKeeps | src/cache/cache_flush.cc:64-68 | a row that is not the last keeps it |
| FlushRequests.LastRowKeeps | src/cache/cache_flush.cc:68-75 | the last row notifies the task, drops the request and keeps it |
| CacheFlush.CacheProcess.WaiterNotifiedOnce | src/cache/cache_flush.cc:38-76 | in every state a task that was given was notified exactly once, or waits, not notified, for a request whose `numReq` counts its rows outstanding |
| CacheFlush.CacheProcess.SetFlushParameter | src/cache/cache_flush.cc:117-160 | the clamped parameters are stored, with the doubling in 32 bits, or none for an old cache format |
| CacheFlush.CacheProcess.NewRequest | src/cache/cache_flush.cc:5-11 | a new request has no rows and no waiting task, and changes no other |
| CacheFlush.CacheProcess.CalculateFlushSpeed | src/cache/cache_flush.cc:260-308 | the limit after the call, with marker ages and product in 32 bits, and its bounds |
| CacheFlush.AgeIs | src/cache/cache_flush.cc:266-269 | the age is the time between the markers, also where they wrap |
| Basics.WrapIs | src/cache/cache_flush.cc:265-269 | an `int` keeps every number in its range and wraps around by 2^32 |
| CacheFlush.CacheProcess.FlushRow | src/cache/cache_flush.cc:38-62 | one more row outstanding, or none and -1 when the copy fails |
| CacheFlush.CacheProcess.Destroy | src/cache/cache_flush.cc:13-19 | the destructor notifies the waiting task if there still is one |
| CacheFlush.CacheProcess.CommitFlushRequest | src/cache/cache_flush.cc:174-185 | a request without rows is deleted with its task notified, any other is counted |
| CacheFlush.CacheProcess.CompleteRow | src/cache/cache_flush.cc:64-76 | the last row notifies once, also through the destructor, drops the count, sets the speed and says whether to flush on; any other row only counts down |
| ConfigPush.OneDownload | src/agent/heartbeat.cc:178-256 | in every run, whatever versions the master holds and is given, an agent has at most one download outstanding per connection, and `m_downloading` says when unless the request was refused by the send queue |
| ConfigPush.RunKeepsDownloads | src/agent/heartbeat.cc:178-320 | every run keeps the download invariant of all agents, with no hypothesis on versions |
| ConfigPush.RefusedRequestSticks | src/agent/heartbeat.cc:219-220 | for any newer configuration a run from a fresh master, with 1024 heartbeats waiting, ends with the flag up and nothing outstanding |
| ConfigPush.FlagExact | src/agent/sender.cc:73-78 | in every run with fewer than 1024 messages on each connection no request is refused and the flag is exact |
| ConfigPush.AsksExactly | src/agent/heartbeat.cc:191-222 | a download is asked for exactly when push is on, the version newer, the checksum another and none under way |
| ConfigPush.QuietRun | src/agent/heartbeat.cc:191-228 | in every run while push stays off, no agent has a download outstanding and nothing is installed |
| ConfigPush.SameTextRun | src/agent/heartbeat.cc:194-199 | in every run while the master announces the checksum an agent has, that agent has no download outstanding |
| ConfigPush.ConfigurationArrives | src/agent/heartbeat.cc:178-256 | with push on, a run brings an agent that is behind to the valid configuration of the master |
| ConfigPush.HeartbeatReports | src/agent/heartbeat.cc:294-318 | a heartbeat carries the version and checksum the agent runs with |
| ConfigPush.MasterSays | src/agentm/master_worker.cc:27-53 | the database is read at heartbeats only, and answers carry what is then held |
| ConfigPush.StuckUntilDrop | src/agent/heartbeat.cc:201-205 | from there no run without a drop of the connection ever clears it |
| ConfigPush.StuckStep | src/agent/heartbeat.cc:178-256 | and no step of it installs anything on that agent |
| ConfigPush.InstallsAreNewer | src/agent/heartbeat.cc:230-250 | in every run of a configured master whose versions never decrease, what is installed is valid, was held by the master with its version, and is newer than what it replaces |
| ConfigPush.OnlyNewerExactly | src/agentm/configure_manager.h:38-46 | of the two states a master can start in, all installations are newer if and only if it starts configured |
| ConfigPush.UnconfiguredMasterDowngrades | src/agentm/configure_manager.h:46 | a run from a fresh master without a configuration makes an agent of any version install version 0 |
| ConfigPush.MasterAnswers | src/agentm/master_worker.cc:11-55 | every answer of the master keeps the connection's invariant |
| ConfigPush.TimerKeeps | src/agent/heartbeat.cc:287-320 | a heartbeat, on an old or a new connection, keeps it |
| ConfigPush.AgentHandles | src/agent/heartbeat.cc:178-256 | every message the agent takes keeps it, and what it installs is newer and came from the master |
| ConfigPush.StepKeepsInv | src/agent/heartbeat.cc:178-320 | every step of agents, master and connections keeps the invariant of the system |
| ConfigPush.RunKeepsInv | src/agent/heartbeat.cc:178-320 | so does every run |
| ConfigPushNodes.ConfigureManager.SetConfigure | src/agentm/configure_manager.h:38-44 | version, text and checksum are replaced together |
| ConfigPushNodes.MasterHandleMessage | src/agentm/master_worker.cc:8-117 | each message type changes the master's state and queues its reply as the protocol step says; unknown ones fail |
| ConfigPushNodes.HeartBeatWorker.TimerNotify | src/agent/heartbeat.cc:287-320 | the heartbeat step, connecting first when the worker is down |
| ConfigPushNodes.HeartBeatWorker.Exit | src/agent/heartbeat.cc:81-92 | the connection, its messages and the download flag are gone |
| ConfigPushNodes.HeartBeatWorker.HandleMessage | src/agent/heartbeat.cc:178-256 | the reply step, and exactly a valid downloaded text is written |
| Accounting.RunAccounted | src/agent/front_worker.cc:101-122 | in every run the serials newly recorded are the requests counted plus those pending, and responses never exceed requests |
| Accounting.RunCounts | src/agent/front_worker.cc:478-484 | in every run the responses are the replies that found their serial pending, and the requests those and the timeouts |
| Accounting.EventIs | src/agent/front_worker.cc:472-487 | what one event does to its own entry and that it leaves all others alone |
| Accounting.ElapseIs | src/agent/front_worker.cc:108-110 | for spans below 2^31 microseconds an entry expires exactly when more than ten seconds have passed |
| Accounting.WaitedOut | src/agent/front_worker.cc:105-121 | the total time counted does not depend on the order of the entries |
| FrontWorker.Worker.Recv | src/agent/front_worker.cc:204 | the serial becomes pending, once however often it is sent |
| FrontWorker.Worker.SendResponse | src/agent/front_worker.cc:468-487 | a pending serial is counted once as request and response, an unknown one not at all |
| FrontWorker.Worker.TimerNotify | src/agent/front_worker.cc:101-122 | exactly the entries whose elapse, as a 32-bit number of microseconds, exceeds ten seconds leave and are counted, with their time; the others stay as they were |
| FrontWorker.Worker.Destroy | src/agent/front_worker.cc:68-82 | all pending entries are counted with their time, so requests equal the serials ever recorded |
| RoundRobin.UsesExactly | src/agent/cache_server.cc:77-94 | how often each residue comes up in any number of attempts of one thread |
| RoundRobin.CursorIsOwnCount | src/agent/cache_server.cc:84-93 | for every interleaving a thread's cursor is its own number of attempts modulo the connections |
| RoundRobin.AttemptKeepsLog | src/agent/cache_server.cc:77-94 | every attempt uses connection k modulo the number, in the thread's own range |
| RoundRobin.HitsAreUses | src/agent/cache_server.cc:77-94 | a connection is used as often as it comes up among its own thread's attempts, whatever the other threads do |
| RoundRobin.Fair | src/agent/cache_server.cc:77-94 | for any interleaving, every connection of a thread was used exactly its share of the thread's attempts, so any two differ by at most one |
| CacheServer.Server.constructor | src/agent/cache_server.cc:7-49 | with any number of connections per thread and any outcomes of building, each connection up to the first failure, of both machines, is given to the thread whose range it is in, and no other is given to any |
| CacheServer.AssignThreads | src/agent/cache_server.cc:18-43 | the loop, with the failing connection recorded and those after it left alone |
| CacheServer.Server.ServerFair | src/agent/cache_server.cc:71-96 | in every state of the server attempts on any two connections of a thread differ by at most one |
| CacheServer.Server.SwitchMechine | src/agent/cache_server.cc:57-69 | a switch keeps every cursor and the log, so that round robin and fairness go on across it; 0 selects the master |
| CacheServer.Server.Attempt | src/agent/cache_server.cc:78-93 | the connection used is the thread's next one and, on the machine in use, was given to no other thread |
| CacheServer.Server.HandleRequest | src/agent/cache_server.cc:71-96 | the call succeeds exactly when one of at most two attempts does, and makes no attempt after a success |
| ConfigChecksum.IsModuleValid | src/agent/config_file.cc:171-192 | true if and only if the CACHEINSTANCE elements are complete and their names distinct |
| ConfigChecksum.IsConfigValid | src/agent/config_file.cc:194-230 | true if and only if the MODULE elements are complete, their numeric ids and listen addresses distinct, and each is valid |
| ConfigChecksum.RefusedConfigs | src/agent/config_file.cc:194-230 | a missing attribute, an id written in two ways, a listen address twice and an instance name twice are each refused |
| ConfigChecksum.OthersNotValidated | src/agent/config_file.cc:201-202 | elements with another tag make no difference to validation |
| ConfigChecksum.AtoiDecimal | src/agent/config_file.cc:208 | an id is the number it is written as |
| ConfigChecksum.AtoiTexts | src/agent/config_file.cc:208 | signs and white space in front of an id |
| ByteStrings.LessIs | src/agent/config_file.cc:294-302 | the maps are walked in the order in which a proper prefix, or else the smaller of the first bytes that differ, comes first |
| ConfigChecksum.BuildReflects | src/agent/config_file.cc:280-290 | without conflicts the map says what every element says, and nothing else |
| ConfigChecksum.OrderInsensitive | src/agent/config_file.cc:270-310 | without conflicts any order of modules and of instances within them feeds the same bytes to MD5 |
| ConfigChecksum.ConflictOrderSensitive | src/agent/config_file.cc:280-290 | with a conflict, moving one element or child last gives two orders with different maps |
| ConfigChecksum.OrderInsensitiveExactly | src/agent/config_file.cc:280-290 | the map, not the bytes, is independent of the order if and only if there is no conflict |
| ConfigChecksum.OneServerShows | src/agent/config_file.cc:301-307 | changing the address of one server changes the bytes |
| ConfigChecksum.OneEntryShows | src/agent/config_file.cc:294-308 | changing one entry changes the bytes if and only if it changes what the entry adds to them |
| ConfigChecksum.SwapShows | src/agent/config_file.cc:280-308 | which of two elements with one id is last shows in the bytes if and only if it changes what their entry adds |
| ConfigChecksum.InconsistentShows | src/agent/config_file.cc:280-308 | children of one element that give a name two addresses always make the bytes depend on the order |
| ConfigChecksum.DisagreementShows | src/agent/config_file.cc:280-308 | so do two elements with one id that disagree in a single value |
| ConfigChecksum.OrderFreeExactly | src/agent/config_file.cc:280-308 | where elements disagree in single values only, the bytes are independent of the order if and only if there is no conflict |
| ConfigChecksum.OrderFreeByGroup | src/agent/config_file.cc:280-308 | for every configuration the bytes are independent of the order if and only if, for each id on its own, those of the elements with that id are |
| ConfigChecksum.ConflictsCanCancel | src/agent/config_file.cc:294-308 | two elements that disagree in two values give different maps and, in every order, the same bytes |
| ConfigChecksum.ValidHasNoConflict | src/agent/config_file.cc:171-230 | a valid configuration of MODULE and CACHEINSTANCE elements has no conflict |
| ConfigChecksum.ForeignTagsOrderSensitive | src/agent/config_file.cc:280-290 | a valid configuration with elements of another tag can have a checksum that depends on their order |
| ConfigChecksum.BuildMap | src/agent/config_file.cc:280-290 | the loop over the elements builds the map, the last element winning |
| ConfigChecksum.FeedAll | src/agent/config_file.cc:301-307 | the servers of a module are fed in key order, each name with its address |
| ConfigChecksum.GetCksumBytes | src/agent/config_file.cc:270-310 | the bytes fed to MD5 are the map walked in key order |

## Left out

- Sockets, epoll, timers, MySQL, curl, XML parsing and file access, logging and forking: their outcomes are parameters or choices of the model.
- Float fields of the text dump: `%f` prints six decimals, so they do not read back exactly.
- TxtWriter.Writer.WriteValue: `len*2+1` does not overflow and the buffer can always be expanded.
- TxtHex.UnescapeBin: `sscanf` follows the C standard, where "0x" without a digit is a matching failure.
- TxtReader.Reader.ReadRow: a read error of the file is not told from its end.
- `statBarrierMaxTask`: a statistic that is not the largest queue.
- BarrierUnit.Unit.TaskNotify: the dispatcher stack of a task, with its limit, and the unit's destructor are not modelled; handing on and replying are logged in order.
- Sender.Sender.AddPacket: allocation does not fail and doubling `nVec` does not overflow; `leftLen` is kept modulo 2^32. Packet lengths are below 2^31.
- Sender.Sender.Send: packet addresses are identities of values; freeing is a log, so use after free shows as a byte of a freed packet still pending, which is proved not to happen.
- Receiver.Receiver.Recv: packets with an empty body are not delivered by the source and so are excluded from `IsPacket`.
- XBuffer: the buffer is a value with its block as a sequence, and allocation does not fail; after a length or a capacity has become negative the model records that (`bad`) and does not follow the memory accesses outside the block.
- ProtocolInput.InputRun: reads that are not clean, or that shrink the block, end the run, since the stream is lost there.
- ProtocolHandler.Handler.ReadInput: parsing and the processor are a function of the messages the processor got before and the new one; a command without a message class, which the source would call through a null pointer, is dropped.
- ConfigChecksum.OrderFreeByGroup: within one id, elements that disagree in several values may cancel; which do is decided by their values (`SwapShows`).
- CacheServer.Server.HandleRequest: with `ConnectPerTtc` 0, which the configuration can give, the source reads outside the worker array; requests are modelled for a positive number only.
- ProtocolHandler.Handler.HandleOutput: ends when the stream is damaged (`torn`); the state is not followed further.
- FlushRate.Rate: signed overflow, undefined in the language of the source, wraps around.
- ConfigPushNodes.MasterHandleMessage: the status recorded from heartbeats and the content of a status reply belong to the status updater.
- The agent's own framing loop in `CAgentHeartBeatWorker::InputNotify`: it is the loop of `handle_input` over the same buffer.
- CacheFlush.CacheProcess.CompleteRow: `FlushNextNode` is only told whether it is called; the walk over nodes and time markers belongs to the cache pool.
- CacheFlush.CacheProcess.CommitFlushRequest: no row of a request completes before it is committed, because the flush queue is asynchronous.
- ConfigPush.InstallsAreNewer: versions are non-negative 31-bit numbers that never decrease, and a text carries its own version; the restart reads back what was written.
- FrontWorker.Worker.Recv: only the accounting; parsing, access checks and dispatch of the request come before it. A request whose dispatch failed is not recorded.
- FrontWorker.Worker.TimerNotify: one reading of the clock stands for those of the loop, also in Destroy.
- ConfigChecksum.GetCksumBytes: MD5 itself and its digest; every element has its attributes, since the source reads them through a null pointer otherwise.
- ConfigChecksum.IsConfigValid: numbers of `atoi` are unbounded.
- `cCacheReader::fetch_node`, cache pool, cache unit and cache writer: layers over shared memory and raw data.
- Admin worker and the `ConfigAdd`/`ConfigRemove` edits, packet sections and all command-line tools: dispatch without state of their own.
