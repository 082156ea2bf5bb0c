# Waylander wire layer: model and proofs

This project models the layer of waylander that turns Wayland messages into bytes and
bytes into handler calls, and proves what that layer is for. Everything is Dafny;
`dafny verify dfyconfig.toml` checks the whole project.

| file | what it models |
|---|---|
| `Wire.dfy` | arguments, padding, headers; an encoding is a relation because padding bytes are unspecified |
| `MessageBuffer.dfy` | `message_buffer`: `append` with its late header patch, the release functions |
| `MessageParser.dfy` | `parsed_message_generator` as a resumable object, `message_parser` |
| `MessageInterpreter.dfy`, `NullStrings.dfy` | `interpert_message_payload`, and payloads with null strings |
| `OverloadSet.dfy` | `message_overload_set`, `message_visit`, the packed hash key |
| `Socket.dfy`, `ConnectedClient.dfy` | the socket and `connected_client` as classes with the source's fields and loops |
| `Framing.dfy` | the header walk of `get_recd_bytes_forming_whole_messages` against the parser |
| `Receive.dfy` | the receive state machine as functions of the peer's stream and a read schedule |
| `Schedules.dfy` | how many bytes calls can receive, and when every schedule lets `until` return |
| `ReceiveProperties.dfy`, `RunProperties.dfy` | theorems about that state machine on streams of messages and over runs |
| `Truncation.dfy`, `Malformed.dfy` | the same machine on streams that break off, and on bytes that are not messages |
| `Flush.dfy` | `flush_registered_requests` and the pairing of descriptors with messages |
| `RequestRuns.dfy` | any number of registrations and flushes |
| `EndToEnd.dfy` | from a peer's `append` to the arguments handlers receive |
| `UniqueHandle.dfy` | `sstd::unique_handle` as an object and as a state machine over any number of handles |
| `ByteArray.dfy` | `sstd::byte_array` |
| `Arithmetic.dfy`, `Bytes.dfy`, `Chunks.dfy`, `Wrappers.dfy` | shared vocabulary and list lemmas |

How the parts fit: the classes carry the source's loops and field updates, and each method
is proved equal to a specification function (for example `ConnectedClient.Until` to
`Receive.Until`). The theorems are about those functions. The socket is a fixed stream of
bytes and an oracle that picks the length of each read: any length from one to what is asked
for, and zero at the end of the stream only. A theorem for every oracle holds for every
chunking. Exceptions are result values; running a handler appends an event to a ghost trace.
`resize` yields bytes nothing is known about.

Main results, for all inputs:

- `EndToEnd.UntilEndToEnd` and `UntilsEndToEnd`: whatever a peer appends, whatever the padding
  holds and however the bytes arrive, over any number of `until` calls with or without a
  callback, handlers and callbacks get exactly the original arguments in order.
- `ReceiveProperties.UntilSplitsAtTarget`: on streams of messages of whole words that end at a
  multiple of four, in particular on whatever `append` writes, `until` splits the message list at the first
  match, or reports end-of-file with everything handled.
- `Truncation.HandlesAllUnderEveryScheduleIff`: on every stream of messages, wherever it breaks
  off and whatever their sizes, exactly when `until` does so under every schedule.
- `RunProperties.RunDeliversInOrder`: on the same streams, any interleaving of `until` and
  `recv_events` delivers a prefix of what was sent, each message once, also when the client goes
  on after an end-of-file.
- `RunProperties.UntilsRefineSplitting`: any number of `until` calls, on any schedule, refines
  splitting the list of sent messages again and again.
- `Malformed.HandledTwiceIff`: on arbitrary bytes, exactly when some schedule makes `until` throw
  the parser's exception and the next call run a handler a second time for the same message;
  `Malformed.MalformedRepeats`: exactly when `until` can throw it at all.
- `Schedules.UntilReturnsIff`: on arbitrary bytes, exactly when every schedule lets `until` return.
- `RequestRuns.RequestsArriveInOrder`: over any registrations and flushes the peer gets all
  bytes and descriptors in order, and each descriptor by the end of its own message exactly when
  every flushed batch has bytes enough for its descriptors.
- `UniqueHandles.OwnershipOverRuns`: every resource is released exactly once.

Behaviour of the code worth knowing, each stated by a lemma:

- A declared size of zero makes the framing loop run forever (`Framing.LoopReturnsIff`), and
  `Schedules.UntilReturnsIff` says when `until` can meet one; a size from one to seven passes the
  framing loop and makes the parser throw (`Framing.ParserNeverThrowsIff`).
- When the parser throws inside `until`, the messages visited in that turn stay in the buffer and
  are dispatched again by the next call. `Malformed.HandledTwiceIff` says on which bytes a handler
  can run twice, `Malformed.HandlerRunsTwice` gives an input.
- On a stream that breaks off inside a word, `recv_more_data` can throw end-of-file although
  whole messages, the target among them, were just received. `Receive.EofDespiteProgressIff`
  and `Truncation.HandlesAllUnderEveryScheduleIff` say exactly when; a further call finds them
  and handles nothing twice (`Truncation.RetryAfterEof`).
- A string of length zero is read without moving on (`NullStrings.StringAdvancesIff`), so what
  follows it is misread unless it is zero too (`NullStrings.NullStringsReadAsSentIff`, up to the
  coincidences of `NullStrings.RightByCoincidence`);
  `append` never writes one.
- A message of more than 65535 bytes does not survive the 16-bit size field
  (`EndToEnd.FramingRoundTripIff`).
- Move-assigning a handle to itself releases its resource and leaves the handle inactive
  (`UniqueHandles.MoveAssignMovesIff`).

## Model

| member | source | states |
|---|---|---|
| Wire.RoundUpPadReaches | include/waylander/sstd.hpp:104-108 | for every modulus N, x plus the padding is a multiple of N and the padding is below N |
| Wire.RoundUpPadIsLeast | include/waylander/sstd.hpp:104-108 | no smaller padding reaches a multiple |
| Wire.ImageInverts | include/waylander/wayland/message_intrperter.hpp:88-95 | a static argument is determined by the 32-bit word it is stored as, negative integers included |
| Wire.ImageIs | include/waylander/wayland/message_buffer.hpp:105-113 | the stored word is the integer modulo 2^32, or the unsigned value, fixed-point word or object id itself |
| Wire.ArgumentInFrame | include/waylander/wayland/message_buffer.hpp:46-131 | every argument of a frame is at its offset byte for byte: length field, characters and NUL of a string, length and data of an array, the word of a static argument; offsets begin at 8 and advance by the fewest whole words |
| Wire.HeaderOfFrame | include/waylander/wayland/message_buffer.hpp:125-130 | a frame begins with object, opcode and its own size modulo 2^16 |
| Wire.FdsByPosition | include/waylander/wayland/message_buffer.hpp:104 | there are as many descriptors as descriptor arguments, each at the number of those before it |
| Wire.DescriptorQueued | include/waylander/wayland/message_buffer.hpp:104 | the same over all messages of a batch |
| Bytes.LittleEndian | include/waylander/wayland/message_intrperter.hpp:88-95 | words and halfwords are read least significant byte first |
| Wire.PayloadSizeIsEncodedSize | include/waylander/wayland/message_utils.hpp:78-88 | the compile-time fold of argument sizes equals the bytes append writes for a static message |
| Wire.HeaderFields | include/waylander/wayland/protocol_primitives.hpp:125-143 | object, opcode and size are found at offsets 0, 4 and 6 of the header image |
| MessageBuffers.MessageBuffer.WriteString | include/waylander/wayland/message_buffer.hpp:53-80 | behind unchanged bytes adds the length with delimiter modulo 2^32, the characters, the NUL and padding to a word |
| MessageBuffers.MessageBuffer.WriteArray | include/waylander/wayland/message_buffer.hpp:81-103 | behind unchanged bytes adds the length modulo 2^32, the data and padding to a word |
| MessageBuffers.MessageBuffer.WriteStatic | include/waylander/wayland/message_buffer.hpp:105-113 | adds one word behind unchanged bytes: the integer in two's complement, or the unsigned value itself |
| MessageBuffers.MessageBuffer.WriteElement | include/waylander/wayland/message_buffer.hpp:52-114 | a descriptor is queued last and adds no bytes; every other kind of argument is encoded in bytes and queues nothing |
| MessageBuffers.MessageBuffer.WriteArguments | include/waylander/wayland/message_buffer.hpp:120-123 | all arguments in order, with the sum of their sizes |
| MessageBuffers.MessageBuffer.Append | include/waylander/wayland/message_buffer.hpp:46-131 | earlier bytes unchanged, one more frame of exactly this message behind them, descriptors queued in order; the buffer stays a concatenation of the frames of everything unreleased |
| MessageBuffers.HeaderPatched | include/waylander/wayland/message_buffer.hpp:125-130 | patching the header in last changes neither earlier messages nor the arguments behind it |
| MessageBuffers.MessageBuffer.ReleaseData | include/waylander/wayland/message_buffer.hpp:133-135 | hands out encodings of all unreleased messages and leaves none |
| MessageBuffers.MessageBuffer.ReleaseFds | include/waylander/wayland/message_buffer.hpp:137-139 | hands out the descriptors of all unreleased messages in order and leaves none |
| MessageParsers.ParseHeadOfFrame | src/wayland/message_parser.cpp:33-78 | parse_NUM inverts the frame of one message, whatever follows |
| MessageParsers.FrameOfParseHead | src/wayland/message_parser.cpp:33-78 | a message that parse_NUM accepts is the frame the input begins with |
| MessageParsers.ParseHeadIs | src/wayland/message_parser.cpp:33-78 | a message exactly when eight bytes are there and declare a size from eight to what is there, and otherwise which of the three errors |
| MessageParsers.CutFrame | src/wayland/message_parser.cpp:64-69 | a frame cut behind its header is too short for its size, one cut in the header has no header |
| MessageParsers.ParseAllOfFrames | src/wayland/message_parser.cpp:80-86 | whole messages in front are yielded exactly, in order, whatever follows them |
| MessageParsers.ParseUnparse | src/wayland/message_parser.cpp:28-88 | parsing inverts concatenating frames and does not throw |
| MessageParsers.ParseAllIsPrefix | src/wayland/message_parser.cpp:33-86 | on arbitrary bytes the yielded frames are a prefix of the input, and it throws exactly when something is left, with the error of the first unreadable message |
| MessageParsers.ParseAllIsLongest | src/wayland/message_parser.cpp:33-86 | every reading of a prefix of the input as whole messages is a prefix of what is yielded |
| MessageParsers.UnparseInjective | src/wayland/message_parser.cpp:28-88 | a byte string is the frames of at most one list of messages |
| MessageParsers.ParsedMessageGenerator.Resume | src/wayland/message_parser.cpp:80-87 | one resumption of the coroutine yields the next message, ends, or throws, and advances by exactly the message |
| MessageParsers.MessageParser.MessageGenerator | src/wayland/message_parser.cpp:90-92 | a generator over the parser's own copy of the bytes |
| MessageInterpreters.InterpretPayload | include/waylander/wayland/message_intrperter.hpp:37-102 | on payloads no read leaves, the loop computes the arguments and final offset of the specification |
| MessageInterpreters.ReadElementIs | include/waylander/wayland/message_intrperter.hpp:43-96 | on any bytes, what each kind reads: the word itself, or the integer congruent to it modulo 2^32, or the bytes behind a length, and how far it moves on |
| MessageInterpreters.ReadAllIff | include/waylander/wayland/message_intrperter.hpp:41-101 | on any payload, the result is the arguments read one after the other, each at the offset where the read before it led |
| MessageInterpreters.ReadEncoded | include/waylander/wayland/message_intrperter.hpp:43-96 | one encoded argument is read back, advancing by exactly its padded size |
| MessageInterpreters.InterpretEncoded | include/waylander/wayland/message_intrperter.hpp:41-101 | the interpreter inverts append on payloads and ends exactly at the end |
| MessageInterpreters.OffsetsAligned | include/waylander/wayland/message_intrperter.hpp:41-101 | before every argument the offset is the sum of the sizes so far, a multiple of four inside the payload |
| MessageInterpreters.PaddingIrrelevant | include/waylander/wayland/message_intrperter.hpp:41-101 | any two encodings of the same arguments are read alike |
| NullStrings.StringAdvancesIff | include/waylander/wayland/message_intrperter.hpp:45-60 | reading a string reaches its end exactly when its length field is not zero |
| NullStrings.NullStringStays | include/waylander/wayland/message_intrperter.hpp:49-53 | behind a null string everything is read from its length field again |
| NullStrings.NullStringMisread | include/waylander/wayland/message_intrperter.hpp:49-53 | a null string followed by any integer is read as a null string followed by 0 |
| NullStrings.NullStringsReadAsSentIff | include/waylander/wayland/message_intrperter.hpp:41-101 | a payload with null strings is read as it was sent if and only if everything behind the first null string is a zero, an empty array or an empty string; payloads are excluded in which reading comes to the length of an empty string behind a null string with everything right so far |
| NullStrings.RightByCoincidence | include/waylander/wayland/message_intrperter.hpp:41-101 | on such a payload a 1 behind a null string is read as sent, because it is read from that length |
| OverloadSets.KeyHash | src/wayland/message_overload_set.cpp:21-40 | the eight bytes filled by memcpy and memset are object + 2^32 * opcode |
| OverloadSets.PackedKeyInjective | src/wayland/message_overload_set.cpp:30-36 | different keys give different words |
| OverloadSets.FirstRegistrationWins | include/waylander/wayland/message_overload_set.hpp:59-71 | after any sequence of calls a key is present exactly if it was registered, with its first overload |
| OverloadSets.MessageOverloadSet.AddOverload | include/waylander/wayland/message_overload_set.hpp:60-71 | inserts, or fails on a taken key and changes nothing |
| OverloadSets.MessageOverloadSet.OverloadResolution | src/wayland/message_overload_set.cpp:42-51 | the overload of the key, or nothing |
| OverloadSets.DispatchMore | src/wayland/connected_client.cpp:179-182 | one more message runs the overload of its object and opcode with its payload, or nothing |
| OverloadSets.MessageOverloadSet.MessageVisit | include/waylander/wayland/message_visitor.hpp:36-49 | one event: the overload of the message's object and opcode with its payload, or the default with the whole message |
| OverloadSets.MessageOverloadSet.MessageVisitRange | include/waylander/wayland/message_visitor.hpp:52-61 | event i is that of message i, and there are as many as messages |
| OverloadSets.DispatchIsVisitWithoutDefaults | src/wayland/connected_client.cpp:179-182 | the dispatch of until is message_visit with a default that does nothing |
| Framing.LoopReturnsIff | src/wayland/connected_client.cpp:109-135 | the goto loop returns exactly when it never meets a declared size of zero |
| Framing.FramingAgreesWithParser | src/wayland/connected_client.cpp:103-136 | on sound sizes the framed prefix is what the parser takes apart without throwing, and all it would yield from the whole buffer |
| Framing.FramedIsLongestWholePrefix | src/wayland/connected_client.cpp:117-135 | the framed prefix is whole messages and no longer prefix is |
| Framing.ParserNeverThrowsIff | src/wayland/message_parser.cpp:64-69 | whenever the framing loop returns, the parser accepts its result if and only if every size met is at least eight |
| ConnectedClients.ConnectedClient.GetRecdBytesFormingWholeMessages | src/wayland/connected_client.cpp:103-136 | the loop over offsets returns the prefix the walk defines |
| ConnectedClients.ConnectedClient.RecvMoreData | src/wayland/connected_client.cpp:60-101 | through over-sized unspecified resizes and re-reads, the buffer ends up as the old bytes and the received ones, on both exits |
| Receive.EveryScheduleRealised | src/wayland/connected_client.cpp:81 | any list of legal read lengths is what some oracle picks in successive reads, so that no schedule is left out |
| Receive.FirstMatch | src/wayland/connected_client.cpp:163 | the index of the first message with the target's object and opcode |
| Receive.RecvMore | src/wayland/connected_client.cpp:72-100 | pending bytes are conserved, the old buffer stays in front, end-of-file only with nothing unread, progress otherwise |
| Receive.RequestSize | src/wayland/connected_client.cpp:73-80 | what is asked for never fills up a 32-bit word |
| Receive.RereadsUnaligned | src/wayland/connected_client.cpp:90-98 | for any bytes and schedule a re-read happens at a position that is not a multiple of four |
| Receive.RereadsRecorded | src/wayland/connected_client.cpp:74-98 | every read but the last is followed by a re-read, recorded at the buffer sizes full reads lead to |
| Receive.UntilRereadsRecorded | src/wayland/connected_client.cpp:152-193 | until leaves no re-read out: its reads are the recorded ones and the last of each reception |
| Receive.EofOnlyWhenDrained | src/wayland/connected_client.cpp:83-98 | on streams ending at a multiple of four, end-of-file is reported exactly by a call that had nothing to receive, and every re-read is owed bytes |
| Receive.EofDespiteProgressIff | src/wayland/connected_client.cpp:83-98 | some schedule throws at end-of-file after receiving bytes if and only if full reads use up the unread bytes exactly |
| Receive.NoZeroReturns | src/wayland/connected_client.cpp:152-154 | without a declared size of zero among the pending bytes every framing loop until enters returns |
| Schedules.AtOnce | src/wayland/connected_client.cpp:72-100 | one call can receive any number of unread bytes that full reads do not use up exactly |
| Schedules.GetsSome | src/wayland/connected_client.cpp:72-100 | a call that returns received such a number, at least one, in order behind the old buffer |
| Schedules.UntilReturnsIff | src/wayland/connected_client.cpp:152-192 | until returns under every schedule if and only if no size of zero is buffered, and the buffer ends the call or, wherever unread bytes bring one in, what has to be received on the way there ends the call |
| ConnectedClients.ConnectedClient.RecvEvents | src/wayland/connected_client.cpp:138-146 | the parser owns exactly the whole messages, which are erased from the buffer |
| ConnectedClients.ConnectedClient.VisitWholeMessages | src/wayland/connected_client.cpp:156-183 | the loop stops exactly if a message has the target's object and opcode, at the first one, whose payload goes to the callback instead of its overload; earlier ones are dispatched, and the bytes up to its end counted |
| ConnectedClients.ConnectedClient.Until | src/wayland/connected_client.cpp:148-194 | ends, and leaves buffer, socket and trace as the specification function says |
| ReceiveProperties.FramedOfStream | src/wayland/connected_client.cpp:152-154 | a buffer that begins a stream frames and parses to the messages complete in it, and what stays begins the rest of the stream |
| ReceiveProperties.StreamNeverMeetsZero | src/wayland/connected_client.cpp:125-133 | on streams of messages the framing loop always returns |
| ReceiveProperties.UntilSplitsAtTarget | src/wayland/connected_client.cpp:148-194 | on streams of whole words ending at a multiple of four, for every schedule, until splits the messages at the first match: earlier ones dispatched once in order, the match to the callback only, the rest left; without a match end-of-file after all are handled |
| ReceiveProperties.ScheduleIndependent | src/wayland/connected_client.cpp:148-194 | on such streams two schedules, and two cuts between buffer and unread bytes, give the same outcome, trace, consumed messages and pending bytes |
| RunProperties.UntilAccounted | src/wayland/connected_client.cpp:156-193 | for arbitrary bytes every handler run belongs to a message taken out of the buffer, or to one still stuck in it after the parser threw |
| RunProperties.UntilConserves | src/wayland/connected_client.cpp:168-190 | for arbitrary bytes until removes whole messages from the front and nothing else |
| RunProperties.RunConserves | src/wayland/connected_client.cpp:138-194 | over any run on arbitrary bytes, bytes handed out, buffered and unread are the original stream |
| RunProperties.RunDeliversInOrder | include/waylander/wayland/connected_client.hpp:45-46 | on every stream of messages, whole words or not, over any interleaving and schedule, also beyond an end-of-file, the delivered messages are a prefix of the sent ones and the buffer begins at the boundary behind them |
| RunProperties.RecvEventsDelivers | src/wayland/connected_client.cpp:138-146 | recv_events leaves no whole message in the buffer, or throws and changes nothing pending; when a multiple of four bytes is pending it throws exactly when nothing is unread |
| RunProperties.UntilsRefineSplitting | src/wayland/connected_client.cpp:148-194 | on such streams any number of until calls on any schedule runs the handlers, and leaves the messages, of repeatedly splitting the list sent |
| RunProperties.RereadsInsideMessages | src/wayland/connected_client.cpp:61-98 | in every run on a stream of whole words a re-read happens strictly inside a message, with bytes still owed |
| Truncation.HandlesAllUnderEveryScheduleIff | src/wayland/connected_client.cpp:74-97 | on every stream of messages, with or without the target and wherever it breaks off, until splits it at the target under every schedule if and only if no number of unread bytes that full reads can use up reaches back into the wanted messages |
| Truncation.SkipsByLength | src/wayland/connected_client.cpp:74-80 | with messages of whole words that condition depends on the lengths alone, and a stream ending at a multiple of four always meets it |
| Truncation.RetryAfterEof | src/wayland/connected_client.cpp:152-190 | after any end-of-file, on any stream and schedule, that call and a further one together split the stream at the target: no message is lost or handled twice |
| Malformed.UnsoundFramed | src/wayland/connected_client.cpp:117-135 | in front of a declared size below eight the framed prefix holds every message the parser would yield from the whole buffer |
| Malformed.ThrowsOnlyIf | src/wayland/connected_client.cpp:152-190 | a call that throws the parser's exception had no size of zero in the buffer, and the first pending size below eight is not zero and has no message for the target in front |
| Malformed.MalformedRepeats | src/wayland/connected_client.cpp:159-190 | some schedule makes until throw the parser's exception if and only if that is so; after every throw the next call runs the handlers of the messages left in the buffer and throws again |
| Malformed.HandledTwiceIff | src/wayland/connected_client.cpp:159-190 | some schedule makes until throw and the next call run a handler again if and only if no size of zero is buffered and until can go on to bytes on which it throws with a message in the buffer that has an overload and was not erased on the way |
| Malformed.HandledTwiceUsuallyIff | src/wayland/connected_client.cpp:159-190 | with no size of zero pending, and lengths that full reads do not use up exactly, that means: poisoned bytes, and a message behind the ones framed already that has an overload |
| Malformed.HandlerRunsTwice | src/wayland/connected_client.cpp:159-190 | a message with an overload followed by a header of size one to seven: two until calls run its handler twice |
| ConnectedClients.ConnectedClient.HasRegisteredRequests | include/waylander/wayland/connected_client.hpp:110-112 | true exactly if a request was registered since the last flush |
| ConnectedClients.ConnectedClient.RegisterRequest | include/waylander/wayland/connected_client.hpp:103-106 | the request's frame goes behind the registered ones; bytes and descriptors stay those of the registered requests |
| ConnectedClients.ConnectedClient.FlushRegisteredRequests | src/wayland/connected_client.cpp:38-58 | sends one byte with each descriptor from the front, then the rest, for all requests registered since the last flush; nothing when there is none |
| Flush.FlushSendsEverything | src/wayland/connected_client.cpp:47-57 | all bytes in order, all descriptors in order, none twice |
| Flush.FdTravelsWithByte | src/wayland/connected_client.cpp:48-54 | descriptor k travels with byte k |
| Flush.ArgumentTravels | src/wayland/connected_client.cpp:48-57 | every descriptor argument of a batch leaves in its own packet, at its place among all of them, and one packet without a descriptor follows |
| Flush.TimelyIff | src/wayland/connected_client.cpp:44-57 | every descriptor leaves by the end of its own message if and only if up to each message with descriptors there are at least as many bytes as descriptors |
| Flush.FewFdsFlushable | src/wayland/connected_client.cpp:44-45 | with at most seven descriptors per message the size assertion holds |
| Flush.FewFdsTimely | include/waylander/wayland/message_buffer.hpp:104 | with at most seven descriptors per message every descriptor is in time |
| Flush.DescriptorArrives | src/wayland/connected_client.cpp:38-58 | in the flush of any registered batch descriptor k of message j leaves with byte k, at or before the end of message j |
| RequestRuns.RequestsArriveInOrder | src/wayland/connected_client.cpp:38-58 | over any registrations and flushes, bytes sent and buffered are the frames of all requests in order, descriptors likewise, and each is in time if and only if every batch flushed has at least as many bytes as descriptors up to each message with some |
| RequestRuns.FewFdsCovered | include/waylander/wayland/message_buffer.hpp:104 | with at most seven descriptors per message every batch of every run does |
| Flush.OwnerExists | include/waylander/wayland/message_buffer.hpp:104 | every queued descriptor belongs to a registered message |
| Flush.OwnerUnique | include/waylander/wayland/message_buffer.hpp:104 | and to one only |
| EndToEnd.FramesCarry | include/waylander/wayland/message_buffer.hpp:46-131 | bytes of messages that fit are the frames of parsed messages with the same header and encodings of the same arguments |
| EndToEnd.FramingRoundTripIff | include/waylander/wayland/message_buffer.hpp:125 | the parser recovers the appended messages if and only if none is larger than 65535 bytes |
| EndToEnd.CodecRoundTrip | include/waylander/wayland/message_intrperter.hpp:37-102 | append, release, parse and interpret give back objects, opcodes and arguments in order |
| EndToEnd.DispatchedIsIntended | include/waylander/wayland/message_overload_set.hpp:60-67 | dispatching the parsed messages calls the typed handlers with the original arguments |
| EndToEnd.IntendedMore | include/waylander/wayland/message_overload_set.hpp:60-67 | what is intended for one more message: the handler of its object and opcode with its arguments, or nothing |
| EndToEnd.CallsMore | include/waylander/wayland/connected_client.hpp:71-88 | one more event on an encoded payload shows user code the arguments encoded |
| EndToEnd.UntilEndToEnd | include/waylander/wayland/connected_client.hpp:71-88 | peer's appends to handler calls: original arguments, in order, callback (if there is one) for the target, encodings of the later messages left |
| EndToEnd.UntilsEndToEnd | include/waylander/wayland/connected_client.hpp:71-88 | the same over any number of until calls with their own tables, targets and callbacks |
| UniqueHandles.ApplyKeepsInv | include/waylander/sstd.hpp:39-66 | each operation keeps: one active owner or one release per resource, never both |
| UniqueHandles.MoveAssignMovesIff | include/waylander/sstd.hpp:60-66 | the target becomes the source's former handle if and only if they differ or the handle was inactive; self-assignment releases an active one |
| UniqueHandles.MoveAssignMoves | include/waylander/sstd.hpp:60-66 | between different handles: the left side's resource is released if owned, the right side's passes over, nothing else changes |
| UniqueHandles.MoveConstructMoves | include/waylander/sstd.hpp:52-54 | resource and activity pass to the new handle, the source turns inactive, nothing is released |
| UniqueHandles.UniqueHandle.constructor | include/waylander/sstd.hpp:39 | an active handle; the effect of the state machine's construction |
| UniqueHandles.OwnershipOverRuns | include/waylander/sstd.hpp:32-72 | over any run no resource has two active owners or two releases, and once all handles are destroyed each is released exactly once |
| UniqueHandles.UniqueHandle.Destruct | include/waylander/sstd.hpp:41-46 | releases if and only if active; the effect of the state machine's destruction |
| UniqueHandles.UniqueHandle.Move | include/waylander/sstd.hpp:52-54 | takes over resource and activity; the effect of the state machine's move construction |
| UniqueHandles.UniqueHandle.Assign | include/waylander/sstd.hpp:60-66 | has the effect of the state machine's move assignment, also when both sides are the same object |
| ByteArrays.ByteAtIsDigit | include/waylander/byte_array.hpp:45-50 | the shifted and truncated byte is the base-256 digit |
| ByteArrays.PackedAt | include/waylander/byte_array.hpp:42-59 | byte b of element i stands behind all bytes of earlier elements and is that base-256 digit of it |
| ByteArrays.PackedIsMixedValue | include/waylander/byte_array.hpp:42-59 | the bytes are the base-256 digits of the mixed-width value |
| ByteArrays.PackedEqualIff | include/waylander/byte_array.hpp:79-80 | lists of equal total width give equal arrays exactly when their values agree |
| ByteArrays.ByteArray.constructor | include/waylander/byte_array.hpp:42-59 | the constructor's nested loops write the packed bytes |

## Left out

- ConnectedClients.ConnectedClient.Until: requires that the framing loops it enters return, because on a declared size of zero they do not; handlers that throw or call back into the client are not modelled.
- ConnectedClients.ConnectedClient.FlushRegisteredRequests: requires the source's own assertion; a build without assertions has undefined behaviour where it fails. Partial sends and write errors are not modelled.
- MessageBuffers.MessageBuffer.Append: lengths above 32 bits are narrowed as in the cast; the assertions that abort on them in debug builds are not modelled.
- MessageInterpreters.InterpretPayload: requires that no byte outside the payload is read, as the source does; forming the address one past the end for an empty array at the end of a payload is not counted as a read.
- NullStrings.NullStringsReadAsSentIff: payloads that are not `Decided` are excluded; `NullStrings.RightByCoincidence` is one, where the condition fails and reading is right.
- OverloadSets.KeyHash: the final `std::hash` and the buckets of the hash map are not modelled.
- UniqueHandles.UniqueHandle.Assign: the destructor of the base object that the explicit destructor call also runs, and the value a moved-from base keeps, are not modelled; only identity of resources is.
- The gnulander socket, descriptor and memory-mapping code is not part of this model, apart from reads of one to the requested number of bytes, in-order writes and sends of one byte with one descriptor.
- Error codes of the socket, `errno` and message formatting: system plumbing.
- Lifetime of spans into the receive buffer: handlers get the bytes by value.
- The generated protocol headers and their generator: a message type is any list of argument kinds.
- `Wfixed` as a number, and big-endian machines, which the source refuses.
- Events with descriptors: the source does not receive them.
- The `memcpy` constructor of `byte_array`, object id reservation, the socket path and the example programs would add easy members only.
