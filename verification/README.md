# Low-latency data client: protocol engine

This project models the protocol engine of the streaming client
`LowLatencyDataClient` in Dafny and proves properties of it. The client
connects to an acquisition server over TCP, and everything it exchanges is a
framed message: an 8-byte header (`id`, `length`, both big-endian 32-bit)
followed by a payload. Ids 0..7 carry channel samples. The reserved id
`METADATA_ID` carries JSON control messages.

The model has five modules:

- `Wire` (wire.dfy): the byte layout.
  - `ntohl`/`htonl` as `DecodeBE32`/`EncodeBE32`.
  - The header and the outbound frame.
  - The C `&` used to classify ids.
  - The `int` conversion of a 32-bit id.
- `Reassembly` (reassembly.dfy): the socket read loop.
  - `Step` is one iteration of the loop as the source writes it, as a function of the bytes held and the next read target.
  - The class `FrameReader` holds the loop's buffer (`m_Data`, an `array`), `nBufferOffset` and `nAmount2Read`. Its method `Feed` is proved to compute `Step`.
  - `Run` is the loop over a sequence of chunks returned by `receive`.
  - `Frames` is a reference framing of a byte stream. It does not depend on how the stream is chunked.
  - `StepIntended` is the corrected iteration (see Findings). A reader built with `exact` set runs `StepIntended`; one built without it runs the source's `Step`. `Next` selects between the two.
- `Channels` (channels.dfy): the registry tables and the map and vector operations on them.
  - The subscribed table is taken to be a `std::map<int, ChannelInfo>` keyed by channel id. The class header that declares it is not part of this model, so this is an inference. It rests on the `m_m` prefix, the `#include <map>` in ll-client.h and the use of `std::map` elsewhere in the program. It is modelled as a sequence of entries strictly sorted by id. The first-match results by name (`FindNameIsFirst`, `SubscribedChannelId`) and the event order of `ResetEvents` depend on that ordering.
- `Control` (control.dfy): what each inbound message does, as functions from a `State` to a `State`. A `State` is the registry, the log of events handed to the consumer's callback, and the log of requests sent.
  - The JSON key dispatch of `ProcessMetadataPacket`.
  - The routing of `ProcessPacket`.
  - The request bodies of the outbound operations.
- `Handlers` (handlers.dfy): the lemmas stating what each handler promises.
- `Client` (client.dfy): the client object itself.
  - The class `LowLatencyDataClient` has the four tables and the acquisition flag as fields, plus the event log.
  - Its methods are the source's member functions, loops included. Each is proved to leave exactly the state the matching `Control` function describes.
  - The class `Socket` is the connection's write side: every request sent, and every byte written, one frame per request.

## Model

| member | source | states |
|---|---|---|
| Wire.DecodeBE32 | LowLatencyDataClient.cpp:90-91 | definition: `ntohl` on four bytes, most significant first; round trip in `EncodeBE32` |
| Wire.DecodeHeader | LowLatencyDataClient.cpp:90-91 | definition: the header fields read from the first eight bytes; round trip in `EncodeHeader` |
| Wire.EncodeBE32 | LowLatencyDataClient.cpp:436-437 | `htonl` writes four bytes, most significant first, that `ntohl` reads back as the same value |
| Wire.EncodeHeader | LowLatencyDataClient.cpp:434-437 | the 8-byte header written for `{id, length}` decodes back to the same header |
| Wire.Frame | LowLatencyDataClient.cpp:431-443 | an outbound frame is a header carrying `METADATA_ID` and payload length + 8 (truncated to the 32-bit field), followed by the payload; when no truncation happens, the length field is the frame's whole length |
| Wire.BitAnd | LowLatencyDataClient.cpp:148 | the C `&` on unsigned values; the result never exceeds either operand |
| Wire.BitAndSelf | LowLatencyDataClient.cpp:148-149 | `x & x == x`, so `METADATA_ID` itself has the metadata bits set |
| Wire.BitAndLowBits | LowLatencyDataClient.cpp:91-92 | a data id 0..7 shares no bit with a multiple of 8 |
| Wire.AsInt32 | LowLatencyDataClient.cpp:162-166 | the 32-bit id converted to `int` is its two's-complement value: congruent modulo 2^32, in the `int` range, and unchanged below 2^31 |
| Reassembly.Payload | LowLatencyDataClient.cpp:367-368 | the payload is exactly the bytes between the header and `length`; a header with `length` below 8 carries none |
| Reassembly.InitialInv | LowLatencyDataClient.cpp:51-52 | the loop starts with no bytes held and a target of one header |
| Reassembly.StepKeepsInv | LowLatencyDataClient.cpp:82-109 | every iteration that does not leave the loop keeps the loop invariant: either short of a header with a target of 8, or inside a legal message with the target equal to the bytes it still lacks |
| Reassembly.AbortCases | LowLatencyDataClient.cpp:58-113 | the loop leaves exactly when the next read could overflow the buffer, the read fails, or a message still incomplete has an id that is above 7 and not `METADATA_ID` |
| Reassembly.DispatchIsWhole | LowLatencyDataClient.cpp:102-108 | a dispatched message is whole: the bytes held cover the header and its `length`, the header decodes to the message's id and length, the payload is the bytes in between, and the reader then expects a new header |
| Reassembly.EmptyReadIsNoOp | LowLatencyDataClient.cpp:82-113 | a zero-byte read changes nothing and the loop goes on |
| Reassembly.ShortMessageTarget | LowLatencyDataClient.cpp:90-100 | while a legal message is short, the next target is `length - offset` |
| Reassembly.StepIntended | LowLatencyDataClient.cpp:86-88 | the corrected iteration: a partial header asks only for its missing bytes |
| Reassembly.StepIntendedKeepsInv | LowLatencyDataClient.cpp:82-109 | every corrected iteration that does not leave the loop keeps the target at exactly what the current header or message still lacks |
| Reassembly.NextKeepsInv | LowLatencyDataClient.cpp:82-109 | whichever iteration the reader runs, the source's or the corrected one, an iteration that does not leave the loop keeps that loop's invariant |
| Reassembly.Step | LowLatencyDataClient.cpp:55-113 | definition: one iteration of the loop as written; properties in `StepKeepsInv`, `AbortCases`, `DispatchIsWhole`, `EmptyReadIsNoOp`, `ShortMessageTarget` and the split-header lemmas |
| Reassembly.Next | LowLatencyDataClient.cpp:55-113 | definition: the iteration the reader runs, `Step` or `StepIntended`; properties in `NextKeepsInv` and `FrameReader.Feed` |
| Reassembly.Run | LowLatencyDataClient.cpp:44-122 | definition: the loop over the results of successive `receive` calls, up to the first abort; properties in `IntendedFollowsFrames`, `ChunkingDoesNotMatter`, `SplitHeaderLosesNextMessage` and `SocketReadThread` |
| Reassembly.IntendedStepInStream | LowLatencyDataClient.cpp:82-109 | inside a well-formed stream, one corrected iteration never aborts, keeps its invariant, and either keeps the bytes read or dispatches the stream's first frame |
| Reassembly.IntendedFollowsFrames | LowLatencyDataClient.cpp:44-122 | when no read fails, the corrected loop dispatches exactly the reference framing of the bytes it is given, however they are chunked, and holds the incomplete rest |
| Reassembly.ChunkingDoesNotMatter | LowLatencyDataClient.cpp:44-122 | any two chunkings of the same well-formed stream, no read failing, make the corrected loop dispatch the same messages |
| Reassembly.EmptyMessageFrames | LowLatencyDataClient.cpp:86-108 | two header-only messages are well formed and frame as two messages |
| Reassembly.WholeHeaderReads | LowLatencyDataClient.cpp:86-108 | read as 8 + 8 bytes, the loop dispatches both header-only messages |
| Reassembly.SplitHeaderReads | LowLatencyDataClient.cpp:86-108 | read as 4 + 8 + 4 bytes, the same bytes dispatch one message, and the loop is left holding the tail of the second header |
| Reassembly.SplitHeaderLosesNextMessage | LowLatencyDataClient.cpp:86-88 | the loop as written fails the chunking property: two chunkings of one well-formed stream dispatch different messages |
| Reassembly.FrameReader.constructor | LowLatencyDataClient.cpp:15-20 | a fresh buffer of `recvBufSize` bytes, with the loop at its initial state and running the iteration `exact` selects |
| Reassembly.FrameReader.Receive | LowLatencyDataClient.cpp:71-72 | `receive` stores the chunk at `m_Data + nBufferOffset` and keeps the bytes before it |
| Reassembly.FrameReader.ReadHeader | LowLatencyDataClient.cpp:90-91 | the header fields are read from the first eight bytes in host order |
| Reassembly.FrameReader.ReadPayload | LowLatencyDataClient.cpp:367-368 | the payload read from the buffer is the message's payload |
| Reassembly.FrameReader.Feed | LowLatencyDataClient.cpp:55-113 | one iteration over the buffer leaves the state and outcome `Next` gives (the source's `Step`, or `StepIntended` when `exact`), keeps the invariant, and stops exactly on `Abort` |
| Reassembly.FrameReader.Settle | LowLatencyDataClient.cpp:90-108 | once a whole header is held: an illegal id of an incomplete message aborts, a short message sets the target to the bytes it lacks, and a complete one is dispatched and the buffer reset, as `Next` gives |
| Channels.FindName | LowLatencyDataClient.cpp:182-185 | the walk by name stops at the first entry that has the name, or at the end |
| Channels.FindNameIsFirst | LowLatencyDataClient.cpp:182-185 | on the id-sorted map the walk reaches the end exactly when no entry has the name, and otherwise finds the name's entry with the smallest id |
| Channels.FindPending | LowLatencyDataClient.cpp:211-213 | the walk of the pending list stops at the first request with the name, or at the end |
| Channels.RemoveAt | LowLatencyDataClient.cpp:192 | erase through an iterator: the other elements stay, in order |
| Channels.RemoveAtKeepsSorted | LowLatencyDataClient.cpp:192 | erasing keeps the map sorted by id |
| Channels.RemoveAtMembers | LowLatencyDataClient.cpp:192 | erasing removes exactly the entry with that id |
| Channels.Put | LowLatencyDataClient.cpp:226 | `subscribed[id] = info` keeps the map sorted; afterwards it holds the new entry and every entry with another id |
| Control.Classify | LowLatencyDataClient.cpp:374-397 | the first key present, in the handler's order, wins and carries its value; no recognised key means an unknown message; a parse failure means a malformed one |
| Control.RoutePacket | LowLatencyDataClient.cpp:146-154 | an id with a metadata bit set is control exactly when it equals `METADATA_ID` and is dropped otherwise; data exactly when no bit is shared; ids 0..7 are always data |
| Control.SampleCount | LowLatencyDataClient.cpp:168 | the payload length divided into 4-byte samples, rounding down, in 64-bit `size_t` arithmetic |
| Control.Describe | LowLatencyDataClient.cpp:270-279 | an advertised channel's descriptor has its name and decimation factor 1 |
| Control.UnsubscribeSends | LowLatencyDataClient.cpp:500-509 | definition: one unsubscribe request for the subscribed ids, or none; properties in `UnsubscribeSendsSpec` |
| Control.UnsubscribeIds | LowLatencyDataClient.cpp:500-507 | the body of an unsubscribe request holds exactly the requested ids that are subscribed, at most one per requested id |
| Control.UnsubscribeIdsOne | LowLatencyDataClient.cpp:502-506 | a single requested id is kept exactly when it is subscribed |
| Control.UnsubscribeIdsAppend | LowLatencyDataClient.cpp:500-507 | the filter keeps request order: what it keeps from two requests in a row is what it keeps from the first followed by what it keeps from the second |
| Control.UnsubscribeIdsCounts | LowLatencyDataClient.cpp:500-507 | the filter keeps duplicates: a subscribed id occurs as often as it was requested, any other id never |
| Control.ResetEvents | LowLatencyDataClient.cpp:338-349 | one zero-timestamp event per subscribed entry, in id order |
| Control.SubscribeFactors | LowLatencyDataClient.cpp:419-427 | definition: the name-to-factor body the loop builds; properties in `SubscribeFactorsSpec` and `SubscribeSnoc` |
| Control.SubscribeSends | LowLatencyDataClient.cpp:419-429 | definition: one subscribe request when some name is available, or none; properties in `SubscribeSendsSpec` |
| Control.OnData | LowLatencyDataClient.cpp:159-172 | definition: a data packet; properties in `OnDataSpec` |
| Control.OnUnsubscribed | LowLatencyDataClient.cpp:179-196 | definition: one name of an `unsubscribed` message; properties in `OnUnsubscribedSpec` |
| Control.UnsubscribeResponse | LowLatencyDataClient.cpp:177-197 | definition: a whole `unsubscribed` message; properties in `UnsubscribedFold` |
| Control.OnSubscribed | LowLatencyDataClient.cpp:205-256 | definition: one confirmation of a `subscribed` message; properties in `OnSubscribedSpec` |
| Control.SubscribeResponse | LowLatencyDataClient.cpp:202-257 | definition: a whole `subscribed` message; properties in `SubscribedFold` |
| Control.OnAvailable | LowLatencyDataClient.cpp:266-290 | definition: one entry of an `available` message; properties in `OnAvailableSpec` |
| Control.AvailableChannels | LowLatencyDataClient.cpp:262-292 | definition: a whole `available` message; properties in `AvailableFold`, `AvailableCount`, `AvailableEvents`, `AvailableOrder` and `AvailableAnnounced` |
| Control.UnsubscribeNamed | LowLatencyDataClient.cpp:311-317 | definition: the walk of the subscribed map for an unavailable name; properties in `UnsubscribeNamedSpec` |
| Control.OnUnavailable | LowLatencyDataClient.cpp:300-325 | definition: one name of an `unavailable` message; properties in `OnUnavailableTables` and `OnUnavailableSpec` |
| Control.UnavailableChannels | LowLatencyDataClient.cpp:297-326 | definition: a whole `unavailable` message; properties in `UnavailableKeepsSorted`, `UnavailableFold`, `UnavailableEvents` and `UnavailableSends` |
| Control.ResetTimestamps | LowLatencyDataClient.cpp:338-341 | definition: the timestamps after "off"; properties in `ResetTimestampsSpec` |
| Control.OnAcquisitionState | LowLatencyDataClient.cpp:332-359 | definition: an `acquisition_state` message; properties in `OnAcquisitionStateSpec` |
| Control.OnControl | LowLatencyDataClient.cpp:374-397 | definition: the dispatch of a classified control message to its handler; properties in `OnControlKeepsSorted` |
| Control.OnPacket | LowLatencyDataClient.cpp:146-154 | definition: `ProcessPacket` on the abstract state; properties in `OnPacketKeepsSorted` and `OnlyControlChangesRegistry` |
| Control.SubscribeFactorsSpec | LowLatencyDataClient.cpp:419-427 | the body of a subscribe request names exactly the requested channels that are available; a name requested twice keeps its last factor |
| Control.SubscribeSnoc | LowLatencyDataClient.cpp:420-427 | one more iteration of the request-building loop adds the element's factor when its name is available |
| Handlers.OnUnsubscribedSpec | LowLatencyDataClient.cpp:179-196 | for one name, the entry met first with it is reported and is the only one erased; an unknown name changes nothing; no other table changes and nothing is sent |
| Handlers.UnsubscribedFold | LowLatencyDataClient.cpp:177-197 | a whole message erases one entry per event it emits, each event an unsubscription, keeps the map sorted and touches no other table |
| Handlers.OnSubscribedSpec | LowLatencyDataClient.cpp:205-256 | for one confirmation whose name is pending and available: the first such pending request is consumed, the available descriptor is stored under the id, the timestamp is recorded, and CHANNEL_SUBSCRIBED then CHANNEL_FIRST_SAMPLE_TS are emitted; otherwise nothing changes |
| Handlers.SubscribedFold | LowLatencyDataClient.cpp:202-257 | a whole message emits two events per pending request it consumes, keeps the map sorted, and leaves the available table alone |
| Handlers.OnAvailableSpec | LowLatencyDataClient.cpp:266-290 | a name already available changes nothing; a new one is stored with the advertised descriptor and decimation 1, every other entry kept, and announced with one event |
| Handlers.AvailableFold | LowLatencyDataClient.cpp:262-292 | every advertised name ends up available; a name already present keeps its descriptor; each new one holds the descriptor, with decimation 1, of the entry that first advertised it |
| Handlers.AvailableCount | LowLatencyDataClient.cpp:281-290 | the message appends as many events as it adds names and removes no name; with `AvailableOrder` (no name twice) and `AvailableAnnounced` (every added name announced) this is one event per added name |
| Handlers.AvailableEvents | LowLatencyDataClient.cpp:287-290 | each event announces a name that was new, with the descriptor stored for it |
| Handlers.AvailableOrder | LowLatencyDataClient.cpp:262-292 | the events come in the order in which their names are first advertised, so no name is announced twice |
| Handlers.AvailableAnnounced | LowLatencyDataClient.cpp:281-290 | every name the message adds is announced by one of its events, with the descriptor stored for it |
| Handlers.UnsubscribeOneSubscribed | LowLatencyDataClient.cpp:313 | unsubscribing an id that is still subscribed sends exactly one request for it |
| Handlers.UnsubscribeNamedSpec | LowLatencyDataClient.cpp:311-317 | for a name that became unavailable, the entry met first with it is unsubscribed (one request for its id) and is the only entry erased; an unknown name changes nothing |
| Handlers.OnUnavailableTables | LowLatencyDataClient.cpp:300-324 | for one name, it leaves the available and timestamp tables, pending and the flag are untouched, and one UNAVAILABLE_CHANNEL event is emitted, known name or not |
| Handlers.OnUnavailableSpec | LowLatencyDataClient.cpp:300-325 | for one name, the entry met first with it is unsubscribed with one request for its id and is the only entry erased; a name no entry has leaves the map and the requests as they were; the map stays sorted |
| Handlers.UnavailableKeepsSorted | LowLatencyDataClient.cpp:297-326 | a whole message keeps the subscribed map sorted |
| Handlers.UnavailableFold | LowLatencyDataClient.cpp:297-326 | afterwards no listed name is available or timestamped, every other entry of both tables is kept with its value, and pending and the flag are untouched |
| Handlers.UnavailableEvents | LowLatencyDataClient.cpp:322-324 | one UNAVAILABLE_CHANNEL event per listed name, in order |
| Handlers.UnavailableSends | LowLatencyDataClient.cpp:311-316 | one single-id unsubscribe request per subscribed entry erased |
| Handlers.ResetTimestampsSpec | LowLatencyDataClient.cpp:338-341 | after "off", every subscribed name has timestamp 0 and every other timestamp is as it was |
| Handlers.OnAcquisitionStateSpec | LowLatencyDataClient.cpp:332-359 | "off" clears the flag and zeroes each subscribed timestamp with one event each, in id order; "on" sets the flag; any other value keeps it; the last event always reports the flag |
| Handlers.OnDataSpec | LowLatencyDataClient.cpp:159-172 | a data packet adds one CHANNEL_DATA event exactly when its id is subscribed, and never changes the registry or sends |
| Handlers.OnControlKeepsSorted | LowLatencyDataClient.cpp:374-397 | whatever control message arrives, the subscribed map stays sorted and both logs only grow |
| Handlers.OnPacketKeepsSorted | LowLatencyDataClient.cpp:146-154 | the same for any dispatched packet |
| Handlers.OnlyControlChangesRegistry | LowLatencyDataClient.cpp:146-154 | only `METADATA_ID` traffic changes the registry or sends; a dropped id does nothing |
| Handlers.UnsubscribeSendsSpec | LowLatencyDataClient.cpp:500-509 | an unsubscribe request goes out exactly when some requested id is subscribed, and it names exactly those ids |
| Handlers.SubscribeSendsSpec | LowLatencyDataClient.cpp:419-429 | a subscribe request goes out exactly when some requested name is available, and it names exactly those names |
| Handlers.FrameReadBack | LowLatencyDataClient.cpp:434-443 | a frame the client writes is read back by the framing as one control message with the full length and the payload, ahead of what follows it |
| Client.Transmitted | LowLatencyDataClient.cpp:431-443 | definition: the bytes written for a sequence of requests, one frame each; properties in `TransmittedAppend` and `TransmittedReadBack` |
| Client.Deliver | LowLatencyDataClient.cpp:102-108 | definition: `ProcessPacket` applied to the dispatched messages in order; properties in `DeliverSnoc` and `SocketReadThread` |
| Client.TransmittedAppend | LowLatencyDataClient.cpp:442-443 | sending one more request appends its frame to the bytes written |
| Client.TransmittedReadBack | LowLatencyDataClient.cpp:431-443 | the bytes written read back as the requests sent, in order, each a control message carrying its serialised body, with nothing left over |
| Client.DeliverSnoc | LowLatencyDataClient.cpp:106 | processing one more message continues from the state the earlier ones left |
| Client.Socket.Send | LowLatencyDataClient.cpp:439-443 | a send logs the request and appends its frame to the wire |
| Client.LowLatencyDataClient.constructor | LowLatencyDataClient.cpp:15-22 | a connected client starts with empty tables, empty logs and a fresh reader running the iteration `exact` selects |
| Client.LowLatencyDataClient.ReadOnce | LowLatencyDataClient.cpp:55-113 | one iteration feeds the reader what `receive` returned, bytes or a failure, and a message it completes is processed before the next read |
| Client.LowLatencyDataClient.SocketReadThread | LowLatencyDataClient.cpp:44-122 | the loop dispatches what `Run` dispatches, processes each message as it is completed, and stops where `Run` stops; with the corrected iteration on a well-formed stream it never stops early and processes exactly the reference framing of the stream when no read fails |
| Client.LowLatencyDataClient.ProcessPacket | LowLatencyDataClient.cpp:146-154 | routes one message by its id, and keeps the map sorted |
| Client.LowLatencyDataClient.ProcessDataPacket | LowLatencyDataClient.cpp:159-172 | the state `OnData` gives |
| Client.LowLatencyDataClient.ProcessMetadataPacket | LowLatencyDataClient.cpp:364-409 | the handler of the first recognised key runs; the other cases change nothing |
| Client.LowLatencyDataClient.FindSubscribed | LowLatencyDataClient.cpp:182-185 | the loop finds the position `FindName` specifies |
| Client.LowLatencyDataClient.UnsubscribeResponseEntry | LowLatencyDataClient.cpp:179-195 | the inner walk for one name leaves the state `OnUnsubscribed` gives |
| Client.LowLatencyDataClient.ProcessUnsubscribeResponsePacket | LowLatencyDataClient.cpp:177-197 | the state `UnsubscribeResponse` gives |
| Client.LowLatencyDataClient.SubscribeResponseEntry | LowLatencyDataClient.cpp:206-255 | the walk of the pending list for one confirmation leaves the state `OnSubscribed` gives |
| Client.LowLatencyDataClient.ProcessSubscribeResponsePacket | LowLatencyDataClient.cpp:202-257 | the state `SubscribeResponse` gives |
| Client.LowLatencyDataClient.AvailableEntry | LowLatencyDataClient.cpp:266-290 | the state `OnAvailable` gives |
| Client.LowLatencyDataClient.ProcessAvailableChannelsPacket | LowLatencyDataClient.cpp:262-292 | the state `AvailableChannels` gives |
| Client.LowLatencyDataClient.UnsubscribeFirstNamed | LowLatencyDataClient.cpp:311-317 | the walk for an unavailable name leaves the map and sends the requests `UnsubscribeNamed` gives: the unsubscribe is built while the entry is still subscribed, then the entry is erased |
| Client.LowLatencyDataClient.UnavailableEntry | LowLatencyDataClient.cpp:301-324 | the state `OnUnavailable` gives |
| Client.LowLatencyDataClient.ProcessUnavailableChannelsPacket | LowLatencyDataClient.cpp:297-326 | the state `UnavailableChannels` gives |
| Client.LowLatencyDataClient.ResetFirstSampleTimestamps | LowLatencyDataClient.cpp:338-349 | the walk zeroes every subscribed timestamp and emits the matching events, in id order |
| Client.LowLatencyDataClient.ProcessAcquisitionStatePacket | LowLatencyDataClient.cpp:332-359 | the state `OnAcquisitionState` gives |
| Client.LowLatencyDataClient.SendSubscribeChannels | LowLatencyDataClient.cpp:414-444 | sends the request `SubscribeSends` describes (nothing when no requested name is available), and changes no table |
| Client.LowLatencyDataClient.SubscribedChannelId | LowLatencyDataClient.cpp:449-455 | -1 when no entry has the name; otherwise the id of the entry met first, in id order |
| Client.LowLatencyDataClient.SubscribeChannels | LowLatencyDataClient.cpp:460-470 | every requested descriptor is appended to pending, available or not; only the send is filtered |
| Client.LowLatencyDataClient.SubscribeChannel | LowLatencyDataClient.cpp:475-486 | one descriptor with only the name and factor set becomes pending; a request for it goes out exactly when the name is available |
| Client.LowLatencyDataClient.SendUnsubscribeChannels | LowLatencyDataClient.cpp:491-524 | sends the request `UnsubscribeSends` describes (nothing when no requested id is subscribed) |
| Client.LowLatencyDataClient.UnsubscribeChannels | LowLatencyDataClient.cpp:529-533 | the same as `SendUnsubscribeChannels` |
| Client.LowLatencyDataClient.UnsubscribeChannel | LowLatencyDataClient.cpp:538-542 | one request naming the id exactly when it is subscribed |
| Client.LowLatencyDataClient.Acquire | LowLatencyDataClient.cpp:547-566 | sends `{"acquire": !flag}` as one frame and leaves the flag unchanged |

Where the code does something other than its comments, its names or the
rest of the client lead one to expect, the model follows the code:

- `SubscribeChannels` (lines 460-470) appends every requested descriptor to
  the pending list, names that are not available included. Only the request
  that `SendSubscribeChannels` builds (lines 419-427) leaves those names out.
- `Acquire` is commented as toggling acquisition on and off (line 545). It
  sends the negated flag (line 551) but does not change
  `m_bAcquisitionState`. Only an `acquisition_state` message changes it
  (lines 332-359).
- A read that returns zero bytes passes neither the `nAmountRead > 0` test
  (line 82) nor the `nAmountRead < 0` test (line 110), so the loop reads
  again. Only a negative count or an exception leaves the loop.
- The partial-header branch (lines 86-88) is commented as waiting for the
  rest of the header. It keeps asking for a whole header, however, so the
  messages dispatched depend on how the stream is chunked (see Findings).

## Left out

- Connecting, the resolver and the `io_context` are left out; a constructed client is already connected. `receive` is the sequence of results given to `SocketReadThread`: a chunk of bytes, or `Failed`. The count is a `size_t` no larger than `nAmount2Read` stored in an `int` (lines 71-72), so it is never negative. `Failed` therefore stands for the exception `receive` throws, on a socket error or at end of stream. The zero-byte read that `EmptyReadIsNoOp` covers cannot come from a blocking socket asked for a nonzero amount; it is kept because the loop handles it. `send` is an append to the socket's logs.
- The reader thread, the `m_bSocketReadThreadExit` shutdown handshake, the closing of the socket after the loop and the destructor are left out: they are concurrency and I/O. The loop ends when the chunks run out or when it would `break`.
- JSON parsing and serialisation belong to a library outside the model. They are function parameters (`parse` and `dump`). A parse failure is the `Malformed` case, which changes nothing. A JSON value of the wrong type inside a handler, which throws part-way through a message, is not modelled. Neither is the diagnostic dump of the first 16 payload bytes.
- Floating point is not modelled. The sample period, scale and offset are carried as opaque reals. The first-sample timestamp is the integer nanosecond count: the division by 1e9 is left out, and "off" stores 0. The samples stay raw bytes; the `float*` view is not modelled.
- Logging to `std::cerr` and the `nDebug` traces are left out.
- The in-place rewrite of the header to host order before dispatch (lines 104-105) is left out. The dispatched `Message` carries the decoded fields, and the buffer is reset right after.
- A metadata message whose `length` is below 8: the JSON string is built from the byte range `[pHeader + 1, (char*)pHeader + length)` (lines 367-368), whose end then lies before its start. That is undefined behaviour. In practice the string constructor throws `std::length_error`. The throw happens before the `try` at line 374, and nothing around `ProcessPacket` in the read loop (line 106) catches it, so it leaves the reader thread. The model does not capture this: it gives such a message an empty payload (`Payload`) and the loop keeps reading.
- `METADATA_ID` and `recvBufSize` are defined in a header that is not part of this model. `METADATA_ID` is a constant: nonzero and a multiple of 8, so it shares no bit with the data ids 0..7. `recvBufSize` is the buffer size passed to the constructor. The initial value of `m_bAcquisitionState` is also defined there, so it is a constructor parameter. The `ChannelInfo` fields that `SubscribeChannel` leaves unset are modelled as 0.0 and the empty string.
- The default argument for `nDecimationFactor` that ll-client.cpp:171 relies on when it calls `SubscribeChannel` with a name alone is declared in the class header, which is not part of this model. `SubscribeChannel` takes the factor as an ordinary parameter.
- display.cpp, cross-platform.cpp, ll-client.cpp and ll-client.h (terminal display, keypress polling, the dashboard and `main`) are not part of this model.

## Findings

| source | as written | input that shows it | evidently intended | confidence | as-written member | corrected member |
|---|---|---|---|---|---|---|
| LowLatencyDataClient.cpp:86-88 | after a read that leaves the header incomplete, the read target stays at a whole header (8 bytes), so the next read can take up to 8 bytes beyond the bytes already held | two header-only messages (`id` 0, `length` 8) read as 4 + 8 + 4 bytes: the middle read completes the first header and takes half of the second, the first message is dispatched, the reset throws away the surplus half header, and the loop is left misaligned holding `[0, 0, 0, 8]`; read as 8 + 8 bytes, the same stream dispatches both messages | a partial header asks only for its missing `8 - offset` bytes, so that every chunking of a well-formed stream dispatches the same messages; this is the client's `exact` mode | not executed | Reassembly.SplitHeaderLosesNextMessage | Reassembly.ChunkingDoesNotMatter |
