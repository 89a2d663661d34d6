# networkio, modelled and proved in Dafny

This project models the parts of networkio that carry data and keep state, and proves what
they promise. Verify it with `dafny verify dfyconfig.toml`.

Three layers recur. A value-level function says what one call does to the state (`ReadStep`,
`Flush`, `Step`, `ParseHeader`, ...). A class or a method with the fields and loops of the
source is proved to do exactly that. Lemmas about the function then prove the promise over
all inputs and all runs.

| files | what they model |
|---|---|
| `Bytes`, `Fnv1a`, `FixedRounds`, `Framing` | words in memory, the header hash and why none of its rounds stands still, the 12-byte header and the frame |
| `FifoBuffer`, `Receiving`, `Sending`, `PacketProto`, `StreamSystem` | the length-framed packet protocol on stream and datagram links, up to whole runs of two endpoints |
| `Packet` | the growing packet buffer with its read and write positions |
| `Mux`, `MuxEndpoint`, `MuxLifecycle` | calls, heartbeats and dispatch over the protocol, and the connection events |
| `RingBuffer` | the wrap-around byte ring |
| `StringUtil`, `Decimal`, `Url`, `HttpParser`, `HttpRequest`, `HttpCookie`, `HttpResponse`, `HttpServer` | the HTTP text layer and the keep-alive connection handler |
| `Udp` | address comparison and demultiplexing by sender |

How the outside is modelled:

- What `read_raw`, `write_raw`, `recvfrom` and the clocks answer are parameters of the call
  that asks, so a statement for all parameters covers every behaviour. A transport takes or
  gives any number of bytes, or is down; a write that finds the link down may have let a
  first part out.
- A mutex-protected body is one atomic step. `write_packet` releases its lock before it
  flushes, so enqueuing and flushing are separate steps, made by any threads in any order.
- Each endpoint is its own instance, also where the source uses a function-local static
  buffer, which only holds the bytes of the call in progress.
- In `MuxLifecycle` every decision of the outside is the next entry of a finite list of
  answers. A run stops where the list ends, so all runs and all their beginnings are covered.
- `char` is signed, and a `char` of the HTTP layer is one byte; character classes are those of the C locale.

Where a wished-for property is false of the code, the exact condition is proved instead:

- `read_packet` looks for a header only with more than 12 bytes buffered, so an empty payload
  at the very end of the traffic is held back (`Receiving.DrainAllFrames`,
  `StreamSystem.Completeness`).
- The ring keeps its order across a growth exactly when its write offset is 0 and it is not
  empty (`RingBuffers.GrowthAppendsIff`).
- `set_start` is right once, from offset 0 with bytes left (`Packets.SetStartIsRightIff`).
- A packet's capacity can pass 2^32 although its content does not, and the next copy then
  lacks room (`Packets.GrowthCanOverflow`, `Packets.RunsOutOfRoom`). No write of a list
  overflows exactly when the last capacity, a function of the lengths, is below 2^32
  (`Packets.NoOverflowIff`), and `ensure_capacity` makes room exactly then
  (`Packets.Packet.EnsureCapacity`).
- Every change of one header byte is noticed (`Framing.SingleByteCorruptionCaught`), but not
  every change of two: exchanging a zero size byte with its neighbour never is
  (`Framing.ExchangeWithZeroEscapes`).
- The parts of an accepted request all ask for more exactly when its body ends where the text
  ends: there is none, or its length is announced (`HttpRequests.PartsWaitIff`).
- A request's target comes back exactly if it is plain and, for GET, without a query, or
  nothing but question marks (`HttpRequests.TargetSurvivesIff`).
- Mux events alternate and the connection state follows them exactly in the runs that never
  call `connect` while connected (`MuxLifecycles.MuxClient.Run`, which counts those calls as
  `MuxLifecycles.MuxClient.Connect` says); a disconnect callback that makes calls keeps the
  alternation exactly if none of them fails
  (`MuxLifecycles.MuxClient.HandleDisconnectCalling`).
- A name hashed at compile time meets the run-time hash if it is ASCII, and never with one
  other character in it (`Fnv1a.HashCtIsRounds`, `Fnv1a.HashCtDiffers`).
- A cookie of version 1 is rejected unless its value is quoted twice (`HttpCookies.VersionOne`).
- A cookie value is decoded twice, so it comes back exactly if it has no '+', '%' or NUL, and
  an empty one is read past the end of a vector (`HttpCookies.ValueRestoredIff`,
  `HttpCookies.CookieRoundTrip`).
- `sockaddr_cmp` is not reflexive on unknown families (`Udp.ReflexiveIffKnown`).

## Model

| member | source | states |
|---|---|---|
| `Bytes.WordLayout` | library/inc/networkio/proto/packet_proto.h:36-42 | in memory the byte at offset i of a word has the weight 256 to the i |
| `Bytes.WordValue` | library/inc/networkio/proto/packet_proto.h:36-42 | and four bytes read as a word count by those weights |
| `Fnv1a.ComputeFnv1a` | library/inc/networkio/fnv1a.h:17-34 | the loop gives the rounds over the bytes from the bias on, skipping zero bytes; no bytes give 0 |
| `Fnv1a.PublishedValues` | library/inc/networkio/fnv1a.h:12-34 | the bias, and the hash of the text "a", are those published for the 32-bit FNV-1a function |
| `Fnv1a.TimesPrimeInvertible` | library/inc/networkio/fnv1a.h:12-15 | multiplying by the prime modulo 2^32 is undone by multiplying by 899433627 |
| `Fnv1a.StepInjectiveInState` | library/inc/networkio/fnv1a.h:24-31 | two accumulators that one round brings to the same value were equal |
| `Fnv1a.StepInjectiveInByte` | library/inc/networkio/fnv1a.h:24-31 | two non-zero bytes with the same effect on an accumulator are equal |
| `Fnv1a.HashAfterOneChange` | library/inc/networkio/fnv1a.h:17-34 | replacing one byte keeps the hash exactly when the two rounds at that byte agree |
| `Fnv1a.RoundsIgnoreZeros` | library/inc/networkio/fnv1a.h:25-27 | the hash is a function of the non-zero bytes alone, so it is not the published FNV-1a |
| `Fnv1a.RoundsConcat` | library/inc/networkio/fnv1a.h:36-49 | hashing in pieces, each starting from the last result, is hashing the whole |
| `Fnv1a.HashCtIsRounds` | library/inc/networkio/fnv1a.h:59-62 | on ASCII names the compile-time hash is the run-time hash |
| `Fnv1a.HashCtDiffers` | library/inc/networkio/fnv1a.h:59-62 | one character from 0x80 up, which is sign-extended there, and they differ |
| `FixedRounds.UpperOfProduct` | library/inc/networkio/fnv1a.h:30 | the upper 24 bits of a multiplication by the prime are an affine map modulo 2^24 plus what the low byte carries |
| `FixedRounds.NoFixedRound` | library/inc/networkio/fnv1a.h:24-31 | behind the magic word and up to three size bytes, no round that reads a byte leaves the accumulator as it was |
| `Framing.ValidHeaderIffWritten` | library/src/proto/packet_proto.cpp:162-165 | the receiver accepts 12 bytes exactly when they are the header the sender writes for the size they hold |
| `Framing.HeaderLayout` | library/inc/networkio/proto/packet_proto.h:36-42 | the bytes of a header one by one: 0xFF 00 00 00, then the size and the hash of these eight bytes, low byte first |
| `Framing.HeaderIsValid` | library/src/proto/packet_proto.cpp:125-128 | every header written is valid and reads back its size |
| `Framing.CaughtUnlessStationary` | library/src/proto/packet_proto.cpp:162-165 | a changed header byte goes unnoticed exactly if it appears or disappears in a hash round that leaves the accumulator alone |
| `Framing.SingleByteCorruptionCaught` | library/src/proto/packet_proto.cpp:162-165 | there is no such round: every change of one byte of a valid header makes it invalid |
| `Framing.ExchangeWithZeroEscapes` | library/inc/networkio/fnv1a.h:25-27 | exchanging a zero size byte with its neighbour leaves the header valid: a two-byte corruption that is not caught |
| `Framing.ShiftedSizeHasSameHash` | library/inc/networkio/fnv1a.h:25-27 | a size and 256 times that size have the same header hash |
| `Receiving.ScanThenAppend` | library/src/proto/packet_proto.cpp:36-49 | bytes that arrive later do not change what the header loop already did |
| `Receiving.DrainInParts` | library/src/proto/packet_proto.cpp:35-61 | draining a buffer at once or in two parts, garbage included, gives the same packets and the same final state |
| `Receiving.RunIsDrain` | library/src/proto/packet_proto.cpp:27-90 | what a run of reads returned, plus what its buffer would still yield, depends on the consumed bytes alone |
| `Receiving.ChunkingInvariance` | library/src/proto/packet_proto.cpp:35-89 | two runs that consumed the same bytes, cut in any way, and returned all they can, returned the same packets and are in the same state |
| `Receiving.EnoughReads` | library/src/proto/packet_proto.cpp:35-61 | as many calls as there is backlog return every packet that can be returned |
| `Receiving.ScanAligned` | library/src/proto/packet_proto.cpp:36-61 | inside a stream of frames the header loop skips nothing and a complete packet is the next one sent |
| `Receiving.DrainPrefix` | library/src/proto/packet_proto.cpp:35-61 | any first part of a stream of frames yields payloads from the front of the list sent, and delivered frames plus kept bytes are exactly the bytes received |
| `Receiving.DrainAllFrames` | library/src/proto/packet_proto.cpp:37 | with every byte received all payloads come out, except one empty payload at the very end, which stays as its 12 header bytes |
| `Receiving.SkipsToFirstStop` | library/src/proto/packet_proto.cpp:36-49 | the header loop drops bytes up to the first offset with a valid header or too few bytes left, and no others |
| `Receiving.Resynchronises` | library/src/proto/packet_proto.cpp:36-61 | garbage with no valid header window starting inside it is dropped exactly, and the frames behind it are delivered as without it |
| `Receiving.BoundedBuffering` | library/src/proto/packet_proto.cpp:36-90 | in every state of a stream run the buffer holds at most max(12, P-1) + NET_MAX_MESSAGE bytes, hence fits a signed 32-bit size when P + NET_MAX_MESSAGE does |
| `Receiving.AcceptsIffFrame` | library/src/proto/packet_proto.cpp:74-86 | a datagram passes the filter exactly when it is one whole frame |
| `Receiving.MergedDatagramsDropped` | library/src/proto/packet_proto.cpp:80-85 | a read holding a frame and anything more is dropped entirely |
| `Receiving.DatagramStep` | library/src/proto/packet_proto.cpp:36-89 | between calls in datagram mode the buffer is whole frames and no header is pending, so nothing is skipped |
| `Receiving.DatagramsInOrder` | library/src/proto/packet_proto.cpp:27-90 | under any loss, duplication, reordering and junk, delivered payloads followed by the buffered ones are the accepted payloads in arrival order |
| `Receiving.DatagramDelivery` | library/src/proto/packet_proto.cpp:27-90 | a fresh datagram receiver returns only payloads that were sent, and draining it returns all accepted ones but an empty last one |
| `Sending.EmittedExtendsPart` | library/src/proto/packet_proto.cpp:119-157 | what is out of the current frame and what a flush adds is a first part of that frame, and the packet leaves the queue exactly when the frame is complete |
| `Sending.OfferedLayout` | library/src/proto/packet_proto.cpp:121-138 | the bytes handed to the transport for a new front packet, one by one, and its payload behind them |
| `Sending.FlushExtendsStream` | library/src/proto/packet_proto.cpp:105-160 | one flush extends the stream of frames, also when the write fails half way |
| `Sending.DatagramSendsWholeFrames` | library/src/proto/packet_proto.cpp:118-157 | on a datagram link every send offers a whole frame from byte 0, and the packet is dropped from the queue only when all of it was taken |
| `StreamSystem.Safety` | library/src/proto/packet_proto.cpp:27-160 | in every state of every interleaving of enqueues, flushes and reads: the wire is frames in order, every consumed byte is accounted for, delivered is a prefix of enqueued |
| `StreamSystem.FlushKeepsInv` | library/src/proto/packet_proto.cpp:105-160 | a flush, partial or failed, keeps frames from interleaving on the wire |
| `StreamSystem.ReadKeepsInv` | library/src/proto/packet_proto.cpp:27-90 | a read keeps delivered frames plus held bytes equal to the consumed part of the wire |
| `StreamSystem.Completeness` | library/src/proto/packet_proto.cpp:35-61 | once the queue is empty and the wire consumed, draining completes the delivery, but for an empty last payload |
| `FifoBuffers.FifoBuffer.PushBack` | library/src/memory/fifo_buffer.cpp:28-45 | appends the bytes; a size of zero or less changes nothing |
| `FifoBuffers.FifoBuffer.PopFront` | library/src/memory/fifo_buffer.cpp:63-70 | drops up to `size` bytes from the front and says how many |
| `FifoBuffers.FifoBuffer.PopFrontInto` | library/src/memory/fifo_buffer.cpp:47-61 | moves up to `size` bytes from the front into the caller's buffer and leaves the rest of that buffer alone |
| `FifoBuffers.FifoBuffer.DropFront` | library/src/memory/fifo_buffer.cpp:85-105 | the remaining bytes move to a new allocation in order; an emptied queue has none |
| `FifoBuffers.FifoBuffer.Peek` | library/inc/networkio/memory/fifo_buffer.h:37-44 | shows the front bytes without removing them, zeros on a queue without an allocation |
| `PacketProtos.PacketProto.IsValidPktHeader` | library/src/proto/packet_proto.cpp:162-165 | true exactly for the magic word with the hash of the two header fields |
| `PacketProtos.PacketProto.FindHeader` | library/src/proto/packet_proto.cpp:36-49 | the loop leaves the state that `Scan` gives |
| `PacketProtos.PacketProto.TakeComplete` | library/src/proto/packet_proto.cpp:52-61 | removes and returns exactly the announced bytes and forgets the header |
| `PacketProtos.PacketProto.Fetch` | library/src/proto/packet_proto.cpp:74-88 | appends what was read unless a datagram link delivered something other than one frame |
| `PacketProtos.PacketProto.ReadPacket` | library/src/proto/packet_proto.cpp:27-90 | is one `ReadStep` of the receiver; the sender is untouched; the link closes exactly on a failed read |
| `PacketProtos.PacketProto.WritePacket` | library/src/proto/packet_proto.cpp:92-102 | is an enqueue followed by one flush, or nothing on a closed link |
| `PacketProtos.PacketProto.Process` | library/src/proto/packet_proto.cpp:105-160 | is one `Flush` of the sender; the receiver is untouched; the link closes exactly on a failed write |
| `PacketProtos.PacketProto.BuildFrame` | library/src/proto/packet_proto.cpp:121-133 | the buffer built is the header and payload of the front packet |
| `Packets.Buffer.EnsureCapacity` | library/src/memory/shared_buffer.cpp:44-53 | adds `size` to the size modulo 2^32, keeps the offset and the earlier bytes as far as they fit, all of them below 2^32 |
| `Packets.Buffer.SetOffset` | library/src/memory/shared_buffer.cpp:55-60 | sets an absolute offset if it lies inside the buffer, else changes nothing |
| `Packets.Packet.EnsureCapacity` | library/src/proto/packet.cpp:79-106 | leaves at least `length` free bytes exactly if the capacity stays below 2^32, and then the content as it was |
| `Packets.Packet.WriteData` | library/inc/networkio/proto/packet.h:85-89 | appends the bytes; without growth the read pointer stays good |
| `Packets.Packet.ReadData` | library/inc/networkio/proto/packet.h:61-69 | reads exactly `length` bytes or refuses and moves nothing |
| `Packets.Packet.ReadWord` | library/inc/networkio/proto/packet.h:71-78 | gives the next word, or 0 without moving if fewer than four bytes are left |
| `Packets.Packet.ReadString` | library/src/proto/packet.cpp:61-77 | gives the announced string, or an empty one if the bytes are not there |
| `Packets.Packet.WriteString` | library/src/proto/packet.cpp:108-111 | appends the length word and the bytes |
| `Packets.Packet.SetStart` | library/inc/networkio/proto/packet.h:51-57 | from offset 0 with bytes left, the unread bytes become the whole packet |
| `Packets.SetStartIsRightIff` | library/inc/networkio/proto/packet.h:51-57 | the start moves to the read pointer exactly from offset 0 with buffer left behind it: a second call goes wrong |
| `Packets.DecodeEncode` | library/inc/networkio/proto/packet.h:71-93 | a value written is the value read, and the bytes behind it stay |
| `Packets.EncodingLayout` | library/inc/networkio/proto/packet.h:85-93 | where the bytes of a byte, a word and a string lie: low byte first, the length in front of the string |
| `Packets.ShortReads` | library/src/proto/packet.cpp:61-77 | what is read where bytes are missing, and that only the length of a cut-off string is consumed |
| `Packets.DecodeAllEncodeAll` | tests/packet/packet.cpp:11-73 | reading with the schema of the writes gives the list back with no byte left |
| `Packets.CapacityStaysClose` | library/src/proto/packet.cpp:85-91 | after every list of writes the capacity exceeds the content by no more than the largest write or the initial capacity |
| `Packets.NoOverflowIff` | library/src/proto/packet.cpp:85-91 | no write of a list brings the capacity to 2^32 exactly when the last capacity is below it |
| `Packets.GrowthCanOverflow` | library/src/memory/shared_buffer.cpp:44-53 | two strings of less than 2^32 bytes together for which the capacity passes 2^32 |
| `Packets.RunsOutOfRoom` | library/inc/networkio/proto/packet.h:85-89 | with the first written and the length of the second, making room for the second cuts a packet to 4080 bytes, while the write pointer stays at 2^31 |
| `Packets.WriteThenRead` | tests/packet/packet.cpp:11-92 | writing any list that no capacity overflows for, across any growths, then `begin_read`, then reading returns the list with zero bytes left |
| `Mux.PacketLayout` | library/src/mux/mux_client.cpp:177-181 | the bytes of a call: the endpoint, low byte first, then the caller's; the heartbeat is four times 0xFF |
| `Mux.DispatchesArePackets` | library/src/mux/mux_client.cpp:132-142 | handlers get exactly the callers' endpoints and bytes; heartbeats, heartbeat-endpoint calls, empty calls and unregistered endpoints reach none |
| `Mux.HandlersSeePrefix` | library/src/mux/mux_client.cpp:125-193 | in every run the handlers' calls are a prefix of the calls made |
| `Mux.HandlersSeeAll` | library/src/mux/mux_client.cpp:125-193 | once the link has carried everything, draining completes them: no mux packet is empty, so none is held back |
| `MuxEndpoints.BuildCall` | library/src/mux/mux_client.cpp:177-181 | the packet sent is the endpoint and the bytes of the caller's packet, whatever its buffer offset, so a handler's packet can be passed on |
| `MuxEndpoints.SendCall` | library/src/mux/mux_client.cpp:172-193 | enqueues that packet and flushes once |
| `MuxEndpoints.HandlePacket` | library/src/mux/mux_server.cpp:104-118 | reads the endpoint, moves the start behind it and hands on the packet, whose view is the rest, under the same guards |
| `MuxEndpoints.PassOn` | library/src/mux/mux_client.cpp:134-181 | a handler that calls another endpoint with the packet it was given enqueues a call with exactly those bytes |
| `MuxEndpoints.PassedOnArrives` | library/src/mux/mux_client.cpp:134-181 | and the next handler is given what the first one was given |
| `MuxEndpoints.DispatchAll` | library/src/mux/mux_server.cpp:96-119 | the loop hands out exactly what draining the receiver returns, in order, then makes one more read |
| `MuxLifecycles.MuxClient.HandleDisconnect` | library/src/mux/mux_client.cpp:195-209 | raises one disconnect event exactly if connected, and leaves the state -1 |
| `MuxLifecycles.MuxClient.HandleDisconnectCalling` | library/src/mux/mux_client.cpp:195-209 | with a callback that makes calls: one event if none of them fails, a broken alternation if one does, and the answers to its calls say which |
| `MuxLifecycles.MuxClient.Disconnect` | library/src/mux/mux_client.cpp:78-87 | raises one disconnect event exactly if connected, and leaves the state -1 |
| `MuxLifecycles.MuxClient.Call` | library/src/mux/mux_client.cpp:172-193 | a connected client's failed write closes the connection with one event; otherwise nothing changes |
| `MuxLifecycles.MuxClient.CheckHeartbeat` | library/src/mux/mux_client.cpp:211-230 | fails exactly if a heartbeat is due and cannot be written, and then the connection is closed |
| `MuxLifecycles.MuxClient.Connect` | library/src/mux/mux_client.cpp:46-74 | keeps the invariant through its loop and nested reconnects, unless called while connected: that is counted, and the invariant is lost, whatever the transport answers |
| `MuxLifecycles.MuxClient.Process` | library/src/mux/mux_client.cpp:89-152 | from the answers of the outside: with a live transport which events are raised, what is left open and, by the heartbeat, the result; with a lost one the disconnect of an open connection and, exactly with auto-reconnect, the delay elapsed and the dial answered, a reconnect event and success |
| `MuxLifecycles.MuxClient.ProcessLive` | library/src/mux/mux_client.cpp:113-152 | the live path: connect event, packets, heartbeat lead where their answers lead |
| `MuxLifecycles.MuxClient.TryReconnect` | library/src/mux/mux_client.cpp:94-108 | does nothing without auto-reconnect or a server; else succeeds exactly if the delay has elapsed and the dial is answered, and then raises the reconnect event |
| `MuxLifecycles.MuxClient.ReadPackets` | library/src/mux/mux_client.cpp:125-144 | goes on until there is no packet, with every handler making the calls that its answers say |
| `MuxLifecycles.MuxClient.Run` | library/src/mux/mux_client.cpp:46-230 | over any program of operations: events alternate and the state follows them exactly if no `connect` while connected was counted, as in every program without `connect`; the state is then 1 exactly when connects outnumber disconnects by one |
| `MuxLifecycles.AlternatingCounts` | library/src/mux/mux_client.cpp:46-230 | in every past part of an alternating log connects exceed disconnects by one or none |
| `MuxLifecycles.ConnectsAreSeparated` | library/src/mux/mux_client.cpp:46-230 | between two connect events there is a disconnect event |
| `RingBuffers.TwoCopyPushIsNaive` | library/src/memory/ring_buffer.cpp:39-70 | the two-copy push equals the commented byte-at-a-time loop on memory and offset |
| `RingBuffers.TwoCopyPopIsNaive` | library/src/memory/ring_buffer.cpp:123-155 | the two-copy pop equals the commented byte-at-a-time loop on bytes and offset |
| `RingBuffers.NaivePushAppends` | library/src/memory/ring_buffer.cpp:66-70 | the loop appends to the queue, and the write offset is the read offset plus the count modulo the capacity |
| `RingBuffers.NaivePopTakesFront` | library/src/memory/ring_buffer.cpp:151-155 | the loop takes the front of the queue and leaves the rest |
| `RingBuffers.GrowthAppendsIff` | library/src/memory/ring_buffer.cpp:105-115 | growing keeps the order for all contents exactly when the write offset is 0 and the ring is not empty |
| `RingBuffers.GrowthAppends` | library/src/memory/ring_buffer.cpp:32-52 | a growing push from that state appends and leaves the right offset |
| `RingBuffers.GrowthCorrupts` | library/src/memory/ring_buffer.cpp:105-115 | from any other state there are contents that come out wrong, or a copy of negative length |
| `RingBuffers.RingBuffer.PushBack` | library/src/memory/ring_buffer.cpp:32-71 | appends to the queue when the bytes fit, on first allocation, or when growth keeps the order; else leaves what the copies make of the grown memory |
| `RingBuffers.RingBuffer.PopFront` | library/src/memory/ring_buffer.cpp:117-158 | returns and removes up to `size` bytes from the front |
| `RingBuffers.RingBuffer.Drop` | library/src/memory/ring_buffer.cpp:78-90 | removes up to `size` bytes from the front |
| `StringUtil.Tokenize` | library/src/stringutil.cpp:17-31 | the loop gives the stretches between the occurrences found from left to right |
| `StringUtil.JoinSplit` | library/src/stringutil.cpp:17-31 | joining the tokens with the delimiter gives the string back, and no token contains the delimiter |
| `StringUtil.SplitJoin` | library/src/stringutil.cpp:17-31 | tokens free of an unbordered delimiter come back from the joined string |
| `StringUtil.CrlfUnbordered` | library/src/http/http_parser.cpp:33 | the line break is such a delimiter |
| `StringUtil.ReplaceAll` | library/src/stringutil.cpp:67-82 | replacing in a copy that changes under the search is splitting at `from` and joining with `to` |
| `StringUtil.Strip` | library/src/stringutil.cpp:33-38 | removes every occurrence of the character and nothing else |
| `StringUtil.StripAll` | library/src/stringutil.cpp:43-49 | removes every occurrence of every listed character and nothing else |
| `StringUtil.SeparatorsAre` | library/src/http/http_request.cpp:139-144 | the characters stripped from names are the separators of section 2.2 of RFC 2616 |
| `StringUtil.TokenizeChar` | library/src/stringutil.cpp:5-15 | the loop gives the non-empty stretches between separators |
| `StringUtil.ConcatTokens` | library/src/stringutil.cpp:5-38 | put together, the tokens are the string with the separator stripped |
| `StringUtil.TokensJoin` | library/src/stringutil.cpp:5-15 | non-empty tokens free of the separator come back from the joined string |
| `Url.UrlEncodeString` | library/inc/networkio/http/http_url.h:30-48 | the loop encodes the C string and stays inside a buffer of 3n+1 bytes |
| `Url.UrlDecodeString` | library/inc/networkio/http/http_url.h:51-71 | the loop decodes the C string and stays inside a buffer of n+1 bytes |
| `Url.DecodeEncode` | library/inc/networkio/http/http_url.h:30-71 | decoding undoes encoding for every byte string, up to its first NUL |
| `Url.AnySpellingDecodes` | library/inc/networkio/http/http_url.h:19-71 | every spelling of a text decodes to it: characters as they are, plus signs, escapes with digits in either case (section 2.1 of RFC 3986) |
| `Url.DanglingEscape` | library/inc/networkio/http/http_url.h:54-58 | a percent sign among the last two characters is dropped |
| `Url.EncodingSpells` | library/inc/networkio/http/http_url.h:30-48 | the encoder leaves exactly the unreserved characters of section 2.3 of RFC 3986, and escapes the rest with lower-case digits, but for the space |
| `Url.CaseFolding` | library/src/http/http_parser.cpp:48 | lower-casing maps the 26 capital letters in order and nothing else |
| `Url.EncodedIsSafe` | library/inc/networkio/http/http_url.h:33-40 | encoded text holds only unreserved characters, '+' and '%' |
| `Url.DecodeFixesIffPlain` | library/inc/networkio/http/http_url.h:51-71 | decoding changes nothing exactly for strings without '+', '%' and NUL |
| `Decimals.StoiToString` | library/src/http/http_response.cpp:153-155 | every 32-bit integer comes back from its decimal text |
| `Decimals.StoiOfNumeral` | library/src/http/http_response.cpp:153-155 | the decimal text of any other integer is out of range |
| `Decimals.StoiReads` | library/src/http/http_response.cpp:58-67 | white space and a sign in front, and anything but a digit behind, do not count; the digits count by their places |
| `Decimals.NoLeadingZero` | library/src/http/http_response.cpp:153-155 | a printed number has no leading zero |
| `HttpParsers.Parser.HeaderFromString` | library/src/http/http_parser.cpp:19-55 | splits at the first empty line, takes the first line, and reads fields up to a line without a colon |
| `HttpParsers.Parser.HeaderToString` | library/src/http/http_parser.cpp:57-72 | the loop gives start line, fields in iteration order, empty line, body |
| `HttpParsers.MarkerFound` | library/src/http/http_parser.cpp:21 | the end of the header is found where it was printed and nowhere before |
| `HttpParsers.PrintThenParse` | library/src/http/http_parser.cpp:19-72 | in any iteration order, a printed message parses back: start line, body, and the fields over those already there; exactly, into an empty object |
| `HttpParsers.WriteThenParse` | library/src/http/http_parser.cpp:19-55 | any header that a sender may write, with any spelling and repetition of names, parses into its start line, fields and body |
| `HttpParsers.WrongLine` | library/src/http/http_parser.cpp:36-52 | a line without a colon ends the fields, one that ends in its first colon throws |
| `HttpRequests.ParseGetParams` | library/src/http/http_request.cpp:115-128 | keeps the pairs with exactly one key and one value, later ones winning |
| `HttpRequests.ParseCookies` | library/src/http/http_request.cpp:130-154 | the same for cookies, with stripped names and decoded values |
| `HttpRequests.ParamsComeBack` | library/src/http/http_request.cpp:115-128 | parameters written as key=value and joined by '&', in any order, come back as the map they were |
| `HttpRequests.CookiesComeBack` | library/src/http/http_request.cpp:130-154 | cookies with encoded values in one field, in any order, come back as the map they were |
| `HttpRequests.GetParamsAreRead` | library/src/http/http_request.cpp:42-57 | an accepted GET target that decodes to a path, a question mark and joined parameters gives that path and exactly those parameters |
| `HttpRequests.FormParamsAreRead` | library/src/http/http_request.cpp:88-94 | the body of an accepted form gives exactly its parameters |
| `HttpRequests.CookiesAreRead` | library/src/http/http_request.cpp:96-98 | a cookie field gives exactly the cookies written into it |
| `HttpRequests.NoParamsAreRead` | library/src/http/http_request.cpp:42-61 | without a query and a form there are no parameters |
| `HttpRequests.EarlierParams` | library/src/http/http_request.cpp:42-61 | other types than GET clear the parameters an object holds; a GET target without a query leaves them |
| `HttpRequests.LengthByText` | library/src/http/http_request.cpp:74-86 | an announced number is waited for, one beyond 32 bits is ignored, a word throws |
| `HttpRequests.HttpRequest.FromString` | library/src/http/http_request.cpp:21-101 | leaves exactly the status and the fields that `FromText` gives, on every path |
| `HttpRequests.TargetSurvivesIff` | library/src/http/http_request.cpp:39-61 | the target is read as written exactly if it is plain and a GET target has no query |
| `HttpRequests.RequestRoundTrip` | library/src/http/http_request.cpp:103-113 | a request comes back from its text: type, protocol, version, fields, body, and the target exactly if it survives |
| `HttpRequests.Verdict` | library/src/http/http_request.cpp:21-101 | how the parse of any text ends: by its header, its start line and its announced length, in that order |
| `HttpRequests.FullRequestSucceeds` | library/src/http/http_request.cpp:21-101 | a well-formed request, whatever the spelling of its field names, is accepted with its body and fields (sections 2.1 and 6.3 of RFC 9112) |
| `HttpRequests.PartVerdict` | library/src/http/http_request.cpp:75-86 | a proper first part of any accepted text asks for more up to the end of the header, and behind it fares as the length test says |
| `HttpRequests.PartsWaitIff` | library/src/http/http_request.cpp:75-86 | every proper first part of an accepted text asks for more, wherever it is cut, exactly if its body ends where the text ends |
| `HttpServers.ServerHandler.ServeRequest` | library/src/http/http_server.cpp:130-184 | parses what was collected from scratch, sets keep-alive and the response fields that announce it, and has GET and POST answered |
| `HttpServers.ServerHandler.Process` | library/src/http/http_server.cpp:19-113 | is one `Step`: which bytes go out, whether a request is dispatched, whether the connection ends |
| `HttpServers.WellFormedIsServable` | library/src/http/http_server.cpp:130-184 | every well-formed GET or POST request is servable |
| `HttpServers.DispatchedExactlyOnce` | library/src/http/http_server.cpp:38-112 | however a servable request is cut (any text that is accepted as GET or POST and whose body ends where it ends), with empty reads in between, nothing is dispatched before its last piece, and it exactly once from then on, through the turns that pump the response out and all others that read nothing more |
| `HttpServers.ExchangeRuns` | library/src/http/http_server.cpp:38-112 | on an idle connection a servable request is answered once, the response goes out complete, and then the connection is closed, exactly without keep-alive or at the limit, or idle with nothing left of the request |
| `HttpServers.KeepAliveServesAll` | library/src/http/http_server.cpp:38-112 | any number of keep-alive requests below the limit, each in any pieces, is answered one after the other: the answers, in order, are what goes out |
| `HttpServers.KeepAliveFromTheStart` | library/src/http/http_server.cpp:38-112 | so from the first turn of a connection on |
| `HttpServers.EndsUnreadIff` | library/src/http/http_server.cpp:21-34 | a turn that reads nothing ends the connection exactly if the protocol object fails, or it is kept alive and its time is up |
| `HttpServers.BrokenLinkCloses` | library/src/http/http_server.cpp:44-87 | a link that is down for reading or writing closes the connection |
| `HttpServers.WrongRequestCloses` | library/src/http/http_server.cpp:55-65 | a wrong request, or one of another type, closes the connection without an answer |
| `HttpServers.DefaultPresets` | library/src/http/http_server.cpp:158-168 | the response fields that announce the connection, with the default settings |
| `HttpServers.StepKeepsInv` | library/src/http/http_server.cpp:61-109 | sent offset plus bytes left is the response length while a response goes out, and earlier responses are out complete |
| `HttpServers.ResponsePump` | library/src/http/http_server.cpp:70-112 | over any connection the bytes emitted are complete responses in request order, then a part of the last, and at most the keep-alive maximum are answered |
| `HttpCookies.CookieToString` | library/src/http/http_response.cpp:146-172 | name, encoded value and the attributes present, in order |
| `HttpCookies.CookieFromString` | library/src/http/http_response.cpp:23-140 | on every path the outcome that `ParseCookie` gives, including reads past the end and exceptions |
| `HttpCookies.PrintsSpelled` | library/src/http/http_response.cpp:146-172 | the printed cookie, attribute by attribute, under their literal names and with the cookie's own values |
| `HttpCookies.AttributeArrives` | library/src/http/http_response.cpp:49-112 | what an attribute with a value does, whatever the case of its name and the spaces before it |
| `HttpCookies.NumberArrives` | library/src/http/http_response.cpp:58-112 | a number is stored, ignored beyond 32 bits, and a word in its place throws |
| `HttpCookies.FlagArrives` | library/src/http/http_response.cpp:50-112 | an attribute without a value sets a flag, or rejects the cookie, or is unknown |
| `HttpCookies.QuotedValue` | library/src/http/http_response.cpp:43-45 | a quoted value is taken between its quotes |
| `HttpCookies.VersionOne` | library/src/http/http_response.cpp:120-137 | a cookie of version 1 is accepted only if its value was quoted twice |
| `HttpCookies.CookieRoundTrip` | library/src/http/http_response.cpp:23-172 | every field but SameSite and version comes back, the value decoded once too often; a value empty up to its first NUL is read past the end |
| `HttpCookies.ValueRestoredIff` | library/src/http/http_response.cpp:49-136 | the value comes back exactly if it is not empty and has no '+', '%' or NUL (section 4.1.1 of RFC 6265) |
| `HttpResponses.HttpResponse.ToText` | library/src/http/http_response.cpp:283-294 | prints the status line, the fields with the last cookie set, and the body |
| `HttpResponses.HttpResponse.FromString` | library/src/http/http_response.cpp:221-281 | leaves exactly the ending and the fields that `FromText` gives, on every path |
| `HttpResponses.StatusLineTokens` | library/src/http/http_response.cpp:228-256 | the status line splits into protocol, number and the words of the status text |
| `HttpResponses.StatusLineDecides` | library/src/http/http_response.cpp:221-262 | which status lines are wrong, throw, or give protocol, version, status and status text |
| `HttpResponses.WrongCookie` | library/src/http/http_response.cpp:272-281 | a rejected cookie leaves the response accepted without it; one without a value is read past its end |
| `HttpResponses.LastCookieIsSent` | library/src/http/http_response.cpp:283-294 | of any cookies, the last one in iteration order is sent |
| `HttpResponses.ResponseRoundTrip` | library/src/http/http_response.cpp:221-294 | a response comes back into an object that may hold fields and cookies: protocol, version, status, status text, fields over those held, body, last cookie |
| `HttpResponses.ResponseIntoNewObject` | library/inc/networkio/http/http_response.h:109-114 | so it does into an object as the client constructs it, over that object's default fields |
| `Udp.SockaddrOrder` | library/src/socket/socket.cpp:17-54 | on known families the comparison is 0 exactly for equal addresses, and of opposite sign for exchanged ones |
| `Udp.SockaddrLess` | library/src/socket/socket.cpp:17-54 | which address comes first: by family, then host and port, or bytes, port, flow and scope |
| `Udp.CmpBytesLess` | library/src/socket/socket.cpp:29-44 | byte strings compare by their first difference |
| `Udp.SockaddrTransitive` | library/src/socket/socket.cpp:17-54 | and transitive, so a total order |
| `Udp.ReflexiveIffKnown` | library/src/socket/socket.cpp:48-50 | an address equals itself exactly if its family is known |
| `Udp.UdpServer.Recv` | library/src/socket/udp.cpp:98-150 | gives the datagram to the peer with its address, or adds the peer and drops that datagram's bytes |
| `Udp.ReceiveLimit` | library/src/socket/udp.cpp:98-115 | the longest datagram that is not dropped has 278543 bytes |
| `Udp.UdpServer.Accept` | library/src/socket/udp.cpp:73-96 | receives, then returns the oldest peer not returned yet |
| `Udp.UdpServer.ReadRaw` | library/src/socket/udp.cpp:249-252 | receives, then takes up to `size` bytes of that peer's queue |
| `Udp.PoppedIsMin` | library/src/memory/fifo_buffer.cpp:47-61 | as many bytes as asked for, or all there are |
| `Udp.Demultiplexing` | library/src/socket/udp.cpp:73-150 | every run keeps: peers are the senders in first-contact order, accepted and waiting peers make them up, and read plus queued bytes are the sender's stream after its first datagram |
| `Udp.FromTheStart` | library/src/socket/udp.cpp:73-150 | so peers are pairwise distinct, each is accepted at most once and in order, and no peer reads another's bytes |

## Left out

- PacketProtos.PacketProto.WritePacket: the queue holds the packet's bytes as they are at the call; the source holds a shared pointer and serialises the front packet later, so a caller that changes a packet after handing it over is not modelled. Frames longer than 2^31 - 1 bytes are excluded, for the reason given at `PacketProtos.PacketProto.Process`.
- PacketProtos.PacketProto.ReadPacket: buffer sizes are unbounded integers; `Receiving.BoundedBuffering` gives the header sizes under which the source's signed 32-bit size cannot overflow.
- MuxEndpoints.SendCall: likewise.
- MuxEndpoints.PassOn: likewise.
- PacketProtos.PacketProto.Process: frames longer than 2^31 - 1 bytes are excluded, since `write_raw` takes a signed 32-bit length.
- Packets.Packet.WriteString: as `Packets.Packet.WriteData`, for either of its two writes.
- Packets.Packet.WriteData: a write for which `ensure_capacity` makes no room is excluded; the source copies past the end of the buffer there.
- RingBuffers.RingBuffer.PushBack: a growing push whose first copy has a negative length is excluded.
- MuxEndpoints.DispatchAll: a handler is a record of what it was given; what handlers do to other objects is not modelled, and calls they make are further steps of the sender.
- MuxLifecycles.MuxClient.Run: disconnect callbacks in its runs make no calls; `MuxLifecycles.MuxClient.HandleDisconnectCalling` models one that does. Whether a callback is registered makes no difference to the log.
- The server side of mux raises its own connect and disconnect events around the client's; a failed call inside a handler is reported twice there.
- Udp.UdpServer.ReadRaw: a peer is a value inside its server, named by its position; the client object that `accept` shares with the caller is not a separate object.
- HttpServers.ServerHandler.Process: response lengths are unbounded integers, bytes behind a complete request are dropped as in the source, and endpoints are a function from the request and the response fields set for it to the response text; the endpoint table, static files and the lock around it are not modelled.
- HttpResponses.HttpResponse.ToText: the table of status texts is a parameter.
- `ring_buffer::peek`, `fifo_buffer::clear`, copying a packet, `tojson`, `filter_ip`, the hash of wide strings and the compile-time hash of names with several non-ASCII characters.
- Real sockets, blocking modes, name resolution, TLS and credentials, the thread pool, the HTTP client with its redirects, the session store, user data, shared memory points, and `string_proto`, which is a stub.
