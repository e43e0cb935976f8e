# A verified model of a WebRTC forwarding server's protocol engines

This project models, in Dafny, the parts of the server whose correctness is a
matter of counting, ordering and encoding, and proves what they are for:

* **Transport-wide feedback, receive side.** 16-bit sequence numbers are lifted to
  integers (`SequenceNumber.dfy`), arrivals are kept in a sliding window
  (`PacketArrivalMap.dfy`), the window is cut into messages
  (`ReceiveSideTwcc.dfy`), and each message is compressed into status chunks and
  deltas, written and read back (`StatusChunk.dfy`, `LastChunk.dfy`,
  `FeedbackSpec.dfy`, `FeedbackWire.dfy`, `TransportFeedback.dfy`, over
  `ByteBuffer.dfy` and `RtcpCommon.dfy`). The format is that of section 3.1 of
  draft-holmer-rmcat-transport-wide-cc-extensions-01.
* **Loss recovery.** The list of packets to ask for again (`NackRequester.dfy`), its
  packing into NACK packets, section 6.2.1 of RFC 4585 (`NackPacking.dfy`,
  `NackPacket.dfy`), the queue of packets kept for retransmission
  (`SendPacketRecorder.dfy`), and the retransmission format, section 4 of RFC 4588
  (`RtpPacket.dfy`).
* **Room life cycle.** The handlers of the main thread and of the worker threads as
  a step system (`RoomProtocol.dfy`), and the methods that run those handlers, each
  proved to be a step of that system or to have the effect the step system gives it
  (`Room.dfy`, `PublishStream.dfy`).
* **Two kernels.** The table-driven CRC-32 against its bit-serial definition
  (`Crc32.dfy`) and the sliding byte counter against its full history
  (`BitrateEstimator.dfy`).

`Wrappers.dfy` and `TruncatedDivision.dfy` hold the option type and C++ division.

Objects the program updates in place are classes with the same fields; their methods
are proved against specifications on plain values, and the laws are proved about
those values. Clock readings, random identifiers and the outcome of set-up calls are
parameters. What a method hands to its observer is an out-parameter or, for tasks
posted to another thread, a queue.

Where the code and its own comments disagree, the code is followed:

* `src/rtp_rtcp/transport_feedback.h` says that `IsConsistent` always holds. It holds
  after every building step, also after one that fails half-way; after parsing it
  fails in exactly one case, stated by `ParsedConsistent`: the object was marked as
  having no timestamps and the bytes do carry deltas. `ParseWithoutMark` makes such an
  object. The program's one place that parses such messages
  (`src/rtp_rtcp/rtcp_packet.cpp:694`) makes a new, timestamped object for each, so
  there the case cannot arise.
* `IsConsistent` itself multiplies the base time in 32 bits. Taken in two's complement
  (C++ leaves the overflow undefined), the product is right up to a base time of 33554,
  about 36 minutes into the 12 days of the clock; after that it denies every consistent
  message. `IsConsistent` states both and the exact condition it checks.
* The header also says that a chunk is encoded as large as possible. That holds exactly
  for a run of equal symbols, for 7 or 14 symbols held, and for mixed symbols whose
  first eight are not all equal: `EmitIsLargestExactly`. `EmitCanBeLarger` gives nine
  symbols of which seven are taken although a run of eight fits a chunk. Whatever the
  size, no symbol is altered.
* A delta goes the short way around the wrap period unless the new time lies more than
  half a period behind the last one: `ShortWayExactly` gives the condition and
  `LongWayAround` an instance. With a clock that counts from 1970 this does not arise,
  because last times count from the start of a period of 12 days.
* `src/congestion_controller/packet_arrival_map.h` says that the last packet of the
  window should be received. `AddPacket` states exactly when that fails, and
  `LastNotReceived` gives an instance. As `ReceiveSideTWCC` drives the window the
  promise holds.
* The entries a NACK packet makes of a list are the fewest possible only if the list
  spans less than 65520: `OptimalExactlyBelow` proves both directions and
  `GreedyMissesTheWrap` gives the list that breaks it above.
* Arrival time 0 stands for "not received". The reporting loop is proved to make
  progress for nonzero arrival times, which is what its invariant `Settled` needs.
* `SendPacketRecorder::Query` cannot reach a recorded packet 2^15 or more slots behind
  the front (one slot excepted, when the residues say so); `Query` states this as an
  if-and-only-if. `OutOfReach` gets there from an empty queue with three packets
  recorded at the same time.
* `RtpPacket::RtxRepair` is meant for a payload that starts with the two bytes of the
  original sequence number, and so is its proof. For one byte of payload the size left
  to move wraps around below zero, and for a padded packet the code updates a byte
  behind the buffer instead of the padding count; neither has a result to describe.

## Model

| member | source | states |
|---|---|---|
| `SequenceNumber.Trichotomy` | src/base/sequence_number_util.h:10-25 | of two different numbers exactly one is greater, also at distance 2^15 |
| `SequenceNumber.CircularOrder` | src/base/sequence_number_util.h:10-25 | less than 2^15 apart the circular order is the order of the unwrapped numbers; at exactly 2^15 the residues decide |
| `SequenceNumber.TransitiveOnWindow` | src/base/sequence_number_util.h:27-32 | the comparator is transitive on any window narrower than 2^15 |
| `SequenceNumber.UnwrapStepIsNearest` | src/base/sequence_number_util.h:42-56 | the step taken has the right residue, magnitude at most 2^15, and the sign `SeqNumGT` gives it |
| `SequenceNumber.StepFollowsExactly` | src/base/sequence_number_util.h:42-56 | a move is followed if and only if it is shorter than 2^15, or exactly 2^15 with the residues on the matching side |
| `SequenceNumber.UnwrapInvertsTruncation` | src/base/sequence_number_util.h:42-56 | feeding residues back returns the integer sequence if and only if it starts in [0, 65535] and every move can be followed |
| `SequenceNumber.SeqNumUnwrapper.Unwrap` | src/base/sequence_number_util.h:42-56 | every output is congruent to its input and a followable move from the last one; the first is the input itself |
| `ByteBuffer.Stored32` | src/base/byte_buffer.cpp:27-35 | a load returns the number whose big-endian bytes stand there |
| `ByteBuffer.Loaded32` | src/base/byte_buffer.cpp:27-35 | a loaded number stores as the bytes it was loaded from |
| `ByteBuffer.ByteWriter.WriteBytes` | src/base/byte_buffer.cpp:131-137 | appends all bytes, or nothing when they do not fit |
| `ByteBuffer.ByteWriter.WriteUInt24` | src/base/byte_buffer.cpp:107-113 | appends three big-endian bytes in place, or nothing |
| `ByteBuffer.ByteReader.ReadUInt32` | src/base/byte_buffer.cpp:198-206 | returns the number whose bytes lie in front of the cursor and moves behind them, or fails and stays |
| `RtcpCommon.HeaderRoundTrip` | src/rtp_rtcp/rtcp_packet.cpp:116-130 | the common header is read back from its bytes |
| `StatusChunk.RunLengthRoundTrip` | src/rtp_rtcp/transport_feedback.cpp:227-242 | a run of equal symbols comes back from its chunk, with or without a count cutting it off |
| `StatusChunk.OneBitRoundTrip` | src/rtp_rtcp/transport_feedback.cpp:170-186 | up to 14 small symbols come back from a one-bit chunk |
| `StatusChunk.TwoBitRoundTrip` | src/rtp_rtcp/transport_feedback.cpp:199-214 | up to 7 symbols come back from a two-bit chunk |
| `StatusChunk.EncodableIsExact` | src/rtp_rtcp/transport_feedback.cpp:82-91 | what the buffer admits is exactly what some 16-bit chunk can carry |
| `StatusChunk.EmitIsExact` | src/rtp_rtcp/transport_feedback.cpp:102-129 | a finished chunk decodes to exactly the symbols it took, at least seven; fewer than seven stay, so any symbol can follow |
| `StatusChunk.EmitIsLargestExactly` | src/rtp_rtcp/transport_feedback.h:106-108 | no longer prefix of the symbols held has a chunk of its own if and only if they are all equal, or 7, or 14, or the first eight of them are not all equal |
| `StatusChunk.EmitCanBeLarger` | src/rtp_rtcp/transport_feedback.cpp:102-129 | an instance of the other case: eight zeros and a one held when a two comes |
| `StatusChunk.EncoderAddIsLossless` | src/rtp_rtcp/transport_feedback.cpp:431-452 | adding a symbol neither loses, adds nor reorders one |
| `StatusChunk.EncoderIsLossless` | src/rtp_rtcp/transport_feedback.cpp:431-452 | for any run of symbols, the finished chunks and the last one, cut off at the remaining count, decode to exactly that run |
| `LastChunkBuffer.LastChunk.CanAdd` | src/rtp_rtcp/transport_feedback.cpp:82-91 | admits only what is encodable and, with exact flags, everything that is |
| `LastChunkBuffer.LastChunk.Add` | src/rtp_rtcp/transport_feedback.cpp:93-100 | appends the symbol and keeps the flags exact |
| `LastChunkBuffer.LastChunk.Emit` | src/rtp_rtcp/transport_feedback.cpp:102-129 | what the chunk decodes to followed by what is left is what was held |
| `LastChunkBuffer.LastChunk.EncodeLast` | src/rtp_rtcp/transport_feedback.cpp:131-138 | the chunk decodes, cut off at the size, to what is held; it is a run, a two-bit or a one-bit chunk by what is held |
| `LastChunkBuffer.LastChunk.Decode` | src/rtp_rtcp/transport_feedback.cpp:149-157 | for any 16-bit word the buffer then holds its first symbols |
| `FeedbackSpec.DeltaFullIsNear` | src/rtp_rtcp/transport_feedback.cpp:292-299 | whatever the two times, the rounded delta leads to within 125 us of the new one, modulo the wrap period |
| `FeedbackSpec.DeltaIsShortWay` | src/rtp_rtcp/transport_feedback.cpp:292-299 | the delta is the short way around the wrap period, rounded to the nearest tick and half a tick away from zero |
| `FeedbackSpec.DeltaIsTheOneThatLeads` | src/rtp_rtcp/transport_feedback.cpp:292-299 | any 16-bit delta that leads, some periods away, to less than half a tick from the new time is the one computed |
| `FeedbackSpec.DeltaFitsExactly` | src/rtp_rtcp/transport_feedback.cpp:300-305 | the delta fits 16 bits if and only if the new time is between 8.192125 s before and 8.191875 s after the last one |
| `FeedbackSpec.ShortWayExactly` | src/rtp_rtcp/transport_feedback.cpp:294-296 | it goes the short way if and only if the difference, cut to one period with its sign, is above minus half a period less half a tick |
| `FeedbackSpec.LongWayAround` | src/rtp_rtcp/transport_feedback.cpp:294-296 | an instance of the other case: a millisecond across the end of the period becomes nearly a whole period backwards |
| `FeedbackSpec.FreshDeltaFits` | src/rtp_rtcp/transport_feedback.cpp:276-282 | against its own base time a packet has a delta of 0 to 256 ticks |
| `FeedbackSpec.BuiltSizeBound` | src/rtp_rtcp/transport_feedback.cpp:431-452 | a message built packet by packet never comes near the size limit, so its length field never overflows |
| `FeedbackSpec.OneReceived` | src/rtp_rtcp/transport_feedback.cpp:315-333 | one more received packet keeps symbols, packets, running time and size in agreement, and every rebuilt time accurate |
| `FeedbackWire.PayloadRoundTrip` | src/rtp_rtcp/transport_feedback.cpp:454-561 | the payload of a timestamped, non-empty message parses to its fields, words, symbols and packets |
| `FeedbackWire.MessageRoundTrip` | src/rtp_rtcp/transport_feedback.cpp:568-623 | the same for the whole message with its header, all of whose bytes are announced |
| `TransportFeedbackMessage.TransportFeedback.SetBase` | src/rtp_rtcp/transport_feedback.cpp:276-282 | sets base number and base time rounded down to 64 ms, and keeps the message consistent |
| `TransportFeedbackMessage.TransportFeedback.AddDeltaSize` | src/rtp_rtcp/transport_feedback.cpp:431-452 | appends one symbol or changes nothing; never fails below the count and size limits |
| `TransportFeedbackMessage.TransportFeedback.AddReceivedPacket` | src/rtp_rtcp/transport_feedback.cpp:288-333 | succeeds exactly when the delta fits 16 bits, the number is ahead and the count has room; then describes the gap as lost and the packet as received; consistent also after a failure |
| `TransportFeedbackMessage.TransportFeedback.IsConsistent` | src/rtp_rtcp/transport_feedback.cpp:364-419 | up to a base time of 33554 decides whether symbols, packets, running time and size agree; from there on denies every message in which they do |
| `TransportFeedbackMessage.TransportFeedback.Clear` | src/rtp_rtcp/transport_feedback.cpp:421-429 | leaves a consistent message that describes nothing |
| `TransportFeedbackMessage.TransportFeedback.Serialize` | src/rtp_rtcp/transport_feedback.cpp:568-623 | writes exactly the message's wire form, or fails when that does not fit |
| `TransportFeedbackMessage.TransportFeedback.RoundTrip` | src/rtp_rtcp/transport_feedback.cpp:454-627 | the wire form of any timestamped, non-empty built message has Size() bytes, announces exactly that many, and parses to the same fields, symbols (so lost positions) and packets, with every rebuilt time within 125 us of the true one |
| `TransportFeedbackMessage.TransportFeedback.HeaderTells` | src/rtp_rtcp/transport_feedback.cpp:568-623 | the header of any message names version, type, format and length; the padding bit is set exactly if there is padding, and then the last byte counts it |
| `TransportFeedbackMessage.TransportFeedback.ParsedConsistent` | src/rtp_rtcp/transport_feedback.cpp:454-566 | after a successful parse of any bytes the message is consistent unless it had been marked as without timestamps and the bytes carry deltas |
| `TransportFeedbackMessage.TransportFeedback.Parse` | src/rtp_rtcp/transport_feedback.cpp:454-566 | accepts exactly what the wire specification accepts, keeps it as specified, moves behind the announced length, and is consistent but for that one case |
| `TransportFeedbackMessage.DeltasWithoutMark` | src/rtp_rtcp/transport_feedback.cpp:503-531 | a 24-byte message with one delta parses to one packet and its delta |
| `TransportFeedbackMessage.ParseWithoutMark` | src/rtp_rtcp/transport_feedback.cpp:503-531 | parsed into an object made without timestamps, that message is accepted and leaves an inconsistent object |
| `PacketArrivalMap.Replaced` | src/congestion_controller/packet_arrival_map.cpp:17-22 | a packet inside the window updates one entry |
| `PacketArrivalMap.PutInFront` | src/congestion_controller/packet_arrival_map.cpp:24-38 | a packet in front of the window adds one entry and no other |
| `PacketArrivalMap.PutBehind` | src/congestion_controller/packet_arrival_map.cpp:62-72 | a packet behind the window adds one entry and no other |
| `PacketArrivalMap.PacketArrivalTimeMap.AddPacket` | src/congestion_controller/packet_arrival_map.cpp:8-72 | ignores what is more than 2^15 behind the end, otherwise updates the windowed map; never wider than 2^15; the end never moves back; the last entry stays received but in one case |
| `PacketArrivalMap.LastNotReceived` | src/congestion_controller/packet_arrival_map.h:14-17 | an instance of that case |
| `PacketArrivalMap.PacketArrivalTimeMap.MakeRoom` | src/congestion_controller/packet_arrival_map.cpp:42-60 | trimming makes room without forgetting anything the new packet would not push out |
| `PacketArrivalMap.PacketArrivalTimeMap.RemoveOldPackets` | src/congestion_controller/packet_arrival_map.cpp:74-79 | drops the longest prefix that is both in front of the packet and not later than the limit; of the packets, exactly those not shielded |
| `PacketArrivalMap.DroppedExactlyOld` | src/congestion_controller/packet_arrival_map.cpp:74-79 | what stays of a map of packets are those not in front of the packet and those at or behind one that came later than the limit |
| `PacketArrivalMap.PacketArrivalTimeMap.HasReceived` | src/congestion_controller/packet_arrival_map.cpp:81-87 | holds exactly of the numbers in the map |
| `PacketArrivalMap.PacketArrivalTimeMap.EraseTo` | src/congestion_controller/packet_arrival_map.cpp:89-96 | forgets exactly the numbers in front of the given one |
| `ReceiveSideTwcc.SettledAfterAdd` | src/congestion_controller/receive_side_twcc.cpp:32-59 | a first gap of exactly 2^15 arises only behind a window just emptied, and then the unwrapper has settled its order |
| `ReceiveSideTwcc.NextIsNewer` | src/congestion_controller/receive_side_twcc.cpp:126-147 | the next received packet is always newer, in circular order, than what a message reports so far |
| `ReceiveSideTwcc.ReceiveSideTWCC.IncomingPacket` | src/congestion_controller/receive_side_twcc.cpp:32-59 | the arrivals afterwards, exactly: once everything was reported, what is old is forgotten; the first arrival of a packet that is not too old is recorded and pushes out what is 2^15 behind; moves the report start, and keeps the invariant the reporting loop needs |
| `ReceiveSideTwcc.AfterPacketRecords` | src/congestion_controller/receive_side_twcc.cpp:32-87 | packet by packet: first arrivals stay, a new packet gets its time, nothing else appears; when everything was reported an older packet stays only if it or one in front of it came less than 100 ms ago, and otherwise nothing is forgotten but what is 2^15 behind |
| `ReceiveSideTwcc.ReceiveSideTWCC.Report` | src/congestion_controller/receive_side_twcc.cpp:142-146 | only a delta that does not fit keeps the next packet out of a message |
| `ReceiveSideTwcc.ReceiveSideTWCC.MaybeBuildFeedbackPacket` | src/congestion_controller/receive_side_twcc.cpp:109-151 | there is a message exactly if a packet was received, it reports exactly a piece of the window that is not empty, and it ends in front of the end only if the next packet received is too far away in time for a 16-bit delta |
| `ReceiveSideTwcc.ReceiveSideTWCC.SendPeriodicFeedbacks` | src/congestion_controller/receive_side_twcc.cpp:89-107 | terminates; the messages tile the numbers from the window start to the map end without hole or overlap, each reporting exactly its piece and none ending before it must, and the start moves to the end |
| `ReceiveSideTwcc.CoversTells` | src/congestion_controller/receive_side_twcc.cpp:109-151 | each message names exactly the packets received in its piece, in order, with times that rebuild to within 125 us |
| `NackPacking.SetBitSetsOne` | src/rtp_rtcp/rtcp_packet.cpp:458-465 | setting a bit of the mask sets that bit and no other |
| `NackPacking.PackNamesTheSame` | src/rtp_rtcp/rtcp_packet.cpp:452-472 | the entries of any list name exactly its numbers |
| `NackPacking.PackKeepsOrderedLists` | src/rtp_rtcp/rtcp_packet.cpp:452-513 | a list in circular order comes back unchanged |
| `NackPacking.PackCovers` | src/rtp_rtcp/rtcp_packet.cpp:452-472 | the entries are windows of 17 numbers that cover the list |
| `NackPacking.GreedyIsOptimal` | src/rtp_rtcp/rtcp_packet.cpp:452-472 | for a list of span below 65520 no set of such windows that covers it is smaller |
| `NackPacking.GreedyMissesTheWrap` | src/rtp_rtcp/rtcp_packet.cpp:452-472 | for each span from 65520 on there is a list with a smaller set |
| `NackPacking.OptimalExactlyBelow` | src/rtp_rtcp/rtcp_packet.cpp:452-472 | packing is optimal for all lists of a span if and only if the span is below 65520 |
| `NackPacketMessage.NackPacket.MakeEntries` | src/rtp_rtcp/rtcp_packet.cpp:452-472 | the nested loops make exactly the specified entries |
| `NackPacketMessage.NackPacket.Serialize` | src/rtp_rtcp/rtcp_packet.cpp:450-486 | writes header and entries; entries that do not fit are cut off silently; when all fit, the bytes name their kind and their own length and the peer reads exactly the list's numbers from them, the same list if it is in circular order |
| `NackPacketMessage.NackPacket.Parse` | src/rtp_rtcp/rtcp_packet.cpp:488-513 | appends what the announced entries name, and succeeds exactly when they are all there |
| `NackPacketMessage.WireRoundTrip` | src/rtp_rtcp/rtcp_packet.cpp:450-513 | over the wire a list that fits the length field keeps its set of numbers, and a list in circular order is the same list |
| `NackPacketMessage.AnnouncedIsExact` | src/rtp_rtcp/rtcp_packet.cpp:495-497 | a length of two or more announces that many entries less two, a smaller one more than any buffer holds |
| `NackRequesting.LowerBound` | src/transport/nack_requester.cpp:73-75 | in a container partitioned by the key the search splits it there |
| `NackRequesting.Find` | src/transport/nack_requester.cpp:59-66 | a key found is there, and in a sorted container a key that is there is found |
| `NackRequesting.InOrderIsSorted` | src/transport/nack_requester.cpp:8-9 | on the list the circular comparator is a strict order |
| `NackRequesting.AgeLimitCuts` | src/transport/nack_requester.cpp:134-136 | the age limit splits the list by distance to the new packet |
| `NackRequesting.RequestKeepsPace` | src/transport/nack_requester.cpp:181-187 | a request for an entry that is due keeps its history paced |
| `NackRequesting.BatchInOrder` | src/transport/nack_requester.cpp:163-197 | every batch is in circular order, so a NACK packet carries it to the peer unchanged |
| `NackRequesting.NeverListed` | src/transport/nack_requester.cpp:52-56 | neither the newest packet nor a later one is ever listed |
| `NackRequesting.NackRequester.AllListingsPaced` | src/transport/nack_requester.cpp:163-197 | every listing ever made, in or out of the list, got at most 10 requests, the first at least 10 ms after it was made, the others at least the round-trip time then in force apart |
| `NackRequesting.NackRequester.GetNackBatch` | src/transport/nack_requester.cpp:163-197 | asks once for each entry that is due and drops those out of retries; each of those entries' histories gains exactly this request, with its time and the round-trip time in force, and no other history changes |
| `NackRequesting.EveryRequestLogged` | src/transport/nack_requester.cpp:181-187 | the histories hold exactly as many requests more as the batch has numbers, whether the entries stay or leave |
| `NackRequesting.GivenUpAfterTen` | src/transport/nack_requester.cpp:184-190 | an entry is given up after exactly ten requests |
| `NackRequesting.NothingDueIsLeft` | src/transport/nack_requester.cpp:163-197 | after a batch by time every entry left is younger than 10 ms or was asked for now or less than the round-trip time ago |
| `NackRequesting.BatchByTime` | src/transport/nack_requester.cpp:175-179 | a batch by time asks for exactly the entries at least 10 ms old and not asked for within the round-trip time |
| `NackRequesting.BatchByNumber` | src/transport/nack_requester.cpp:175-179 | a batch by number asks for exactly the entries at least 10 ms old that were never asked for |
| `NackRequesting.NackRequester.RemovePacketsUntilKeyFrame` | src/transport/nack_requester.cpp:115-131 | uses the first keyframe newer than an entry, drops exactly what is older than it and forgets the keyframes before it, none of which is newer than any entry; reports false only if no keyframe is, where searches are determined |
| `NackRequesting.NackRequester.Shrink` | src/transport/nack_requester.cpp:134-145 | drops what is older than 10000; then, only if there is no room, what is older than the first keyframe that makes the room; the loop terminates |
| `NackRequesting.AsksExactlyIfNoneHelps` | src/transport/nack_requester.cpp:138-151 | where searches are determined there is no room in the end if and only if there was none and no keyframe noted could have made it |
| `NackRequesting.SearchIsDetermined` | src/transport/nack_requester.cpp:117 | in a list in order a search is determined for every key but those 22768 to 32767 ahead of the newest packet |
| `NackRequesting.NackRequester.AddPacketsToNack` | src/transport/nack_requester.cpp:133-161 | keeps at most 1000 entries, each 1 to 10000 behind; lists every skipped packet not recovered, or, exactly if neither age nor a keyframe makes the room, clears the list and asks for a keyframe |
| `NackRequesting.NackRequester.ClearUpTo` | src/transport/nack_requester.cpp:105-109 | keeps the invariant for any number, and drops exactly what is older, of entries, keyframes and recovered packets, where the search is determined |
| `NackRequesting.NackRequester.Note` | src/transport/nack_requester.cpp:69-88 | keeps what was noted before and now, less what is beyond the age limit where the search is determined |
| `NackRequesting.JustNotedStays` | src/transport/nack_requester.cpp:69-88 | a keyframe or recovered packet just noted is kept |
| `NackRequesting.NackRequester.OnTimerTimeout` | src/transport/nack_requester.cpp:34-40 | sends exactly the entries due by time, enters exactly these requests in the histories, and leaves nothing that is due |
| `NackRequesting.NackRequester.OnReceivedPacket` | src/transport/nack_requester.cpp:46-103 | keeps the invariant on every path; a late packet leaves the list, its history with it, and its retries are returned; a newer one is noted and advances the list as specified, keyframes used only for want of room and a keyframe asked for only if none helps; the histories gain exactly the requests of the batch |
| `SendPacketRecording.ViewHoldsSlots` | src/transport/send_packet_recorder.cpp:14-37 | the queue stands for a map in which each packet is under its own number |
| `SendPacketRecording.IndexIsDistance` | src/transport/send_packet_recorder.cpp:39-58 | the index is the signed circular distance from the front, the larger number ahead at 2^15 |
| `SendPacketRecording.SendPacketRecorder.RemovePacket` | src/transport/send_packet_recorder.cpp:83-95 | empties one slot; at the front pops it and the empty slots behind it |
| `SendPacketRecording.SendPacketRecorder.CullOldPackets` | src/transport/send_packet_recorder.cpp:60-81 | removes the shortest prefix after which the front may stay, and forgets exactly the packets in it; below the capacity none sent less than three seconds or nine round-trip times ago |
| `SendPacketRecording.KeptForThreeSeconds` | src/transport/send_packet_recorder.cpp:60-81 | a front packet may stay exactly if the queue is below 9600 and it was sent less than three seconds or nine round-trip times ago |
| `SendPacketRecording.CulledIsOld` | src/transport/send_packet_recorder.cpp:60-81 | what is culled below the capacity was sent at least three seconds and nine round-trip times ago |
| `SendPacketRecording.SendPacketRecorder.Record` | src/transport/send_packet_recorder.cpp:14-37 | culls and then updates the map, replacing a packet of the same number; first and last slot stay populated and slots below 2^16; a packet behind the front becomes the front, and the queue grows just far enough |
| `SendPacketRecording.SendPacketRecorder.Query` | src/transport/send_packet_recorder.cpp:97-120 | returns the recorded packet of that number exactly when it can be reached and was not retransmitted within a round-trip time, and counts the retransmission |
| `SendPacketRecording.AskTwice` | src/transport/send_packet_recorder.cpp:97-120 | a packet in reach that was never sent again is found; after that it is found again if and only if the round-trip time has passed, and each retransmission is counted |
| `SendPacketRecording.OutOfReach` | src/transport/send_packet_recorder.cpp:97-120 | three packets recorded in an empty queue put the second one out of reach: it is recorded, was never sent again, and is not found |
| `RtpPackets.WrappedLayout` | src/transport/subscribe_stream.cpp:268-278 | a wrapped packet parses with the original header length and two more bytes of payload |
| `RtpPackets.RepairedLayout` | src/rtp_rtcp/rtp_packet.cpp:250-264 | a repaired packet parses with the same header length and two bytes less of payload |
| `RtpPackets.RtxRoundTrip` | src/rtp_rtcp/rtp_packet.cpp:250-264 | wrapping an unpadded packet and repairing what is parsed gives the original bytes |
| `RtpPackets.RtpPacket.Create` | src/rtp_rtcp/rtp_packet.cpp:192-200 | accepts exactly what parses and keeps a copy with matching fields |
| `RtpPackets.AssembledParses` | src/rtp_rtcp/rtp_packet.cpp:76-171 | a packet put together from header fields, sources, extension, payload and padding parses to those fields and that payload |
| `RtpPackets.ParsedExactly` | src/rtp_rtcp/rtp_packet.cpp:76-171 | bytes parse if and only if they can be put together so |
| `RtpPackets.RtpPacket.RtxRepair` | src/rtp_rtcp/rtp_packet.cpp:250-264 | renumbers the header and closes the gap of the original number in place; the fields describe the bytes again |
| `RoomProtocol.NextKeeps` | src/signaling/room.cpp:15-175 | every step of every thread keeps the three maps in agreement, ids unique, each stopped stream notified once, observer lists behind the maps only by what is posted |
| `RoomProtocol.RunKeeps` | src/signaling/room.cpp:15-175 | so in every interleaving |
| `RoomProtocol.AfterSubscribe` | src/signaling/room.cpp:66-103 | subscribing keeps every subscriber in exactly one publisher's set and in its participant's |
| `RoomProtocol.AfterShutdown` | src/signaling/room.cpp:121-175 | the shutdown handler takes exactly one stream out of all maps and leaves no empty set |
| `RoomProtocol.DrainRan` | src/transport/publish_stream.cpp:106-122 | in whatever order workers run, each publisher's observer list drains to the same set |
| `RoomProtocol.QuietIsClean` | src/signaling/room.cpp:121-175 | when all handlers have run, observer lists are those of the maps and every stream told to stop or failed is gone, notified exactly once |
| `RoomProtocol.LeaveCleansUp` | src/signaling/room.cpp:24-43 | in every run, when all handlers have run after a participant left, nothing is left of its streams nor of the subscriptions to them, those made after it left included |
| `RoomProtocol.HandlerStepsDescend` | src/signaling/room.cpp:121-175 | each handler removes a stream, stops one, or shortens the queues |
| `RoomProtocol.ComesToRest` | src/signaling/room.cpp:121-175 | from every reachable state the handlers alone reach a state in which nothing is posted |
| `RoomMethods.Room.Join` | src/signaling/room.cpp:15-22 | adds the participant, or reports that it is there; the maps stay in agreement |
| `RoomMethods.Room.Leave` | src/signaling/room.cpp:24-43 | is the protocol's leave step: stops exactly the participant's streams, each once; the maps stay in agreement |
| `RoomMethods.Room.DrawId` | src/signaling/room.cpp:53-58 | the loop ends with the first id drawn that no mapped stream has |
| `RoomMethods.Room.ParticipantPublish` | src/signaling/room.cpp:49-69 | draws ids until one is not in use, and is the publish step with that id, or changes nothing; the maps stay in agreement |
| `RoomMethods.Room.ParticipantSubscribe` | src/signaling/room.cpp:71-103 | draws ids until one is not in use, and is the subscribe step with that id, or changes nothing; the maps stay in agreement |
| `RoomMethods.Room.StreamIdExist` | src/signaling/room.cpp:209-225 | finds an id if and only if a mapped stream has it |
| `RoomMethods.Room.OnWebrtcStreamShutdown` | src/signaling/room.cpp:121-175 | the two loops are the protocol's shutdown step, post no task twice, and keep the maps in agreement |
| `PublishStreams.PublishStream.Shutdown` | src/transport/webrtc_stream.cpp:163-170 | however often it runs, the room is notified once |
| `PublishStreams.PublishStream.RunRegister` | src/transport/publish_stream.cpp:106-113 | adds an observer once, as the step system has it |
| `PublishStreams.PublishStream.RunUnregister` | src/transport/publish_stream.cpp:115-122 | removes an observer, as the step system has it |
| `Crc32.ShiftsAreLinear` | src/base/crc32.cpp:7-21 | the register update is linear over exclusive or |
| `Crc32.AddFirst` | src/base/crc32.cpp:26-28 | adding a byte first and shifting eight times is taking its bits in one by one |
| `Crc32.LookupTakesByte` | src/base/crc32.cpp:26-28 | one table lookup takes in one byte |
| `Crc32.LoadCrc32Table` | src/base/crc32.cpp:5-21 | entry i holds eight shifts of i |
| `Crc32.Calculate` | src/base/crc32.cpp:23-29 | for every byte string the result is the bit-serial CRC |
| `Crc32.KnownAnswer` | src/base/crc32.cpp:3 | the CRC of the digits 1 to 9 is 0xCBF43926 |
| `BitrateEstimation.LookCutsBuckets` | src/base/bitrate_estimator.cpp:64-72 | popping old buckets keeps exactly the samples that still count, at every cut-off time |
| `BitrateEstimation.SampleFillsBucket` | src/base/bitrate_estimator.cpp:22-30 | a sample goes into a bucket of its own clamped time |
| `BitrateEstimation.BitRateEstimator.TotalsAreCounted` | src/base/bitrate_estimator.cpp:16-38 | the running totals equal the sums over the history of samples no later call found older than 999 ms, also when time goes backwards |
| `BitrateEstimation.BitRateEstimator.AddData` | src/base/bitrate_estimator.cpp:16-38 | adds one sample, dated no earlier than the newest kept; overflow is flagged for good, exactly when the total reaches the largest 64-bit integer |
| `BitrateEstimation.BitRateEstimator.Rate` | src/base/bitrate_estimator.cpp:40-62 | no rate exactly without enough samples or after an overflow; otherwise the counted bytes over the active window |
| `BitrateEstimation.StreamCounted` | src/base/bitrate_estimator.cpp:64-72 | of a sample of the same size every millisecond exactly those of the last second count, at every cut-off |
| `BitrateEstimation.ConstantStream` | src/base/bitrate_estimator.cpp:40-62 | the rate of such a stream is its rate from the second sample on, while the window grows and when it is full |

## Left out

- Sockets, timers, DTLS, SRTP, STUN, configuration, logging, the HTTP and websocket front, SDP and the browser SDK: input, output and unseen libraries.
- Floating point: the trend-line estimator, NTP conversions, the unused exponential back-off, and the rounding of a rate to a float.
- BitrateEstimation.BitRateEstimator.Rate: states the integer value before the code rounds it as a float and compares it with the largest 64-bit integer.
- TransportFeedbackMessage.TransportFeedback.RoundTrip: covers messages with timestamps only, because padding of a message without them can be read as deltas; the only sender includes them.
- TransportFeedbackMessage.TransportFeedback.Serialize: does not model that the header object keeps its length field byte-swapped after writing.
- Overflow of 64-bit times and of unwrapped sequence numbers; 16-bit and 8-bit wrap-around is modelled everywhere.
- Bit masks are integers: setting a bit is defined bit by bit, and the or of disjoint fields is a sum.
- TransportFeedbackMessage.TransportFeedback.Parse: assumes the buffer holds the announced length.
- TransportFeedback.GetBaseDeltaUs and the sender side of congestion control, whose history is keyed inconsistently.
- NackRequesting.LowerBound: promises nothing for a container that is not partitioned by the key, because a tree search is not determined there; keyframe and recovered sets can get into that state, since recovered packets do not advance the newest number.
- NackRequesting.NackRequester.OnReceivedPacket: reads the clock once for all entries it adds and once for the batch.
- Ordered containers and deques are sequences: their cost and iterator validity are not modelled.
- NackPacket.Size, which counts unpacked entries, and the other RTCP packets.
- SendPacketRecorder stores packets as values, so a packet handed out is a copy, as in the code.
- RtpPackets.RtpPacket.RtxRepair: requires an unpadded packet with no or at least two bytes of payload, because outside these the code leaves the memory that is modelled; the entries of the header extension are not modelled.
- RtpPackets.WrappedLayout: requires an unpadded packet; of a padded one the sender's buffer keeps what it held where the padding belongs.
- Notices to the signalling server about participants and streams that come and go.
- Room destruction, the connected notification, room information, and stream set-up, whose success is a parameter.
- RoomMethods.Room.DrawId: takes the random strings as a parameter and assumes that one of them is not in use; without that the loop does not end.
- The order in which unordered sets are visited is arbitrary in the model, as are thread interleavings; memory effects between threads are not modelled.
- Payload parsers, the memory pool, the keyframe requester, track statistics and the unwrapper's second mode, which would add easy members or have no clean statement.
