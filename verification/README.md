# A verified model of the RakNet transport and its codecs

The program talks to Minecraft servers. Below its Bedrock side lies a RakNet
transport that it implements itself: a synchronous reliability engine, a codec
for datagrams, frames and acknowledgements, and a session that calls the engine
in a fixed order. Beside it lie three variable-length integer codecs, the game
packets and batches that the transport carries, and the length-prefixed framing
of the Java edition. This project models those parts and proves what they do on
all inputs and over all runs.

The source's mutable objects are classes here and its loops are loops. Each
method is proved to compute a function of its inputs and the old state
(`EngineState`, `Datagrams`, `ReceiveWindow`, `Varints`, `GamePackets`), and the
properties are proved about those functions. Sequence numbers are 24-bit and
circular; the proofs give each an unbounded integer (`Wrap`). Times are natural
numbers of nanoseconds, read from the clock by the caller.

| layer | files |
|---|---|
| wire format | `basics`, `bit_masks`, `packet_buf`, `datagram`, `datagram_codec`, `datagram_proofs`, `layout_proofs` |
| splitting and reassembly | `ascending`, `splitting`, `reassembly`, `group_proofs`, `group_engine_proofs` |
| receive window | `window`, `window_proofs` |
| engine | `acks`, `engine_state`, `engine`, `walk_proofs`, `retransmission_proofs`, `send_proofs`, `ledger_proofs`, `index_proofs`, `ack_proofs`, `ack_loss_proofs` |
| session and two endpoints | `session`, `tick_proofs`, `refusal_proofs`, `delivery`, `delivery_proofs`, `limit_proofs`, `long_run_proofs`, `release_order_proofs`, `stall_proofs`, `drop_proofs`, `forget_proofs`, `late_ack_proofs`, `nack_proofs` |
| variable-length integers | `varint`, `varint_codec` |
| game packets, Java framing | `game_packets`, `game_packet_proofs`, `java_framing` |

## What the proofs found

- **A single record is walked around the whole circle.** A record without an end
  never meets the end test, so an ACK for one datagram forgets every outstanding
  one (`WalkProofs.SingleAckForgetsAll`), after which no NACK and no timer brings
  back a datagram that was lost (`RetransmissionProofs.SingleAckStopsRecovery`).
  The comments on `AckRange` say that it denotes one number; processing an ACK
  agrees with that meaning exactly when it has no such record or denotes
  everything outstanding anyway (`WalkProofs.AckRemovesDenoted`).
- **The window's reach.** Newness is judged correctly for all 2^24 numbers around
  the contiguous prefix, but the greatest number seen is kept correctly if and
  only if the arrival is less than half the circle past the old one
  (`WindowProofs.HighestSeenExactly`). `WindowProofs.HalfwayArrivalMisreports`
  shows the NACK that results otherwise; it asks for a number already received.
- **An ACK can drop what never arrived.** While a sender uses each number once, in
  runs of at most 2^24 sends, this happens exactly through single records
  (`ForgetProofs.DropsOnlyArrivedExactly`), so that nothing is ever forgotten
  unarrived exactly when each ACK processed has no single record or finds
  everything outstanding arrived (`ForgetProofs.NeverForgetsExactly`);
  `DropProofs.FirstLostForGood` is a run of five steps in which something is. With
  one send more, an ACK of ranges that arrives late does the same to a datagram that
  uses an old number again (`LateAckProofs.LateAckForgetsUnarrived`).
- **Losses are made good** by one NACK round, and by the sender's timer alone
  (`NackProofs.NackRoundClosesGaps`, `NackProofs.TimerClosesGaps`); a tick sends all
  it should and nothing else (`TickProofs.TickSendsExactly`).
- **A frame that fails takes what stands before it along.** Frames of the same
  datagram that were to be handed over at once are lost; ordered ones are queued and
  released with the next datagram (`RefusalProofs.RefusedDatagram`,
  `RefusalProofs.ReleaseIsDelayed`).
- **2^24 ordered sends is the exact limit of in-order delivery under repetition.**
  Below it delivery holds in every run (`DeliveryProofs.EndToEnd`); with that many
  there is a run in which a late copy of the first frame, which stays queued under
  its index, is released again (`LimitProofs.LimitPassed`). Without such copies there
  is no limit (`LongRunProofs.TimelyRunsDeliver`); in general a run of any length is
  in order exactly when, at every release, the last frame to have arrived under that
  index is the due one (`ReleaseOrderProofs.InOrderExactly`).
- **A failed ordered send stops the stream.** Its order index is used up, so the
  receiver waits for it for ever (`StallProofs.FailedSendStops`). At any point of any
  run, everything submitted can still be released if and only if no ordered send has
  failed (`StallProofs.GoesOnExactly`). A send fails exactly when `SendProofs.SendSucceedsExactly` says. Under the default MTUs of
  1492, 1200 and 576 no payload of feasible length fails; an MTU of 9000 admits a
  body of 8192 bytes that does (`StallProofs.JumboPayloadStalls`).
- **A repeated fragment destroys its group.** Frames of a duplicate datagram are
  processed again. A fragment that comes again while its group is incomplete fails
  and takes everything held of the group with it; after completion it stays
  buffered as the start of a new one (`GroupProofs.GroupsDoNotInterfere`,
  `GroupEngineProofs.DuplicateLosesGroup`, `GroupProofs.LateFragmentIsHeld`).
  Datagrams that the engine itself builds carry whole groups and are not affected
  (`DeliveryProofs.EndToEnd`).
- **A tick can lose its ACKs.** It clears the pending ACKs before it encodes them:
  more than 65535 runs cannot be encoded, and a tick that then finds the session
  dead sends nothing (`AckLossProofs.TickSendsAcksExactly`, `AckLossProofs.ScatteredAcksAreLost`).
- **A split payload never fits the MTU.** All its fragments go into one datagram
  (`SendProofs.SentFitsMtuExactly`).
- **The frame length check is made in 32 bits.** A body of 2^32 bytes or more can
  pass it and is then lost; a frame that the encoder accepts survives exactly
  when it is well formed (`SendProofs.SurvivesExactly`, `SendProofs.HugeBodyIsLost`).
- **Lengths wrap elsewhere too.** Game packets come back exactly below 2^32 bytes,
  Java strings and packets exactly below 2^31 bytes
  (`GamePacketProofs.PacketRoundTripExactly`,
  `JavaFraming.PrefixedRoundTripExactly`).
- **An uncompressed batch can look compressed.** `GamePacketProofs.RawRoundTripExactly`
  says exactly when it cannot, under any decompressor that refuses what cannot begin
  a zlib stream. Whether the library's streaming one accepts a stream cut off inside
  its header is not known here, so such a stub counts as one that may be accepted.
- **An over-long varint is cut when written again.** The reader accepts several
  bytes that end in a zero byte; the writer stops before that byte and so writes
  no end (`Varints.ReadThenWriteExactly`).

## Model

| member | source | states |
|---|---|---|
| PacketCursor.PacketBuf.constructor | src/bedrock/raknet.rs:72-74 | a new cursor has the whole packet unread |
| PacketCursor.PacketBuf.Remaining | src/bedrock/raknet.rs:77-79 | the number of bytes still unread |
| PacketCursor.PacketBuf.ReadU8 | src/bedrock/raknet.rs:120-125 | takes one byte off the unread part, or fails and moves nothing |
| PacketCursor.PacketBuf.ReadU16 | src/bedrock/raknet.rs:128-133 | takes a big-endian 16-bit number off the unread part, or fails and moves nothing |
| PacketCursor.PacketBuf.ReadU24Le | src/bedrock/raknet.rs:152-161 | takes a little-endian 24-bit number off the unread part, or fails and moves nothing |
| PacketCursor.PacketBuf.ReadBytes | src/bedrock/raknet.rs:164-169 | takes exactly the next n bytes, or fails and moves nothing |
| PacketCursor.PacketBuf.ReadBeU32 | src/bedrock/datagram.rs:740-743 | takes a big-endian 32-bit number read as a four-byte slice |
| BitMasks.PacketFlags | src/bedrock/datagram.rs:635-648 | the model's arithmetic tests on a flag byte are the source's mask tests, for every byte |
| BitMasks.FramePartsOf | src/bedrock/datagram.rs:358-360 | the same for the reliability bits and the split bit of a frame |
| BitMasks.VarintParts | src/varint.rs:199-203 | the same for the low seven bits of a byte and its continuation bit |
| DatagramCodec.WriteFrame | src/bedrock/datagram.rs:258-348 | the pushed bytes are the frame's wire format; indices that do not match the reliability, exceed 24 bits, or a length over 65535 bits are refused in that order |
| DatagramCodec.ReadFrame | src/bedrock/datagram.rs:353-408 | nothing at the end of the packet; otherwise exactly the frame at the front, the cursor left after it, or the first error |
| DatagramCodec.ReadFields | src/bedrock/datagram.rs:373-407 | the index, split and body fields that the header calls for, in wire order |
| DatagramCodec.WriteDatagram | src/bedrock/datagram.rs:507-515 | flag, number and every frame's encoding in order, or the first frame's error |
| DatagramCodec.ReadDatagram | src/bedrock/datagram.rs:520-547 | not a datagram, or the number and all frames up to the end of the packet, or the first error; every frame takes at least three bytes |
| DatagramCodec.WriteAck | src/bedrock/datagram.rs:610-631 | flag, count and all records; more than 65535 are refused |
| DatagramCodec.ReadAck | src/bedrock/datagram.rs:635-665 | not an acknowledgement, or exactly the declared number of records, or an error |
| DatagramCodec.ClassifyPacket | src/bedrock/datagram.rs:694-722 | the flag byte alone decides which decoder is used and with which result |
| Datagrams.TakeFrame | src/bedrock/datagram.rs:353-408 | whatever is read takes its body and at least three bytes more, so reading frames ends |
| DatagramProofs.FrameBytesSize | src/bedrock/datagram.rs:321-347 | the exact encoded size of a frame |
| DatagramProofs.FrameRoundTrip | src/bedrock/datagram.rs:258-408 | a well-formed frame decodes to itself, consuming its own encoding and nothing of what follows |
| DatagramProofs.DatagramRoundTrip | src/bedrock/datagram.rs:507-547 | every well-formed datagram is classified as itself after encoding, with an exact size |
| DatagramProofs.FrameNormalises | src/bedrock/datagram.rs:353-408 | whatever decodes as a frame is well formed and is encoded as it stood, its four hint bits cleared |
| DatagramProofs.DatagramNormalises | src/bedrock/datagram.rs:694-722 | whatever is classified as a datagram is well formed, encodes to the same length with only hint bits changed, and is classified the same again |
| DatagramProofs.AckRoundTrip | src/bedrock/datagram.rs:610-665 | an ACK or NACK is encoded if and only if it has at most 65535 records, and then comes back whatever follows it |
| LayoutProofs.EncodedFrame | src/bedrock/datagram.rs:321-347 | where each field of every accepted frame stands and in which order of bytes, by arithmetic on the bytes: the reliability's number and the split bit, eight times the length, each index that is called for, the channel, the split fields, the body |
| LayoutProofs.FrameRefusedExactly | src/bedrock/datagram.rs:258-319 | exactly which frames are refused, and with which of the three errors |
| LayoutProofs.FrameReadExactly | src/bedrock/datagram.rs:353-408 | a frame is read from all and only the bytes that carry it in that layout, whatever the low four bits of the first, and whatever follows |
| LayoutProofs.FrameAcceptedExactly | src/bedrock/datagram.rs:353-408 | exactly which bytes begin with a frame, by their first three and their number, and which error the others give |
| LayoutProofs.EncodedDatagram | src/bedrock/datagram.rs:507-515 | every accepted datagram byte by byte: 0x80, the number's low 24 bits with the least significant byte first, and the frames in that layout one after another |
| LayoutProofs.DatagramReadExactly | src/bedrock/datagram.rs:694-722 | exactly which bytes are classified as a datagram, and as which |
| LayoutProofs.FramesRefusedExactly | src/bedrock/datagram.rs:520-547 | exactly which bytes are not a sequence of frames: reading stops with the error of the first place where no frame begins |
| LayoutProofs.EncodedAck | src/bedrock/datagram.rs:610-631 | every ACK and NACK byte by byte: 0xc0 or 0xa0, the count, and each record's marker and numbers, to the end; more than 65535 records are refused |
| LayoutProofs.AckReadExactly | src/bedrock/datagram.rs:635-665 | exactly which bytes are classified as an ACK or a NACK, and as which: a marker of 1 stands before one number, any other before two, and what follows the records is ignored; the only error is missing bytes |
| LayoutProofs.FirstByteDecides | src/bedrock/datagram.rs:694-722 | what a packet can be is decided by its first byte: below 0x80 nothing, up to 0x9f a datagram, up to 0xbf a NACK, above an ACK |
| Ascending.InOrder | src/bedrock/reliability.rs:435 | a set's elements from the smallest up, the order in which the source's sets and maps are walked |
| Splitting.Split | src/bedrock/datagram.rs:770-806 | the frame itself if it fits, otherwise its consecutive pieces with shared header, count and id, numbered from zero; a zero budget or too many pieces are refused |
| Splitting.PieceCount | src/bedrock/datagram.rs:785 | the number of pieces is the least that holds the body |
| Reassembly.Join | src/bedrock/datagram.rs:863-866 | the buffered pieces joined from the smallest index up |
| Reassembly.Reassembler.constructor | src/bedrock/datagram.rs:823-825 | a new reassembler holds nothing |
| Reassembly.Reassembler.Add | src/bedrock/datagram.rs:833-872 | the new contents and the result for every fragment, the four refusals in order |
| Reassembly.AddFragment | src/bedrock/datagram.rs:833-872 | a group's next fragment, whichever it is: nothing until the last, then the whole body and an empty reassembler |
| Reassembly.ReassemblyInAnyOrder | src/bedrock/datagram.rs:770-872 | for every body over the budget and every order of its fragments: nothing but at the last one, which gives the body back, and nothing is left; before that fewer than count are held, all numbered below count |
| ReceiveWindow.DatagramWindow.constructor | src/bedrock/reliability.rs:89-91 | a new window has seen nothing |
| ReceiveWindow.DatagramWindow.RecordArrival | src/bedrock/reliability.rs:95-123 | the new window and the answer for every arrival |
| ReceiveWindow.DatagramWindow.AdvanceContiguous | src/bedrock/reliability.rs:127-131 | consumes the whole run at the least unseen number, across the wrap |
| ReceiveWindow.DatagramWindow.MissingRanges | src/bedrock/reliability.rs:139-169 | the missing runs as records, in walking order |
| WindowProofs.FirstArrival | src/bedrock/reliability.rs:97-105 | the window starts at the first arrival, whatever its number |
| WindowProofs.RecordTracks | src/bedrock/reliability.rs:95-131 | one arrival within reach: the answer is whether it is new, and the window stands for the enlarged set, with its least missing and greatest seen |
| WindowProofs.RunTracks | src/bedrock/reliability.rs:95-131 | over every run within reach, across any number of wraps: each answer is right and the window stands for exactly the numbers seen |
| WindowProofs.HighestSeenExactly | src/bedrock/reliability.rs:117-119 | newness is right for all 2^24 numbers; the greatest seen is kept right if and only if the arrival is less than half the circle past it |
| WindowProofs.HalfwayArrivalMisreports | src/bedrock/reliability.rs:139-183 | a witness past that bound: the greatest seen stays behind and the NACK asks for a received number |
| WindowProofs.MissingDenotes | src/bedrock/reliability.rs:139-170 | the missing ranges are exactly the maximal runs never recorded between least missing and greatest seen, disjoint and in forward order; there are none if and only if the window is contiguous |
| Acks.CoalesceRanges | src/bedrock/reliability.rs:496-518 | the loop's records, which CoalesceExact characterises |
| Acks.CoalesceExact | src/bedrock/reliability.rs:496-518 | an ascending list becomes ascending, disjoint, non-adjacent, non-wrapping records that denote exactly its numbers |
| Acks.WalkedOrMeant | src/bedrock/reliability.rs:386-400 | a range record is walked over exactly the numbers it means, a single record over the whole circle |
| ReliabilityEngines.WalkEnds | src/bedrock/reliability.rs:392-399 | the loop's two exits together stop after forward distance plus one steps for a range and after 2^24 steps for a single record |
| ReliabilityEngines.ReliabilityEngine.constructor | src/bedrock/reliability.rs:233-248 | a fresh engine |
| ReliabilityEngines.ReliabilityEngine.Prepare | src/bedrock/reliability.rs:262-304 | the new state and the result of a send, including which counters a failed send has used up |
| ReliabilityEngines.ReliabilityEngine.Receive | src/bedrock/reliability.rs:311-354 | the new state and the frames handed over; after an error the frames before it have taken effect |
| ReliabilityEngines.ReliabilityEngine.Accept | src/bedrock/reliability.rs:326-352 | one frame: buffered under its split id, completed with the first fragment's header, queued or handed over |
| ReliabilityEngines.ReliabilityEngine.RouteFrame | src/bedrock/reliability.rs:358-367 | an ordered frame is queued under its index, any other is handed over at once |
| ReliabilityEngines.ReliabilityEngine.ReleaseOrdered | src/bedrock/reliability.rs:372-380 | releases the queued run that starts at the next expected index |
| ReliabilityEngines.ReliabilityEngine.HandleAck | src/bedrock/reliability.rs:384-402 | the store and the estimate after all records are walked |
| ReliabilityEngines.ReliabilityEngine.HandleNack | src/bedrock/reliability.rs:407-426 | the bytes to send again and the store with their times reset |
| ReliabilityEngines.ReliabilityEngine.TakeAcks | src/bedrock/reliability.rs:431-442 | one ACK of everything pending, which is then cleared, or none |
| ReliabilityEngines.ReliabilityEngine.MakeNack | src/bedrock/reliability.rs:446-453 | a NACK of what is missing, or none |
| ReliabilityEngines.ReliabilityEngine.Resend | src/bedrock/reliability.rs:458-473 | the overdue datagrams' bytes in key order and the refreshed store |
| WalkProofs.AckRemovesWalked | src/bedrock/reliability.rs:384-402 | an ACK removes exactly the datagrams its records are walked over and changes no other |
| WalkProofs.AckRemovesDenoted | src/bedrock/reliability.rs:384-402 | it removes exactly those its records denote if and only if it has no single record or denotes everything outstanding |
| WalkProofs.SingleAckForgetsAll | src/bedrock/reliability.rs:384-402 | one single record empties the store |
| WalkProofs.NackEmitsWalked | src/bedrock/reliability.rs:407-426 | a NACK emits the bytes of exactly the datagrams walked over, resets only their times, and keeps every key and every byte |
| WalkProofs.NackEmitsVisited | src/bedrock/reliability.rs:407-426 | what a NACK emits, in order and number: the bytes of the outstanding datagrams that its records visit, record by record |
| WalkProofs.VisitedInOrder | src/bedrock/reliability.rs:410-423 | a record visits its outstanding numbers each once, from its start on round the circle |
| WalkProofs.NackVisitsDenoted | src/bedrock/reliability.rs:407-426 | a NACK has exactly the datagrams sent again that its records denote if and only if it has no single record or denotes everything outstanding |
| WalkProofs.EachSingleEmitsAll | src/bedrock/reliability.rs:407-426 | each single record of a NACK has the whole store sent again once |
| RetransmissionProofs.SingleAckStopsRecovery | src/bedrock/reliability.rs:384-473 | after such an ACK no NACK and no timer emits anything sent before |
| RetransmissionProofs.RttBetween | src/bedrock/reliability.rs:484-490 | despite truncation an update lies between the old estimate and the sample, and stands still if and only if their eighths are equal |
| RetransmissionProofs.RttStep | src/bedrock/reliability.rs:484-490 | an update takes an eighth of the gap to the sample off it, up to rounding of seven nanoseconds, no more and no less |
| RetransmissionProofs.RttGeometric | src/bedrock/reliability.rs:484-490 | under equal samples what the gap exceeds seven nanoseconds by shrinks by 7/8 with each |
| RetransmissionProofs.RttConverges | src/bedrock/reliability.rs:484-490 | equal samples bring the estimate to their eighth, for good |
| RetransmissionProofs.AckEstimates | src/bedrock/reliability.rs:384-402 | an ACK removes exactly the outstanding datagrams its records visit, and the new estimate is the old one updated with the age of each, once, in the order of the first visits |
| RetransmissionProofs.OneSample | src/bedrock/reliability.rs:388-391 | a range record for one outstanding datagram gives its age as the only sample |
| RetransmissionProofs.EqualSamplesConverge | src/bedrock/reliability.rs:484-490 | as many equal samples as the gap has nanoseconds bring the estimate to their eighth |
| RetransmissionProofs.AckRttBounds | src/bedrock/reliability.rs:384-402 | an ACK leaves the estimate within any bounds that hold its old value and all the samples taken |
| RetransmissionProofs.ResendExact | src/bedrock/reliability.rs:458-473 | a resend returns exactly the overdue datagrams, each once, keeps the keys, and leaves none due: a second call at the same time returns nothing |
| RetransmissionProofs.ResendInOrder | src/bedrock/reliability.rs:458-473 | a resend returns the overdue datagrams in ascending order of their numbers |
| RetransmissionProofs.ThresholdExact | src/bedrock/reliability.rs:460-462 | a datagram is overdue after 80 ms or four times the estimate, the estimate alone where four times it cannot be represented |
| SendProofs.SendSucceedsExactly | src/bedrock/reliability.rs:262-304 | exactly when a send succeeds |
| SendProofs.SentDecodes | src/bedrock/reliability.rs:285-303 | a sent datagram is well formed, carries its number, and is classified as itself |
| SendProofs.SentSize | src/bedrock/datagram.rs:321-347 | 4 bytes, the body, and for each frame 3 bytes, its index bytes and 10 more if split |
| SendProofs.SentFitsMtuExactly | src/bedrock/reliable_conn.rs:69-73 | a sent datagram fits its MTU if and only if its body is at least 24 bytes shorter, and then it is one frame; below an MTU of 25 nothing is sent |
| SendProofs.SurvivesExactly | src/bedrock/datagram.rs:258-408 | a frame that the encoder accepts decodes to itself if and only if it is well formed |
| SendProofs.HugeBodyIsLost | src/bedrock/datagram.rs:310-319 | a witness: a body of 2^32 bytes is accepted and comes back empty |
| LedgerProofs.SendKeeps | src/bedrock/reliability.rs:262-304 | a send keeps the ledger: every outstanding datagram is stored as it was last sent |
| LedgerProofs.AckKeeps | src/bedrock/reliability.rs:384-402 | an ACK keeps the ledger and adds no key |
| LedgerProofs.NackKeeps | src/bedrock/reliability.rs:407-426 | a NACK keeps the ledger and the keys, and emits only bytes as last sent |
| LedgerProofs.ResendKeeps | src/bedrock/reliability.rs:458-473 | a resend keeps the ledger and the keys, and emits only bytes as last sent |
| LedgerProofs.OthersKeep | src/bedrock/reliability.rs:311-442 | receiving, releasing and draining ACKs touch neither the store nor the estimate and emit nothing stored |
| LedgerProofs.RunFromOpening | src/bedrock/reliability.rs:262-490 | over every run of an engine's operations: each stored datagram is as last sent, decodes to its own number, and has its retries counted, at most one per 80 ms since its send; the estimate is 200 ms updated with the samples in turn, and lies between their extremes |
| LedgerProofs.AliveExactly | src/bedrock/reliability.rs:475-480 | over every run: an engine is alive exactly until ten seconds and twice its estimate have passed since a datagram last arrived |
| LedgerProofs.RunConverges | src/bedrock/reliability.rs:384-490 | from any point of any run on, as many equal samples as the gap has nanoseconds bring the engine's own estimate to their eighth |
| LedgerProofs.PingsConverge | src/bedrock/reliability.rs:262-490 | for every sample there is such a run: datagrams sent and each acknowledged by itself after that time |
| IndexProofs.SendCarries | src/bedrock/reliability.rs:262-304 | over every run, failed sends included: a datagram's number counts the earlier sends that could be divided into frames; all its frames carry, of each kind of index their reliability calls for and of no other, the number of earlier sends that called for one; the pieces carry their count, their place and the number and one more as their id, are full but for the last, and joined are the payload |
| IndexProofs.SendRefusedExactly | src/bedrock/reliability.rs:284-291 | exactly which sends are refused, and with which of the three errors |
| GroupProofs.AcceptFragment | src/bedrock/reliability.rs:328-349 | a group's next fragment is buffered under its id or completes the frame that was split |
| GroupProofs.AcceptRepeat | src/bedrock/reliability.rs:334-338 | a fragment that comes again while its group is incomplete fails, and the group is gone |
| GroupProofs.GroupsDoNotInterfere | src/bedrock/reliability.rs:326-352 | any arrivals of fragments of groups with distinct ids: they are all accepted if and only if none comes again while its group is incomplete; then each completed group was routed as its original frame, in order of completion, and what is held of each is buffered by itself |
| GroupProofs.FreshCompletesOnce | src/bedrock/reliability.rs:338-348 | unrepeated fragments are all accepted; each group is completed at most once, exactly when all its fragments have arrived |
| GroupProofs.LateFragmentIsHeld | src/bedrock/reliability.rs:334-347 | a repetition after completion is accepted and stays buffered as if of a new group |
| GroupEngineProofs.EngineReassembles | src/bedrock/reliability.rs:311-354 | through the engine, however the fragments are cut into datagrams: every call succeeds if and only if no fragment comes again while its group is incomplete, and then the same holds; when all groups are complete nothing is left buffered |
| GroupEngineProofs.EachInTurn | src/bedrock/reliability.rs:311-354 | with a fragment to a datagram the engine goes on after failures: a call fails exactly when it repeats a held fragment, and everything stands as it should after every call |
| GroupEngineProofs.DuplicateLosesGroup | src/bedrock/reliability.rs:318-352 | a witness: one repeated datagram makes a call fail and its payload never arrive, which without it would have |
| Session.Connection.constructor | src/bedrock/reliable_conn.rs:124-157 | a connection starts with a fresh engine, its MTU, and a running tick loop |
| Session.Connection.Send | src/bedrock/reliable_conn.rs:164-174 | a send with the budget that the MTU leaves |
| Session.Connection.Handle | src/bedrock/reliable_conn.rs:505-574 | an ACK, a NACK, or a datagram whose frames are received and then the ordered queue drained; an error ends before the drain |
| Session.Connection.OnTick | src/bedrock/reliable_conn.rs:602-645 | pending ACKs, a NACK, overdue datagrams, in that order; a tick that finds the session dead sends nothing and ends the loop for good |
| TickProofs.TickSendsExactly | src/bedrock/reliable_conn.rs:611-632 | everything a tick sends: if a datagram has arrived within ten seconds and twice the estimate, one ACK that denotes exactly the pending numbers, one NACK that denotes exactly the missing ones, each if there are any in at most 65535 runs, and then the overdue datagrams, each once, from the least number up; otherwise nothing. Pending numbers are gone, and the overdue ones marked as sent once more |
| TickProofs.MissingLists | src/bedrock/reliability.rs:446-453 | a window's gap records denote exactly the missing numbers, with one record for each run |
| RefusalProofs.UnreadableIgnored | src/bedrock/reliable_conn.rs:505-507 | a packet that cannot be read changes nothing |
| RefusalProofs.RefusedExactly | src/bedrock/reliable_conn.rs:505-574 | a packet is refused exactly if it cannot be read or some frame of it fails |
| RefusalProofs.RefusedDatagram | src/bedrock/reliability.rs:311-354 | a refused datagram leaves everything as if it had ended before the failing frame, but for that frame's group; it hands over and releases nothing |
| RefusalProofs.ReleaseIsDelayed | src/bedrock/reliable_conn.rs:525-529 | what a refused datagram has queued is released by the next one, as it would have been at once |
| RefusalProofs.AddRefusedExactly | src/bedrock/datagram.rs:833-856 | exactly which fragments a reassembler refuses, with which of the four errors, and that they change nothing in it |
| RefusalProofs.LaterHeadersIgnored | src/bedrock/reliability.rs:331-341 | a reassembled frame has the header of the fragment that came first, whatever the others' headers |
| DeliveryProofs.AcceptSplit | src/bedrock/reliability.rs:311-354 | the frames of one send, in one datagram, are received as the frame sent and leave no reassembly behind |
| DeliveryProofs.DrainReleases | src/bedrock/reliability.rs:372-380 | a drain releases the submitted frames from the next index up to the first that is not queued |
| DeliveryProofs.ActKeeps | src/bedrock/reliable_conn.rs:505-645 | every protocol step keeps what both sides keep |
| DeliveryProofs.EndToEnd | src/bedrock/reliability.rs:262-380 | two fresh endpoints, any run of sends, ticks, losses, repetitions and reorderings with fewer than 2^24 ordered frames a side: each has released exactly the prefix of the other's ordered frames up to the least index not arrived, handed over at once only unordered frames that were sent, refused nothing, and buffers no fragment |
| DeliveryProofs.AllArrivedAllReleased | src/bedrock/reliability.rs:372-380 | when all ordered frames have arrived, all have been released, in order |
| DeliveryProofs.OnePayloadArrives | src/bedrock/reliability.rs:262-380 | such runs exist and deliver: an ordered payload whose send succeeds is released whole when its datagram arrives, however many fragments it was split into |
| DeliveryProofs.StaleFrameReturns | src/bedrock/reliability.rs:358-380 | with a late copy of the first of 2^24 frames queued, the last one's arrival releases it a second time |
| LimitProofs.LimitPassed | src/bedrock/reliability.rs:262-380 | the bound of 2^24 is tight: a whole run from fresh endpoints that submits exactly so many and releases the first frame twice |
| LongRunProofs.TimelyRunsDeliver | src/bedrock/reliability.rs:262-380 | runs of any length: as long as no released frame arrives again and none a whole turn ahead, each side has released exactly a prefix of the other's ordered frames |
| ReleaseOrderProofs.InOrderExactly | src/bedrock/reliability.rs:262-380 | runs of any length: at every point what is released is a prefix of what was submitted, if and only if at every release the last frame to have arrived under that index, modulo 2^24, was the due one |
| ReleaseOrderProofs.HandedOverExactly | src/bedrock/reliability.rs:358-367 | runs of any length: the frames that are not ordered are handed over whole, in the order in which they arrive and as often |
| LongRunProofs.AnyLength | src/bedrock/reliability.rs:262-380 | such runs exist with any number of ordered sends, all of them released |
| StallProofs.FailedSendStops | src/bedrock/reliability.rs:279-291 | once an ordered send has failed, no continuation of the run releases anything submitted after it |
| StallProofs.GoesOnExactly | src/bedrock/reliability.rs:262-380 | at any point of any run with fewer than 2^24 ordered frames a side: some continuation releases everything submitted so far if and only if no ordered send has failed |
| StallProofs.FirstReleasedExactly | src/bedrock/reliability.rs:262-304 | a stream's first payload, or anything behind it, can be released exactly when its body can be sent under its budget, as a caller can tell beforehand |
| StallProofs.JumboPayloadStalls | src/bedrock/reliable_conn.rs:164-174 | an input: 8192 bytes under an MTU of 9000 are within the budget, fail, and nothing sent later is released |
| AckProofs.AcknowledgedOnce | src/bedrock/reliability.rs:317-321 | over every run: the numbers in all ACKs drained together with the pending ones are exactly those accepted as new, each once |
| AckProofs.ResiduesDistinct | src/bedrock/reliability.rs:172-183 | in such runs no two accepted numbers share their low 24 bits |
| AckLossProofs.CoalesceCount | src/bedrock/reliability.rs:496-518 | coalescing gives one record for each run of consecutive numbers |
| AckLossProofs.TickSendsAcksExactly | src/bedrock/reliable_conn.rs:613-632 | a tick clears the pending ACKs, and sends an ACK of exactly them if and only if it finds the session alive and they form at most 65535 runs |
| AckLossProofs.ScatteredAcksAreLost | src/bedrock/reliable_conn.rs:615-619 | a witness: after 65536 arrivals of every second number the tick clears all pending ACKs and sends none |
| ForgetProofs.DropsOnlyArrivedExactly | src/bedrock/reliability.rs:384-442 | in every run of two endpoints with at most 2^24 sends: an ACK makes the sender forget only datagrams that have arrived, byte for byte, if and only if it has no single record or everything outstanding has arrived |
| ForgetProofs.NeverForgetsExactly | src/bedrock/reliability.rs:384-442 | in every such run: at every point each datagram sent has arrived or is outstanding, if and only if each ACK processed had no single record or found everything outstanding arrived |
| LateAckProofs.LateAckForgetsUnarrived | src/bedrock/reliability.rs:288-304 | the bound of 2^24 is tight: a whole run with one send more, after which a delayed ACK of one range forgets a datagram that never arrived |
| DropProofs.FirstLostForGood | src/bedrock/reliability.rs:384-442 | a witness: of two datagrams only the second arrives, its ACK makes the sender forget both, and nothing has been released |
| NackProofs.NackAnswered | src/bedrock/reliable_conn.rs:512-519 | every NACK that can be encoded is answered with the bytes of the outstanding datagrams its records visit, in order and number, and changes nothing but when these were last sent |
| NackProofs.AckTaken | src/bedrock/reliable_conn.rs:508-511 | every ACK that can be encoded removes the outstanding datagrams its records visit and updates the estimate with their ages; nothing is sent or handed over |
| NackProofs.DeliverTracks | src/bedrock/reliability.rs:311-321 | delivering stored datagrams, and acknowledgements among them, in any order and with repetitions records all their numbers |
| NackProofs.MissingIsWalked | src/bedrock/reliability.rs:407-453 | every missing number is walked over by some record of the NACK |
| NackProofs.NackRoundClosesGaps | src/bedrock/reliable_conn.rs:505-632 | a receiver with gaps ticks, its NACK arrives, and if everything missing is still outstanding at the sender, delivering what the sender answers, in any order and with repetitions, leaves nothing missing up to the old greatest number |
| NackProofs.TickAsks | src/bedrock/reliable_conn.rs:621-625 | a live session's tick with gaps puts exactly one NACK on the wire, of its window's gaps |
| NackProofs.TimerClosesGaps | src/bedrock/reliable_conn.rs:626-632 | without any NACK: if everything missing is outstanding and overdue, delivering what the sender's tick sends does the same |
| Varints.WrittenEncoding | src/varint.rs:173-193 | stopping at a zero byte is sound for every encoded value |
| Varints.WriteThenRead | src/varint.rs:113-233 | for every i32 and i64, writing and reading gives the number back, consuming exactly what was written whatever follows, in at most 5 or 10 bytes |
| Varints.EncodingIsShortest | src/varint.rs:211-233 | no shorter accepted string stands for the same number |
| Varints.LebByte | src/varint.rs:211-233 | each byte of an encoding holds the seven bits of its place, and is marked if and only if more follow |
| Varints.LebSize | src/varint.rs:211-233 | an encoding has exactly as many bytes as its number needs |
| Varints.NegativeTakesAll | src/varint.rs:211-233 | a negative number is encoded as its complement, in all 5 or 10 bytes |
| Varints.ReadThenWriteExactly | src/varint.rs:113-193 | writing what was read reproduces it if and only if it is one byte or does not end in a zero byte; otherwise its end is missing |
| Varints.AcceptedExactly | src/varint.rs:113-131 | exactly which strings are accepted, with which length, and which error the others give |
| Varints.DecodedBits | src/varint.rs:196-209 | the bits of a decoded number are seven of each byte, the first byte's lowest; of the last byte that fits the width only four or one, the rest are lost |
| Varints.TooLongExactly | src/varint.rs:113-131 | which strings are too long, after 5 or 10 bytes, and which too short |
| Varints.DecodersAgree | src/java.rs:409-437 | the three 32-bit decoders accept the same strings with the same bits and length, and differ only in the sign check |
| Varints.DecodesEncoding | src/bedrock/protocol.rs:76-94 | every 32-bit number's encoding decodes to it, whatever follows |
| VarintCodec.FromInteger | src/varint.rs:211-233 | the array holds the shortest encoding of the bit pattern, negative numbers included |
| VarintCodec.ToInteger | src/varint.rs:196-209 | the shifted and combined groups are the number whose pattern the encoding has, bits past the width lost |
| VarintCodec.WriteArray | src/varint.rs:173-193 | the bytes before the first zero, or one zero byte |
| VarintCodec.ReadArray | src/varint.rs:113-131 | the accepted bytes in an otherwise zero array, or the error |
| VarintCodec.WriteInteger | src/varint.rs:173-233 | converting and writing emits exactly the encoding of the pattern |
| VarintCodec.ReadInteger | src/varint.rs:113-209 | reading and converting yields the decoded number and how much was consumed |
| VarintCodec.WriteVaruint32 | src/bedrock/protocol.rs:58-72 | the same bytes as the array encoder for every 32-bit number |
| VarintCodec.ReadVaruint32 | src/bedrock/protocol.rs:76-94 | the decoded pattern and the bytes consumed, or the error |
| VarintCodec.ReadPacketLength | src/java.rs:409-437 | the decoded pattern as a signed length, which must not be negative |
| GamePackets.XorSign | src/bedrock/protocol.rs:99-106 | exclusive or with a sign's 32 bits complements or keeps |
| GamePackets.WriteVarint32 | src/bedrock/protocol.rs:98-101 | shift and exclusive or interleave the numbers by magnitude, written as a varuint32 |
| GamePackets.ReadVarint32 | src/bedrock/protocol.rs:104-108 | the signed number and the bytes consumed, or the error |
| GamePackets.EncodePacket | src/bedrock/protocol.rs:130-135 | identifier, length truncated to 32 bits, payload |
| GamePackets.DecodePacket | src/bedrock/protocol.rs:138-151 | the packet at the front and the bytes it took, or the error |
| GamePackets.BuildBatchBody | src/bedrock/protocol.rs:158-164 | the packets' encodings one after another |
| GamePackets.DecodeBatchBody | src/bedrock/protocol.rs:292-301 | all packets up to the end of the body, or the first error |
| GamePackets.EncodeBatchLegacy | src/bedrock/protocol.rs:188-194 | the batch byte and the compressed body, or the compressor's error |
| GamePackets.EncodeBatch | src/bedrock/protocol.rs:207-233 | the layout for each algorithm, and the two refusals |
| GamePackets.DecodeBatch | src/bedrock/protocol.rs:249-289 | the three shapes tried in order, and the error of the last |
| GamePacketProofs.Varint32RoundTrip | src/bedrock/protocol.rs:98-108 | every i32 comes back, whatever follows it |
| GamePacketProofs.ZigZagCovers | src/bedrock/protocol.rs:98-108 | every 32-bit pattern stands for an i32 that is written as that pattern |
| GamePacketProofs.ZigZagOrder | src/bedrock/protocol.rs:98-108 | numbers are interleaved by magnitude, the negative one of each pair first |
| GamePacketProofs.PacketLayout | src/bedrock/protocol.rs:130-135 | an encoded packet begins with its identifier, its length in 32 bits follows, then its payload |
| GamePacketProofs.PacketReadExactly | src/bedrock/protocol.rs:138-151 | exactly which bytes begin with a packet, and with which |
| GamePacketProofs.PacketRoundTripExactly | src/bedrock/protocol.rs:130-151 | a packet comes back, whatever follows it, if and only if its payload is shorter than 2^32 bytes |
| GamePacketProofs.BodyRoundTrip | src/bedrock/protocol.rs:158-301 | every list of such packets comes back from its batch body |
| GamePacketProofs.BodyNormalises | src/bedrock/protocol.rs:292-301 | writing the packets that were read never takes more bytes, and reads as the same packets |
| GamePacketProofs.BatchLayout | src/bedrock/protocol.rs:188-233 | a batch is 0xfe, for zlib a zero byte, and the stream or the body; the other algorithms are refused with their errors |
| GamePacketProofs.BatchReadFrom | src/bedrock/protocol.rs:249-289 | which bytes a batch is read from: the first stream that decompresses is final, and only if neither does are the bytes read as they are |
| GamePacketProofs.BatchRefusedExactly | src/bedrock/protocol.rs:249-289 | exactly which batches are refused as empty, as no batch, and as compressed with an algorithm not supported |
| GamePacketProofs.FlateRoundTrip | src/bedrock/protocol.rs:207-289 | the compressed batch comes back, given only that decompression undoes that compression |
| GamePacketProofs.LegacyRoundTrip | src/bedrock/protocol.rs:188-289 | so does the unprefixed one, given also that its stream does not begin with a zero byte (section 2.2 of RFC 1950) |
| GamePacketProofs.RawRoundTripExactly | src/bedrock/protocol.rs:249-289 | an uncompressed batch comes back under every decompressor that refuses streams of two or more bytes without a zlib header (section 2.2 of RFC 1950) if and only if its body, as it is or behind a leading zero byte, neither begins with one nor has fewer than two bytes |
| GamePacketProofs.RawBatchMisread | src/bedrock/protocol.rs:258-275 | two inputs for which it does not: a packet of identifier 120 with one byte, whose batch begins with a header, and an empty packet of identifier 0, whose batch is cut off inside one |
| JavaFraming.WriteString | src/java.rs:447-451 | the length cast to 32 bits, and the bytes |
| JavaFraming.ReadString | src/java.rs:455-476 | the string and the bytes it took; negative length, missing bytes and bad UTF-8 are refused in that order |
| JavaFraming.SendPacket | src/java.rs:396-402 | the length cast to 32 bits, and the payload |
| JavaFraming.ReceivePacket | src/java.rs:405-441 | the payload and the bytes it took, or the error |
| JavaFraming.PrefixedRoundTripExactly | src/java.rs:396-476 | bytes behind a prefix come back, whatever follows them, if and only if there are fewer than 2^31 of them |
| JavaFraming.PrefixedReadExactly | src/java.rs:396-476 | exactly which bytes begin with a prefix and what it announces, and which error the others give |
| JavaFraming.StreamRoundTrip | src/java.rs:396-441 | packets sent one after another on a stream come back in order |

## Left out

- Sockets, tasks, mutexes, channels and timeouts: input and output; the session's calls on the engine are atomic steps here, and anything emitted may be lost, repeated, delayed and reordered.
- Login, encryption, JSON and signatures: calls into foreign libraries.
- zlib itself: a pair of functions about which each theorem states what it needs.
- System messages, the offline handshake, pong parsing, addresses, the command line and locales: fixed field copies, DNS and formatting.
- What becomes of delivered frames: `message::classify` and the replies to system messages are not part of this model.
- Error texts, including the debug-build overflow of the product printed for an over-long body: errors are kinds here.
- The remaining readers of `PacketBuf` (`peek_u8`, `expect_id`, `read_i64`, the magic and IPv4 addresses): used only by the parts left out.
- Several ordering channels: the engine in the source has channel 0 only.
- `Datagram::new`'s check of the number: the engine's numbers are 24-bit, so it always passes and the datagram is built directly.
- `AckRange` built by hand with numbers over 24 bits: every record the program builds or reads has 24-bit numbers, and the type says so.
- Reassemblers as shared objects: the source moves them out of and back into a map, so the map holds their values.
- Bytes of a Java packet that arrive in several reads: the stream is the sequence of all its bytes.
- SendProofs.SendSucceedsExactly: budgets over 2^32 - 1 are excluded; the program's come from a 16-bit MTU.
- DeliveryProofs.EndToEnd: the same bound on budgets, for the same reason.
- LedgerProofs.RunFromOpening: the same bound on budgets, and a clock that does not run backwards.
- AckProofs.AcknowledgedOnce: runs that stay within the window's reach and span fewer than 2^24 numbers; beyond that a number's low bits stand for several.
- NackProofs.NackRoundClosesGaps: runs inside half the circle and NACKs of at most 65535 ranges; a longer NACK is not sent.
- NackProofs.TimerClosesGaps: runs inside half the circle, for the same reason.
- IndexProofs.SendCarries: the same bound on budgets as for SendProofs.SendSucceedsExactly.
- LedgerProofs.AliveExactly: a clock that does not run backwards, and the same bound on budgets.
- LongRunProofs.TimelyRunsDeliver: the condition on arrivals alone is sufficient only; ReleaseOrderProofs.InOrderExactly has the exact one, for one direction of the pair, which is symmetric.
- ForgetProofs.DropsOnlyArrivedExactly: at most 2^24 sends; beyond that a number stands for several datagrams, and LateAckProofs.LateAckForgetsUnarrived shows what then happens.
- ForgetProofs.NeverForgetsExactly: the same bound, for the same reason.
- GroupEngineProofs.EachInTurn: one fragment in each datagram; frames behind a failing one in its datagram are lost with it.
- Ticks after the tick loop has ended: the runs of two endpoints allow them, as more behaviour than the program has.
