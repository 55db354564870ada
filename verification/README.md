# iRacing Teleport: a Dafny model of the telemetry pipeline

iRacing Teleport copies a game's shared telemetry map from one machine (the source) to another (the target) over
UDP. On every tick the source picks the newest varBuf slot, copies it together with the 112-byte irsdk header, encodes
it as a keyframe or as an XOR delta, compresses it and cuts it into datagrams. The target reassembles, decompresses and
reconstructs the frame and writes it into its own map, varBuf first and header last; optionally it appends a row to an
`.ibt` file. Session-info frames carry the static prefix of the map instead.

Each layer is modelled twice: as a transition function on values, and as a class whose methods change buffers and
fields in place and are proved to perform exactly that transition. The properties are lemmas about runs of the
transitions.

| file | module | content |
|---|---|---|
| Bytes.dfy, Options.dfy | `Bytes`, `Options` | bytes, little-endian integers, slices, XOR |
| Wire.dfy | `Wire` | datagram header, delta bit, counting in pieces |
| XorDelta.dfy | `XorDelta` | `xor_delta` in 8-byte words and a tail |
| Fragmentation.dfy | `Fragmentation` | `Sender`, sequence numbers over failing sends |
| Reassembly.dfy | `Reassembly` | `Receiver`, its invariant and drop accounting |
| Channel.dfy, Misplaced.dfy, Assembler.dfy | same | fragments over a lossy, reordering, duplicating channel; final fragments stored in the wrong place; refinement of the receiver to an abstract assembler |
| Assemblies.dfy, Delivery.dfy, Repeats.dfy | same | what the receiver hands over: no mixing, exact delivery conditions, duplicates |
| Missing.dfy, Retry.dfy | same | messages that lack a fragment; two messages under one sequence number |
| Irsdk.dfy | `Irsdk` | slot table: both slot searches and the end of the static prefix |
| Codec.dfy | `Codec` | compression as a pair of functions with a round trip and size bounds |
| Source.dfy, SourceRuns.dfy, FrameHistory.dfy, TornRead.dfy | same | the source's tick loop, what it emits over runs, exactly which frame a tick sends given all that happened before, the torn-read guard |
| Target.dfy, Effects.dfy, Visibility.dfy, Accounting.dfy | same | the target's loop, its effects byte by byte, what an observer of its map sees, drop counters |
| Deltas.dfy, Healing.dfy, Shuffled.dfy | same | the exact distance of the two delta states, how many frames it can spoil, and the same over datagrams in any order |
| EndToEnd.dfy, LossyMessage.dfy, Mirror.dfy | same | one message through the datagrams, with replays and with losses; what one frame does to the target's map |
| LossyLink.dfy, Replication.dfy | same | all layers composed, over a link that drops any datagrams and sends that fail half way: how many frames come out wrong, and when the target's map is the source's |
| Resync.dfy | `Resync` | from the target's request back to a map that follows the source |
| IbtFile.dfy, IbtBytes.dfy, IbtWriter.dfy, IbtSession.dfy, IbtRuns.dfy, Recording.dfy | same | the `.ibt` file format and its bytes, its writer, the contents of files over runs, and the rows of a run of the whole pipeline |

## Where the code differs from its documentation

The model follows the code. Each difference is a lemma.

- Fragments are said to reassemble in any order. A final fragment that arrives first is placed at `index * 8976`
  (teleport/src/protocol.rs:307-312) and counts as received if it fits the buffer, so the final chunk of the payload keeps
  stale bytes. `Delivery.DeliveredForEveryBufferIff` gives the exact orders that work; other messages are not affected:
  `Assemblies.NoMixing`.
- Duplicates are said to be discarded. They are exactly while nothing has completed or displaced their message since they
  were stored: `Repeats.DuplicateDiscardedIff`. After completion the same datagrams are a new message
  (teleport/src/protocol.rs:327): `EndToEnd.ReplayAppliesAgain`, `Repeats.DeliveriesAreDisjointSets`. A delta replayed in
  this way takes itself back: `EndToEnd.ReplayedDeltaIsUndone`. A late duplicate that comes while another message is
  collected abandons that one: `Repeats.LateDuplicateAbandons`.
- A send that fails half way leaves the sequence number unchanged (teleport/src/protocol.rs:156-160), so the next message
  shares it. The receiver delivers nothing, or a payload made of both messages and of stale buffer bytes, at the first
  one's write offset: `Fragmentation.SequenceReusedIff`, `Retry.FailedSendMixes`. The second message comes out as it was
  sent exactly when the two are alike: `Retry.SecondAsSentIff`.
- Both sides are said to zero their previous frame on a session-info frame. The source only resets its counters
  (teleport/src/source.rs:351-352). What keeps the sides together is the keyframe this forces:
  `SourceRuns.DeltaFollowsKeyframe`.
- The torn-read guard is said to drop every torn copy. It compares the tickCount before and after; a slot that is already
  being rewritten when it is selected passes: `TornRead.GuardIsExact`, `TornRead.WholeReadsIff`. If the game stores the
  tickCount after the contents, torn copies pass as well: `TornRead.ContentsFirstTears`.
- Session-info frames are said to be no-ops for the `.ibt` file, because the writer drops rows whose tick it has
  (teleport/src/target.rs:372-373). Such a frame brings newer tickCounts but no slot contents, so a row is written that
  carries the new tick and the old contents: `Recording.SessionRowIsOld`. The partial frame with that tick then adds
  nothing: `Recording.TickIsNotRecordedAgain`.
- The lap count of an `.ibt` file is the number of lap records, unless the first lap is `i32::MIN` and `lap - 1`
  wraps and nothing is ever counted: `IbtRuns.ClosedFileFigures`.

## Model

| member | source | states |
|---|---|---|
| `XorDelta.WordXorIsBytewise` | teleport/src/protocol.rs:39-43 | XOR of two 8-byte words equals bytewise XOR, whichever byte order the machine has |
| `XorDelta.XorInto` | teleport/src/protocol.rs:23-47 | the chunked loop and its tail compute bytewise XOR for every length |
| `Bytes.XorCancel` | teleport/src/protocol.rs:23-47 | XOR-ing twice with the same previous frame gives the current one back |
| `Bytes.I32InMemory` | teleport/src/ibt_writer.rs:56-58 | an `i32` is read as two's complement from four bytes, the lowest address least significant |
| `Wire.DecodeEncode` | teleport/src/protocol.rs:140-157 | a header and chunk laid out as one datagram are read back as that header and chunk |
| `Wire.EncodeDecode` | teleport/src/protocol.rs:62-72 | the 24-byte layout has no padding: any 24 bytes are the layout of the header they decode to |
| `Wire.HeaderLayout` | teleport/src/protocol.rs:50-72 | source time, sequence, payload size, write offset, fragment and count are little-endian at bytes 0, 8, 12, 16, 20 and 22 |
| `Bytes.LittleEndian` | teleport/src/protocol.rs:54 | two-, four- and eight-byte fields have their least significant byte first |
| `Wire.PieceCountIsDivCeil` | teleport/src/protocol.rs:128 | the number of chunks is the rounded-up quotient |
| `Fragmentation.FragmentArithmetic` | teleport/src/protocol.rs:127-160 | for every datagram size the source allows: chunks concatenate to the data, all but the last are full, none is empty, no header field is truncated by its cast |
| `Fragmentation.Sender.constructor` | teleport/src/protocol.rs:103-110 | at least one payload byte per datagram, sequence 0 |
| `Fragmentation.Sender.Send` | teleport/src/protocol.rs:117-161 | exactly the datagrams of the message leave in order, or a prefix of them when the network fails, or none; the sequence is bumped only at the end of a complete send |
| `Fragmentation.Sender.SendHeartbeat` | teleport/src/protocol.rs:166-184 | a header-only datagram of 24 zero bytes |
| `Fragmentation.SequenceReusedIff` | teleport/src/protocol.rs:156-160 | two sends of a run share a sequence number exactly when every send from the first up to the second failed |
| `Reassembly.Receiver.constructor` | teleport/src/protocol.rs:228-245 | the initial receiver satisfies the invariant |
| `Reassembly.Receiver.ResetFor` | teleport/src/protocol.rs:342-372 | in-place reset performs the reset transition, rejection and drop counting included |
| `Reassembly.Receiver.OpenFor` | teleport/src/protocol.rs:267-279 | the state in which a fragment is examined: timestamp of fragment 0 taken, new sequence opened |
| `Reassembly.Receiver.StoreFragment` | teleport/src/protocol.rs:283-323 | one fragment is stored at the detected or guessed place, or ignored |
| `Reassembly.Receiver.IngestDatagram` | teleport/src/protocol.rs:249-340 | for any datagram the in-place code performs the `Ingest` transition and reports its result, with every index and slice in range |
| `Reassembly.IngestKeepsCounts` | teleport/src/protocol.rs:204-225 | any datagram keeps: the counter is the number of true flags, and below the total while a sequence is open |
| `Reassembly.RunKeepsCounts` | teleport/src/protocol.rs:249-373 | the receiver invariant over every run of arbitrary datagrams |
| `Reassembly.StepAccounting` | teleport/src/protocol.rs:325-345 | one datagram: begun plus open plus dropped before equals completed plus open plus dropped after |
| `Reassembly.DropAccounting` | teleport/src/protocol.rs:325-345 | over every run, sequences with a stored fragment are completed, dropped or still open |
| `Effects.IngestReports` | teleport/src/protocol.rs:249-340 | on any datagram: a heartbeat is reported for zero fragments, a new sequence for every fragment 0, and the fragment count of a completed message |
| `Channel.DatagramParses` | teleport/src/protocol.rs:140-157 | what `send` writes is parsed by the receiver as that fragment of that message |
| `Channel.FragmentStep` | teleport/src/protocol.rs:267-340 | one fragment adds itself to the set held, in its place; the message comes out exactly when the set is complete, byte for byte |
| `Misplaced.MisplaceStep` | teleport/src/protocol.rs:300-323 | a final fragment that comes first and fits is stored and counted, away from its place |
| `Misplaced.SpoiltStep` | teleport/src/protocol.rs:267-340 | from then on every fragment is counted and placed as ever, and the completed payload is right except perhaps in the final chunk |
| `Assembler.StepRefines` | teleport/src/protocol.rs:249-340 | on every datagram the byte-level receiver refines an assembler that only remembers which fragments it has and whether the final one is misplaced |
| `Assembler.RunRefines` | teleport/src/protocol.rs:249-373 | the refinement over every honest run with loss, reordering, duplication and heartbeats |
| `Assembler.WireRunIsParsed` | teleport/src/protocol.rs:249-272 | the packets of a run are what the receiver parses from the bytes sent |
| `Assemblies.StoresIff` | teleport/src/protocol.rs:283-323 | a fragment is stored exactly when it is not there yet, unless its place has to be guessed and the guess lies outside the buffer |
| `Assemblies.AssemblyBegan` | teleport/src/protocol.rs:300-323 | an assembly is spoilt exactly when the first fragment stored for it was a blind final one |
| `Assemblies.NoMixing` | teleport/src/protocol.rs:249-373 | over every honest run: whatever is handed over is the message just arriving, with its own offset and timestamp, byte for byte unless its own assembly began with a blind final fragment, and then right up to the final chunk |
| `Assemblies.HandedIsComplete` | teleport/src/protocol.rs:325-333 | when a payload is handed over every fragment of its message has arrived |
| `Delivery.DeliveredExactlyWhenComplete` | teleport/src/protocol.rs:283-339 | for every arrival order with repeats whose first fragment's place is known: delivery at the last missing fragment, never earlier |
| `Delivery.DeliveredForEveryBufferIff` | teleport/src/protocol.rs:300-333 | an order delivers the message for every stale buffer if and only if its first fragment is not a blind final one, or the wrong guess overflows the buffer and the final fragment comes again |
| `Delivery.StaleWitness` | teleport/src/protocol.rs:307-333 | in the other orders some stale buffer content is returned as payload |
| `Repeats.DuplicateDiscardedIff` | teleport/src/protocol.rs:274-333 | over every honest run: a fragment that repeats one stored before leaves the receiver exactly as it is if and only if since then the receiver has not handed over its message and no fragment of another sequence came, or it is a final fragment that has opened its message again and lies too far behind to be stored |
| `Repeats.LateDuplicateAbandons` | teleport/src/protocol.rs:342-345 | a late duplicate of another message makes the receiver drop the message it is collecting, which is handed over later only if all its fragments arrive again |
| `Repeats.DeliveriesAreDisjointSets` | teleport/src/protocol.rs:325-333 | over every honest run the receiver hands over a message exactly as often as the run has disjoint intervals that each bring all its fragments |
| `Repeats.DeliveredWhole` | teleport/src/protocol.rs:300-333 | what is handed over comes from the arrivals since the previous time, and is the message itself unless these misplaced its final fragment |
| `Repeats.RefusedIsSilent` | teleport/src/protocol.rs:346-356 | a message the receiver refuses is never handed over |
| `Retry.EmittedParses` | teleport/src/protocol.rs:117-161 | the datagrams of a failed send and of the next one are parsed as their fragments |
| `Retry.FailedSendMixes` | teleport/src/protocol.rs:249-373 | for any two messages under one sequence number, any point of failure and any buffer: nothing is delivered when the second has fewer fragments or its fragment does not fit; otherwise that fragment delivers the start of the first, then the second's bytes, then stale bytes, at the first one's offset, and later fragments begin an assembly that lacks its fragment 0 |
| `Retry.RefusedRun` | teleport/src/protocol.rs:346-356 | when the first message is refused nothing of the second is delivered either |
| `Retry.SecondAsSentIff` | teleport/src/protocol.rs:156-160 | the second message is delivered as sent, offset included, if and only if the first is accepted, both have one length and offset and they agree on the fragments sent before the failure |
| `Irsdk.ActiveVarBuf` | teleport/src/telemetry/windows.rs:182-221 | the search loop returns the first slot with the highest tickCount, with every early return |
| `Irsdk.ActiveSlotIs` | teleport/src/telemetry/windows.rs:182-221 | a slot is found exactly when length and slot are in bounds; it is the first with the highest tickCount, with its offset, its tick and the byte 48 + 16 w the tick was read at |
| `Irsdk.TickFieldReads` | teleport/src/source.rs:372-383 | re-reading the reported position in an unchanged map gives the selected tick |
| `Irsdk.NewestIsNewest` | teleport/src/telemetry/windows.rs:201-216 | that slot's tickCount is maximal and greater than all before it |
| `Irsdk.FindNewestRow` | teleport/src/ibt_writer.rs:65-80 | the writer's search loop returns tick and offset of the newest of the clamped number of slots |
| `Irsdk.NewestRowIs` | teleport/src/ibt_writer.rs:63-80 | it is the first slot with the highest tickCount among `numBuf` clamped to 1..4 |
| `Irsdk.SearchesAgreeIff` | teleport/src/ibt_writer.rs:63-80 | the two searches agree on a map the source sends from, exactly unless all ticks are `i32::MIN` and slot 0 does not start at 0 |
| `Irsdk.SessionInfoEnd` | teleport/src/source.rs:33-53 | the loop returns the least valid slot offset or the map's length |
| `Irsdk.PrefixStopsBeforeSlots` | teleport/src/source.rs:29-53 | the prefix is the longest one that stops before every active slot with a valid offset |
| `Irsdk.PrefixEndIs` | teleport/src/source.rs:33-53 | the prefix ends at the least slot offset behind byte 112 and inside the map, or at the map's end |
| `Source.Source.constructor` | teleport/src/source.rs:156-185 | the initial state of the loop |
| `Source.Source.SessionInfo` | teleport/src/source.rs:345-353 | the copied prefix with its status zeroed; counters reset, previous frame kept |
| `Source.Source.Partial` | teleport/src/source.rs:354-413 | the guards, the keyframe or delta choice, the payload and the new delta state are those of `SendPartial` |
| `Source.Source.OnData` | teleport/src/source.rs:269-413 | one data tick performs `DataTick`: frame choice and all state changes |
| `Source.Source.OnPacket` | teleport/src/source.rs:206-214 | a capability packet sets the pending resync and, with deltas enabled, the target's capability |
| `Source.Source.OnReopen` | teleport/src/source.rs:233-246 | a reconnect resets the session state and keeps capability and previous frame |
| `SourceRuns.FirstTickSendsSession` | teleport/src/source.rs:269-333 | the first data tick after an open or reconnect sends a session-info frame |
| `SourceRuns.ResyncIsAnswered` | teleport/src/source.rs:206-214 | the next data tick after a resync packet sends a session-info frame, whatever happens in between |
| `SourceRuns.SessionChangeIsSent` | teleport/src/source.rs:293-326 | a tick whose `sessionInfoUpdate` differs from that of the latest session-info frame sends a session-info frame |
| `SourceRuns.PartialKeepsUpdate` | teleport/src/source.rs:293-326 | a partial frame has the `sessionInfoUpdate` of the latest session-info frame, across reconnects |
| `SourceRuns.DeltaWasAllowed` | teleport/src/source.rs:394-397 | a delta is emitted only if deltas are enabled and the latest packet had bit 0 of its second byte set |
| `SourceRuns.DeltaFollowsKeyframe` | teleport/src/source.rs:349-412 | between the latest session-info frame or reconnect and any delta lies a keyframe |
| `SourceRuns.SkippedTick` | teleport/src/source.rs:355-391 | over every run: after a partial frame and until something else is sent, a data tick sends nothing exactly when no session-info is due and its slot is too large, torn or has that frame's tick; it then leaves the state unchanged |
| `FrameHistory.SessionSentIff` | teleport/src/source.rs:269-353 | over every run from the start a data tick sends session-info if and only if it is the first since open or reconnect, or a packet was read since the latest session-info frame, or `sessionInfoUpdate` differs from that frame's, or the interval is over, or no slot can be selected |
| `FrameHistory.PartialSentIff` | teleport/src/source.rs:354-413 | otherwise it sends nothing if and only if the slot is too large, torn or has the tick of the latest partial frame; and the frame is a delta if and only if deltas are enabled, K > 0, the latest packet had bit 0 of its second byte set, and the number of partial frames since the latest session-info frame or reconnect, modulo 2^32, is no multiple of K |
| `FrameHistory.FreshTickIsSent` | teleport/src/source.rs:354-413 | an atomic tick with a fitting slot of a new tick sends a partial frame when no session-info is due |
| `FrameHistory.SessionPayload` | teleport/src/source.rs:345-353 | a session-info frame is the copied prefix byte for byte with bytes 4..8 zero, at offset 2^32 - 1 |
| `FrameHistory.PartialPayload` | teleport/src/source.rs:369-412 | a keyframe is header and slot as copied, at the slot's offset; a delta their XOR with the front of the previous frame, with the top bit set; both become the front of the previous frame |
| `SourceRuns.PeriodStep` | teleport/src/source.rs:394-411 | counter arithmetic of the keyframe period across the 32-bit wrap |
| `SourceRuns.KeyframeInEveryWindow` | teleport/src/source.rs:394-411 | from any state and counter, any K consecutive partial frames contain a keyframe, also when the counter wraps and K does not divide 2^32 |
| `TornRead.GuardedReadIsWhole` | teleport/src/source.rs:369-383 | tickCount stored first and not reused, slot complete at selection: for every interleaving a varBuf that is sent is one whole version |
| `TornRead.GuardIsExact` | teleport/src/source.rs:372-383 | every read that starts at an instant and is sent carries the announced version if and only if the slot was complete at that instant |
| `TornRead.WholeReadsIff` | teleport/src/source.rs:372-383 | every read that is sent is the previous or the announced version, whole, if and only if the slot was complete, or still all old and not touched while the version is announced, or the two differ in at most one byte |
| `TornRead.ContentsFirstTears` | teleport/src/source.rs:372-383 | if contents are written before the tickCount, whenever two contents differ in two bytes some read passes the guard and is neither |
| `Target.Target.constructor` | teleport/src/target.rs:148-166 | the initial state of the loop |
| `Target.Target.Session` | teleport/src/target.rs:252-268 | the map copies around the status field in their order; the previous frame is zeroed |
| `Target.Target.Partial` | teleport/src/target.rs:280-335 | reconstruction, range checks, previous frame and map writes are those of `WriteFor` |
| `Target.Target.OnMessage` | teleport/src/target.rs:203-337 | one assembled message performs `Message` with exactly the specified sequence of map copies |
| `Target.Target.OnDatagram` | teleport/src/target.rs:188-395 | one datagram performs `OnPacket` on map, delta state, receiver and counters; a resync is requested exactly when the iteration was not cut short, no session-info frame is held and the interval is over |
| `Target.Target.OnStale` | teleport/src/target.rs:402-430 | the stale reset: map zeroed and dropped, delta state zeroed |
| `Target.DropsConserved` | teleport/src/target.rs:360-361 | moving the drop counter to the statistics loses nothing |
| `Effects.WrittenIff` | teleport/src/target.rs:225-316 | a message is written exactly when it was decompressed and is a session-info frame of at least 8 bytes or, after one, a partial frame of at least 112 bytes that ends inside the 2 MiB map |
| `Effects.SessionMessage` | teleport/src/target.rs:252-268 | byte by byte: all but 4..8 are the frame's, the previous frame is zero, partial frames are accepted |
| `Effects.PartialMessage` | teleport/src/target.rs:280-335 | byte by byte: header, slot and the front of the previous frame are the payload or its XOR with the previous frame, everything else is as before |
| `Effects.IgnoredMessage` | teleport/src/target.rs:203-262 | a message that is not written creates the map and changes nothing else |
| `Effects.DatagramBooks` | teleport/src/target.rs:188-398 | when the transit timer runs, when the drop counter moves to the statistics, and when an iteration is cut short |
| `Accounting.NothingUncounted` | teleport/src/target.rs:349-362 | over every run of the target: begun equals completed plus open plus dropped in receiver and statistics together |
| `Visibility.SessionKeeps` | teleport/src/target.rs:252-258 | at no moment of a session-info write does the status or anything behind the frame's end differ from before |
| `Visibility.SessionLeavesSlots` | teleport/src/source.rs:345-353 | the source's session-info frame never touches an active slot with a valid offset |
| `Visibility.EarlyStatusIff` | teleport/src/target.rs:318-334 | while the varBuf is copied the status can turn on exactly when the offset lies in the header and the data is odd at the status byte |
| `Visibility.StatusTurnsOnLast` | teleport/src/target.rs:329-334 | whenever the status turns on, a partial frame's header is being written and its varBuf is completely in place |
| `Visibility.ConnectedOnlyWithTelemetry` | teleport/src/target.rs:252-334 | over every run and at every moment between two byte writes, a connected status means some partial frame's varBuf was completely written since the map was created |
| `Deltas.FrameFacts` | teleport/src/source.rs:345-413 | how each event changes the source's previous frame and what the emitted payload is in terms of it |
| `Deltas.KeyframeKeys` | teleport/src/target.rs:314-328 | after a keyframe the target's previous frame is the source's, whatever it was before |
| `Deltas.ExactError` | teleport/src/source.rs:399-412 | for any order, loss and repetition of deltas after an applied keyframe, the XOR of the two previous frames is the XOR of the frame-to-frame changes delivered with the wrong parity; agreement if and only if that is zero |
| `Deltas.DeliveredOnceAgrees` | teleport/src/target.rs:301-328 | when every partial frame since the keyframe was delivered once, in any order, the target's previous frame is the source's |
| `Shuffled.ArrivalTakesFrame` | teleport/src/target.rs:188-430 | over a channel with loss, reordering and repeats and with stale resets, every datagram leaves the target's map side alone or applies one emitted frame, as it was emitted unless its own assembly began with a blind final fragment |
| `Shuffled.ExactErrorOfPipeline` | teleport/src/target.rs:188-430 | the exact error holds of source, codec, datagrams and target together, for the order in which the receiver handed over the deltas |
| `Healing.EventHeals` | teleport/src/target.rs:259-335 | one event: agreement is lost only by losing a partial frame and regained by the next keyframe or session-info frame; while it holds nothing is written wrong |
| `Healing.WrongFramesBound` | teleport/src/source.rs:343-413 | from any states, over every run with lost or replaced frames, resyncs, reconnects and stale resets: at most K-1 wrongly written partial frames per keyframe that does not arrive, K-2 per delta that does not, and K-1 more if the sides disagreed at the start |
| `Healing.AgreeAgain` | teleport/src/target.rs:403-430 | the sides agree initially and after every received keyframe and every session-info frame |
| `Healing.DeltaWrongIff` | teleport/src/target.rs:301-316 | a delta is written wrong exactly when the two previous frames differ on its length, and leaves the difference as it was |
| `EndToEnd.FeedMessage` | teleport/src/protocol.rs:117-340 | a message whose datagrams arrive in order is applied exactly once and leaves the receiver idle |
| `EndToEnd.ReplayAppliesAgain` | teleport/src/protocol.rs:325-333 | the same datagrams again apply the same message again |
| `EndToEnd.ReplayedDeltaIsUndone` | teleport/src/target.rs:301-328 | a delta applied twice restores the previous frame |
| `LossyLink.FrameOverLink` | teleport/src/source.rs:415-432 | compression, fragmentation, any dropped datagrams, reassembly and decompression together hand the target exactly the emitted frame, or nothing; it is handed over when all datagrams arrive and there are at most 256 |
| `Mirror.PartialMirrors` | teleport/src/target.rs:318-334 | a rightly reconstructed partial frame makes header and slot of the target's map those of the snapshot |
| `Mirror.PartialStays` | teleport/src/target.rs:318-334 | a partial frame, right or wrong, changes the target's map in the header and the slot only |
| `Mirror.SessionMirrors` | teleport/src/target.rs:252-258 | a session-info frame brings the snapshot's prefix from byte 8 on and leaves everything behind it alone |
| `Mirror.SearchFindsSlot` | teleport/src/telemetry/windows.rs:182-220 | both slot searches find on the target's map the slot the source selected |
| `Replication.VouchedRun` | teleport/src/target.rs:203-430 | over every run with losses, failed sends and stale resets the target's map still holds the prefix and the slots that the history of arrived frames says |
| `Replication.LandedFrameIsReplicated` | teleport/src/target.rs:225-336 | whatever was lost before: a partial frame that arrives while the sides agree, or as a keyframe, makes the target's map equal to the snapshot on header and slot, with that slot as the newest |
| `Replication.TargetFollowsSource` | teleport/src/target.rs:225-430 | when no frame is lost, with reconnects and stale resets anywhere, every partial frame that comes while the target writes partial frames leaves its map equal to the snapshot on header and slot, with that slot as the newest |
| `Replication.PrefixFollowsSource` | teleport/src/target.rs:225-430 | when moreover the slot table moves only with a session-info frame, the prefix of the latest one is in place |
| `Resync.KeyframeFollows` | teleport/src/source.rs:345-412 | the first partial frame after a session-info frame is a keyframe |
| `Resync.ResyncRecovers` | teleport/src/source.rs:206-413 | from any state and after any losses: a polled request of a target without a session-info frame allows deltas and makes the next data tick a session-info frame; when it arrives the target writes again, the next partial frame is a keyframe, and when that arrives map and delta state are the source's |
| `LossyMessage.AllOrNothing` | teleport/src/protocol.rs:249-373 | whichever datagrams of a message are dropped, and whatever sequence the receiver was on, the message is applied as a whole when all arrive and the receiver does not refuse it, and not at all otherwise |
| `LossyMessage.AtMostOneApplied` | teleport/src/protocol.rs:249-340 | in any state of the receiver, fragments of a failed send included, the datagrams of one message apply at most one message |
| `LossyLink.EventHasFate` | teleport/src/target.rs:188-337 | an event over a link that drops datagrams and fails sends acts on the target as its frame arriving, being lost or being replaced |
| `LossyLink.FatesExist` | teleport/src/target.rs:188-430 | every run over such a link has such fates for all its events |
| `LossyLink.LossyRunIsLinkRun` | teleport/src/target.rs:188-430 | every run over such a link is a run of the two sides with those fates |
| `LossyLink.SteadyMeansLengths` | teleport/src/source.rs:394-412 | when `bufLen` changes only with a session-info frame or reconnect, no delta is longer than the partial frame before it |
| `LossyLink.DroppedDatagramsBound` | teleport/src/source.rs:343-413 | from the start, over every pattern of dropped datagrams, failed sends and stale resets: at most K-1 wrongly written frames per keyframe that does not arrive, and K-2 per delta |
| `LossyLink.ArrivesUnlessFailed` | teleport/src/source.rs:425-452 | a frame arrives exactly when its send completes, all its datagrams arrive and there are at most 256, unless a datagram of a failed send has arrived since the latest complete send; only then can something else be applied |
| `IbtFile.FindVar` | teleport/src/ibt_writer.rs:85-100 | the scan loop is the search `FindFrom` |
| `IbtFile.FindIsFirst` | teleport/src/ibt_writer.rs:85-100 | it returns the first variable of that name, or nothing when there is none |
| `IbtFile.Parse` | teleport/src/ibt_writer.rs:119-152 | nothing for unconnected or unpopulated maps, otherwise the layout with its bounds |
| `IbtFile.ParsedIs` | teleport/src/ibt_writer.rs:119-152 | a map is taken exactly when bit 0 of its status is set, counts and lengths are positive and both regions are in bounds; every field comes from its own header bytes |
| `IbtBytes.ParsedVariables` | teleport/src/ibt_writer.rs:85-100 | session time and lap are read in a row at the `i32` four bytes into the first variable header named "SessionTime" and "Lap" |
| `IbtBytes.NamesSpelled` | teleport/src/ibt_writer.rs:138-139 | the two names are these |
| `IbtFile.ImageFinishes` | teleport/src/ibt_writer.rs:382-410 | rewriting one header field and the subheader turns an open file's bytes into the finished file's |
| `IbtFile.LoadImage` | teleport/src/ibt_writer.rs:594-613 | a file reads back to the variable headers, YAML, row length and rows it was made of |
| `IbtSession.LatestIsMaximum` | teleport/src/ibt_writer.rs:354-363 | for session times in a strict order the end time is one of them and none is later |
| `IbtSession.AppendHolds` | teleport/src/ibt_writer.rs:329-378 | one more frame keeps the open file the image of its session: rows whose tick advanced, and their figures |
| `IbtWriter.OpenIbt.Append` | teleport/src/ibt_writer.rs:329-378 | the in-place code performs `AppendRow` on file and statistics |
| `IbtWriter.OpenIbt.Finalise` | teleport/src/ibt_writer.rs:386-407 | the two seeks and writes produce the finished file |
| `IbtWriter.IbtWriter.OnMapUpdate` | teleport/src/ibt_writer.rs:309-327 | rolling, opening and appending perform `Update` |
| `IbtWriter.IbtWriter.Close` | teleport/src/ibt_writer.rs:382-415 | closing performs `Finish` and is harmless without a file |
| `IbtSession.FinishPatches` | teleport/src/ibt_writer.rs:401-407 | closing changes the bytes 48..52 and 112..144 and no others |
| `IbtRuns.ClosedFilesReadBack` | teleport/src/ibt_writer.rs:274-415 | over every run of map updates and closes, every closed file reads back to the fields, and to the variable headers and YAML at the offsets and lengths, that the map's own header bytes gave at the first frame of its session, and to the rows of all its frames in order |
| `IbtRuns.ClosedFileBytes` | teleport/src/ibt_writer.rs:154-223 | every byte of a closed file: 28 header fields with status 1, one buffer and the latest tick at byte 48, then variable headers, YAML and rows |
| `IbtRuns.OpenFileLength` | teleport/src/ibt_writer.rs:329-351 | after every event the open file's length is `buf_off + record_count * buf_len` |
| `IbtRuns.ClosedFileFigures` | teleport/src/ibt_writer.rs:205-223 | every closed file holds the date at bytes 112..120, the first session time at 120..128 and the greatest at 128..136, the number of strict lap maxima (zero if the first lap is `i32::MIN`) at 136 and the number of rows at 140 |
| `IbtRuns.SameFileIff` | teleport/src/ibt_writer.rs:309-327 | two connected frames share a file if and only if no close and no other `sessionInfoUpdate` comes between them |
| `Recording.RowIsAppended` | teleport/src/ibt_writer.rs:309-351 | one update appends exactly the row of the map, if it has one, to the open file or a new one, and remembers the tick |
| `Recording.RowsOfRun` | teleport/src/target.rs:372-376 | over every run of the pipeline that loses no frame: a written frame adds a row exactly when the target's map parses and the newest tick is not the file's latest; after a partial frame it is the snapshot's slot, after a session-info frame what the map held there before |
| `Recording.SessionRowIsOld` | teleport/src/target.rs:372-376 | the row of a session-info frame carries the new tick and is what the latest partial frame left in that slot |
| `Recording.SessionIsLatest` | teleport/src/ibt_writer.rs:336-341 | a session-info frame of a connected game makes its tick the file's latest |
| `Recording.TickIsNotRecordedAgain` | teleport/src/ibt_writer.rs:336-341 | a partial frame with that tick that follows leaves the file as it is |
| `Recording.StaleClosesFile` | teleport/src/target.rs:402-414 | a stale reset of a target with a map finishes the open file; what follows goes to a new one |

## Left out

- NoMixing: assumes, like all of `Assembler`, `Assemblies` and `Repeats`, that a sequence number belongs to one message; `Retry` treats the other case.
- DeliveredForEveryBufferIff: covers messages cut with at most 8976 payload bytes per datagram, the most the target's 9000-byte receive buffer holds, and at most 256 fragments, beyond which the receiver refuses the message.
- WrongFramesBound: frames arrive in order and at most once; reordering and repetition of deltas are covered by `Deltas.ExactError` and `Shuffled.ExactErrorOfPipeline`. A delta is not longer than the partial frame before it, as the protocol assumes by changing `bufLen` only with a session; `LossyLink.SteadyMeansLengths` derives it from that.
- DroppedDatagramsBound: datagrams are lost, neither reordered nor repeated; fewer than 2^32 messages are sent completely, so no sequence number is used twice except after failed sends.
- ExactError: the delivered deltas have the keyframe's length.
- ExactErrorOfPipeline: between the keyframe and the moment of comparison no stale reset occurs and no assembly that is handed over began with a blind final fragment; a sequence number belongs to one message.
- TargetFollowsSource: every tick reads one snapshot and slots do not reach into the header. Non-atomic reads are the subject of `TornRead`.
- RowsOfRun: the assumptions of `TargetFollowsSource`, slots that start behind the header, header fields that are not negative, one `bufLen` per `sessionInfoUpdate`, and a snapshot with a slot to select.
- WholeReadsIff: at the instant the read begins every byte of the slot is from the previous or the announced version.
- StatusTurnsOnLast: varBuf offsets are at least 112; `Visibility.EarlyStatusIff` says what happens otherwise.
- ClosedFileFigures: session times are eight bytes compared by an order that is passed in and assumed strict, so NaN is not covered.
- Parse: maps whose header fields or slot offsets are negative as `i32`; they wrap when converted to `usize`, and the sums with them may wrap back and make a slice fail.
- OnMapUpdate: the same maps, and variable row offsets within 8 of that wrap.
- Append: maps with a negative slot offset, for the same reason.
- LZ4 itself: compression and decompression are functions with a round trip and size bounds; a failing compression call is not modelled because the output buffer has the library's maximum size.
- Clocks: full-frame interval, resync interval and stale timeout are flags of an event; latency figures are left out. The instants `now - interval` at start are flags as well.
- Sockets, event handles, Win32 mappings, `zero_on_exit`, the FanaLab stub, command-line parsing, printing and callbacks.
- `stats.rs`, except the drop counter the target moves into it; counters are not bounded by their 64-bit width.
- `.ibt` file names, directory creation and failing writes; the record count is not bounded by its 32-bit width.
- The call of the `.ibt` writer inside the target's loop: writer and loop are separate classes; `Recording` runs the writer's transitions behind the target's.
- Branches no input reaches: the bounds check inside `session_info_end` after the 112-byte check, `map.len() < 112` on the 2 MiB target map, a delta longer than the 2 MiB previous frame.
