# Delivery, scheduling and lifecycle of the tunnel: a verified model

The tunnel carries streams over several unreliable connections at once. Two layers make that safe, and this project
models both, with the schedulers and counters around them, and proves what they promise.

**Striping** (`internal/mux`). A stream is cut into chunks numbered by a wrapping 32-bit counter and spread over the
connections. Each connection keeps its last 128 frames and, when it dies, has them resent by the others, which makes
duplicates. The receiver rebuilds the order with a heap compared by circular arithmetic (section 3.2 of RFC 1982), a
set of numbers seen and a cursor. `ReorderBuffer.dfy` models heap, set, cursor and timer as the class that the program
has and proves that they implement a finite map with a cursor, specified in `ReorderSpec.dfy` (`GapTimer.dfy` is about
its timer); `Striped.dfy` proves that this map implements a set of unbounded chunk indices, over any number of wraps;
`StripedSystem.dfy` puts sender, network and receiver together as one state machine and proves the end-to-end law for
every run.

**Reliability over a video track** (`internal/provider/telemost`). Writes become numbered chunks, chunks become
numbered packets, packets are protected by interleaved parity (seven packets, three apart), a 512-slot retransmit
buffer and a gap tracker, and are reassembled in write order. `Parity.dfy`, `FecDecoder.dfy`,
`FecEncoder.dfy`, `Nack.dfy`, `Retransmit.dfy`, `Rtp.dfy`, `RtpLimits.dfy` and `Vp8.dfy` model the parts; `RtpSystem.dfy`
proves what holds in every run of all of them together, and `RtpConn.dfy` proves which packets and parities the sender
produces: the packets that those runs assume, and parities among those that they admit.

**Around them.** `Codec.dfy` (frame format and write batching), `Rings.dfy` (both circular buffers), `Swrr.dfy`
(smooth weighted round robin), `Lifecycle.dfy` (death notice, close discipline, reconnect loop), `Gradual.dfy` (the
allocator's retry loop). `Bytes.dfy` and `Serial.dfy` hold octets and circular comparison.

Code that changes state step by step is modelled by methods and classes with the program's fields. Each method is
proved equal to a specification function of the old state, and the theorems are about those functions. Clocks, results
of sending, the connections found by the scheduler, the order in which results come back and what the network delivers
are parameters, so every theorem holds for all of them.

## Premises

- Both ends have decided alike whether a stream is striped (each decides alone, internal/mux/mux.go:219), stream ids
  are not reused, and a stream is opened once.
- The frame payload limit exceeds 4. The environment variable admits 1 to 4; with 4 the loop at
  internal/mux/mux.go:1318 makes no progress, with less it slices out of range. The upper limit of 65535 is enforced
  where the variable is read.
- A striped chunk arrives within 2^31 indices of the receiver's cursor. `Serial.LessExact` says exactly which
  distances beyond that are still compared rightly.
- Over a video track: fewer than 2^16 packets since the last reset, each write of 1 to 280500 bytes, and no packet that
  the track refuses to send. What is proved of the sender alone (`RtpSending`) needs neither of the first two, except
  `StartsExact`, `ParitiesAreGroups` and `BurstRecovered`, which stop at the wrap.
- For the gap tracker (`RtpGaps`) also: at most 2^15 packets, and the first packet recorded belongs to the write from
  which the receiver starts or to a later one; internal/provider/telemost/rtpconn.go:689-693 sets the start from the
  first packet.

## What the proofs turned up

- Write takes a chunk number before it looks for a connection. If there is none, the number is never sent and the
  receiver never delivers anything from that number on (`StripedSystem.OrphanStopsDelivery`). `StalledRun` is a run
  that loses an accepted byte so, and `AllDeliveredExactly` says exactly which runs do not.
- The gap timer is described as the age of the current gap. It is the time since the buffer last became non-empty
  (`ReorderSpec.GapTimerMeaning`); `GapTimer.TimerOutlivesItsGap` is an input on which the two differ, and
  `GapTimer.GapTimerExact` and `GapTimerRuns` say exactly which insertions make them differ.
- A parity group that straddles the 16-bit wrap is not three apart, so its parity names the wrong packets: exactly
  then (`FecEncoding.MembersExact`, with such a group in `StraddlingGroup`).
- Pruning the gap tracker with the write cursor removes no gap in any state reached under the premises above
  (`RtpGaps.PruneForgetsNothing`).
- An empty write takes a number and sends nothing, and so blocks delivery of all that follows it
  (`ReassemblyLimits.EmptyWriteBlocks`, with an input in `NothingAfterEmpty`).
- A write longer than 280500 bytes overflows the one-byte chunk count: of c chunks the first c mod 256 are delivered as
  one message that nobody wrote (`DeliveredAlone`). `ListDelivered` says exactly which lists of writes are delivered.
- The retransmit buffer cannot tell an empty payload from none (`RetransmitSpec.RetransmitExact`).
- The multiplexer may be declared dead while a reader is alive (`DeathNotice.DeadWithLiveReader`); `NoticeTrueExact`
  and `DoomedExact` say exactly in which interleavings.
- An allocation of zero relays sends no final batch (`GradualAllocation.AllocateGradual`, through `Ended` and `Marked`).

## Model

| member | source | states |
|---|---|---|
| Serial.LessIsDistance | internal/mux/protocol.go:142 | on numbers less than half a turn ahead of a cursor, circular comparison is the strict total order of the distances |
| Serial.LessExact | internal/mux/protocol.go:171 | for all unbounded indices, exactly when comparing the wrapped numbers gives the true order; always inside the window of half a turn each way |
| Serial.After16Exact | internal/provider/telemost/rtpconn.go:587-589 | indices less than 2^15 apart compare as their wrapped numbers do |
| ReorderSpec.InsertKeepsValid | internal/mux/protocol.go:169-202 | every insertion keeps the held numbers strictly ahead of the cursor within half a turn, and the timer set exactly while something is held |
| ReorderSpec.DrainKeepsWindow | internal/mux/protocol.go:187-194 | what a drain leaves lies strictly ahead of the new cursor and was held before |
| ReorderSpec.NearestOrder | internal/mux/protocol.go:220-235 | the flush order lists every held number once, at strictly increasing distance |
| ReorderSpec.IncreasingUnique | internal/mux/protocol.go:224-226 | sorting by circular comparison has only one possible result |
| ReorderSpec.GapTimerMeaning | internal/mux/protocol.go:182-199 | the timer holds the moment at which the buffer last became non-empty |
| GapTimer.TimerOutlivesItsGap | internal/mux/protocol.go:210-216 | an input on which the timer exceeds five seconds though the only gap is two seconds old |
| GapTimer.DrainRest | internal/mux/protocol.go:187-194 | a drain removes exactly the numbers all of whose predecessors from the cursor on are held |
| GapTimer.GapTimerExact | internal/mux/protocol.go:157 | from a state in which the timer is the arrival of the oldest held chunk, it stays so if and only if the insertion does not release every opener of the gap while leaving another chunk behind |
| GapTimer.GapTimerRuns | internal/mux/protocol.go:157 | over every run of insertions from an empty buffer: the timer is the arrival of the oldest held chunk at every point if and only if no insertion meets that guard |
| ReorderHeap.RootIsLeast | internal/mux/protocol.go:137-151 | the root of the heap is the nearest entry |
| ReorderHeap.Push | internal/mux/protocol.go:180 | sifting up adds exactly the entry and restores heap order |
| ReorderHeap.SiftDown | internal/mux/protocol.go:190 | sifting down permutes the entries and restores heap order |
| ReorderHeap.Pop | internal/mux/protocol.go:190 | removes exactly the old root and restores heap order |
| ReorderBuffers.RootIsCursor | internal/mux/protocol.go:189 | the root carries the cursor exactly when the cursor's chunk is held, so the loop test is complete |
| ReorderBuffers.RepFacts | internal/mux/protocol.go:154-159 | heap, seen-set and map have the same members and the same size |
| ReorderBuffers.SortedIsFlush | internal/mux/protocol.go:224-230 | any sorted arrangement of the heap is the flush order of the map it stands for |
| ReorderBuffers.PopCursor | internal/mux/protocol.go:190-193 | a root that carries the cursor is the cursor's chunk, and popping it keeps heap, seen-set and map in step |
| ReorderBuffers.FlushRun | internal/mux/protocol.go:187-194 | the pop loop computes the drain of the map and keeps heap and seen-set in step |
| ReorderBuffers.Accept | internal/mux/protocol.go:179-201 | push, timer, flush loop and timer reset together compute the specified insertion |
| ReorderBuffers.ReorderBuffer.Insert | internal/mux/protocol.go:169-202 | on the program's state, insertion refines the specified one, duplicates included |
| ReorderBuffers.ReorderBuffer.Len | internal/mux/protocol.go:205 | the heap size is the number of chunks held |
| ReorderBuffers.ReorderBuffer.Overflowed | internal/mux/protocol.go:208 | true exactly when more than 4096 chunks are held |
| ReorderBuffers.ReorderBuffer.GapTimedOut | internal/mux/protocol.go:211-216 | true exactly when something is held and the timer is older than the limit |
| ReorderBuffers.ReorderBuffer.FlushAll | internal/mux/protocol.go:220-235 | returns everything held in sequence order and empties the buffer, cursor unchanged |
| ReorderRefinement.DrainTracks | internal/mux/protocol.go:187-194 | a drain emits exactly the chunks from the cursor index to the least index not received |
| ReorderRefinement.InsertTracks | internal/mux/protocol.go:169-202 | over unbounded indices: one arrival enlarges the received set by its index and emits exactly the growth of the contiguous prefix, whatever the wraps |
| ReorderRefinement.TracksMoreChunks | internal/mux/mux.go:1327 | numbering further chunks does not disturb the receiver |
| StripeSending.CutFlattens | internal/mux/mux.go:1318-1322 | the pieces of a write put together are the write |
| StripeSending.Cut | internal/mux/mux.go:1318-1322 | no piece is empty, and all but the last are as long as a frame allows |
| StripeSending.PayloadParts | internal/mux/mux.go:1326-1328 | number and data are read back from a frame payload |
| StripeSending.SendChunkKeeps | internal/mux/mux.go:1327-1365 | sending a chunk keeps: each ring holds the newest 128 of the frames handed to its connection, and the accepted bytes are exactly those of the chunks sent, in order |
| StripeSending.NewestIsAll | internal/mux/protocol.go:98-104 | the newest 128 are all if and only if there are no more |
| StripeSending.SendAllKeeps | internal/mux/mux.go:1309-1402 | so does a whole write, wherever it stops |
| StripeSending.SendAllHands | internal/mux/mux.go:1341-1365 | a write hands each chunk, under the next number, to the connection found for it and to no other |
| StripeSending.SendAllComplete | internal/mux/mux.go:1309-1402 | with a connection for every piece a write numbers exactly its pieces and accepts all its bytes |
| StripeSending.SentPrefix | internal/mux/mux.go:1347-1352 | the chunks before the first unsent number are a prefix of the accepted bytes, and all of them if and only if no later chunk was sent |
| StripeWriters.AcceptedPrefix | internal/mux/mux.go:1347-1352 | what a write accepts is a prefix of its argument, all of it with enough connections |
| StripeWriters.RingsMatchSend | internal/mux/mux.go:1363-1365 | the frames in the rings are the encodings of the chunks the model records |
| StripeWriters.StripeWriter.SendOne | internal/mux/mux.go:1324-1365 | one chunk: number taken first, frame built, ring of the chosen connection and of no other extended |
| StripeWriters.StripeWriter.SendNext | internal/mux/mux.go:1318-1399 | one turn of the loop: the next piece under the next number, its frame, and the bytes taken |
| StripeWriters.StripeWriter.SendPieces | internal/mux/mux.go:1318-1401 | the loop sends the pieces of the argument in order; the count returned is the number of bytes accepted; the frames that leave are the encodings of exactly the numbers taken, but for one that found no connection |
| StripeWriters.StripeWriter.Write | internal/mux/mux.go:1309-1402 | refused when closed; otherwise the loop, without error exactly when there was a connection for every piece, with the frames that leave |
| StripeWriters.StripeWriter.Drain | internal/mux/mux.go:925-927 | what a dead connection resends is the encodings of the chunks its ring held, in order |
| StripeReaders.Offer | internal/mux/mux.go:1148-1154 | the flushed chunks that the channel takes, in order |
| StripeReaders.StripeReader.CloseStream | internal/mux/mux.go:1139-1157 | only the first close counts; what is held is flushed in order |
| StripeReaders.StripeReader.Dispatch | internal/mux/mux.go:1106-1137 | insertion, delivery, limit check, deferred close |
| StripeReaders.StripeReader.OnData | internal/mux/mux.go:1261-1269 | data for a stream not in the table is set aside |
| StripeReaders.StripeReader.OnOpen | internal/mux/mux.go:1253-1258 | opening replays what was set aside, in order of arrival |
| StripeReaders.StripeReader.OnClose | internal/mux/mux.go:1096-1102 | a close waits for the buffer to drain |
| StripeReaders.StripeReader.OnConnDeath | internal/mux/mux.go:943-953 | the death of a connection closes a stream whose timer has run out |
| StripedSystem.FlushTracks | internal/mux/protocol.go:220-235 | a flush emits received chunks beyond the prefix, by increasing index |
| StripedSystem.DispatchKeeps | internal/mux/mux.go:1106-1137 | dispatching the frame of an index keeps the receiver's invariant for the enlarged set |
| StripedSystem.StepKeeps | internal/mux/mux.go:1080-1137 | every write, connection death, arrival, open, close and local close keeps the invariant of the whole system |
| StripedSystem.RunInv | internal/mux/mux.go:1080-1137 | hence it holds at every point of every run |
| StripedSystem.DeliveredIsPrefix | internal/mux/mux.go:1309-1402 | end to end, for every run with loss, reordering, duplication by replay and frames ahead of the open frame: delivered are exactly the chunks below the least index not received, a prefix of the bytes accepted |
| StripedSystem.PeerCloseAddsNothing | internal/mux/mux.go:1096-1102 | a close by the peer adds no bytes, and leaves nothing received undelivered |
| StripedSystem.LiveIsPrompt | internal/mux/mux.go:1123-1136 | at every point of every run a live stream holds at most 4096 chunks, and something if a close is pending: a deferred close takes effect in the dispatch that drains the buffer |
| StripedSystem.CloseTakesEffect | internal/mux/mux.go:1096-1136 | from the arrival of a close frame on, in every run the stream is live only while something is held |
| StripedSystem.ClosedOnlyIfAsked | internal/mux/mux.go:1096-1136 | in no run is a stream closed at the peer's wish before a close frame has arrived |
| StripedSystem.LimitsEnforced | internal/mux/mux.go:1123-1131 | in every run a dispatch closes a live stream for its limits if and only if more than 4096 chunks are held or the timer has run out; so does the death of a connection, for the timer |
| StripedSystem.LimitCloseAddsLaterChunks | internal/mux/mux.go:1123-1131 | a close by overflow or timer adds only later chunks, by increasing index, each at most once |
| StripeReceiving.KeptTaken | internal/mux/mux.go:1148-1154 | a flushed chunk that the channel takes is delivered |
| StripedSystem.ClosingLosesNothing | internal/mux/mux.go:1147-1155 | in every run, if the channel takes everything, a close for the limits delivers every chunk received beyond the prefix |
| StripedSystem.OnceClosed | internal/mux/mux.go:1139-1142 | in every run a closed stream stays closed and delivers nothing more |
| StripedSystem.LocalCloseEnds | internal/mux/mux.go:1426-1435 | a local close ends a live stream at once, with what has been delivered |
| StripedSystem.HandedExact | internal/mux/mux.go:1341-1365 | in every run what was handed to a connection is what fell to it in the writes since its last death |
| StripedSystem.ReplayExact | internal/mux/mux.go:925-941 | at every death of a connection in every run, what is resent is the newest 128 of the frames that the writes since its last death gave it, in order: all of them if and only if there were at most 128 |
| StripedSystem.OrphanStopsDelivery | internal/mux/mux.go:1327-1352 | delivery never passes a number taken by a write that found no connection |
| StripedSystem.AllDeliveredExactly | internal/mux/mux.go:1327-1352 | at every point of every run at which every chunk sent has been dispatched, all accepted bytes are delivered if and only if nothing was sent after a number that found no connection |
| StripedSystem.StalledRun | internal/mux/mux.go:1327-1352 | a run in which a byte is accepted, its chunk arrives and it is never delivered |
| FrameCodec.ReadEncoded | internal/mux/protocol.go:47-82 | reading an encoded frame followed by anything returns the frame and what follows |
| FrameCodec.ReadExact | internal/mux/protocol.go:47-82 | a frame is read if and only if the stream begins with its encoding |
| FrameCodec.ReadCut | internal/mux/protocol.go:61-82 | a stream that breaks off inside a frame gives an error and no frame |
| FrameCodec.WholeFits | internal/mux/protocol.go:61-82 | how many whole frames a prefix holds: so many fit and one more does not |
| FrameCodec.ReadPrefix | internal/mux/protocol.go:61-82 | any prefix of the wire yields exactly its whole frames, then the right error |
| FrameCodec.ReadWire | internal/mux/protocol.go:47-82 | the whole wire yields exactly the frames |
| WriteBatching.TakeBatch | internal/mux/mux.go:407-433 | a batch is a prefix of the queue of at most 64 frames, below 4096 bytes before its last frame, and stops early only for want of frames |
| WriteBatching.WriteLoop | internal/mux/mux.go:398-471 | however many frames are ready each time and whichever writes fail, the loop goes through the whole queue in batches, each as long as readiness, 64 frames and 4096 bytes allow; a frame is kept if and only if the write of its batch succeeded; the writes that succeed carry exactly the bytes of the frames kept, in order, each once |
| WriteBatching.BatchesReadBack | internal/mux/mux.go:429-466 | however frames were batched and whichever writes failed, the peer reads back exactly the frames of the writes that succeeded |
| RetransmitRings.RingKeepsNewest | internal/mux/protocol.go:98-104 | from empty, the newest 128 pushes are held in order |
| RetransmitRings.RingPushed | internal/mux/protocol.go:98-104 | writing at the write position is a push onto a drop-oldest queue |
| RetransmitRings.RetransmitRing.Push | internal/mux/protocol.go:98-104 | the ring refines the drop-oldest queue |
| RetransmitRings.RetransmitRing.Drain | internal/mux/protocol.go:108-124 | returns the queue oldest first and empties it |
| RawRings.RunConserves | internal/mux/ringbuf.go:33-92 | in every run accepted = popped + evicted + drained + held, what is held is the newest part, and frames come out in order |
| RawRings.RunReturns | internal/mux/ringbuf.go:33-109 | in every run accepted is what was pushed before the close, and popped is what the pops returned, in order |
| RawRings.RawRingBuffer.Push | internal/mux/ringbuf.go:33-59 | an open buffer takes the frame at its end and, only when full, gives up and reports its oldest; a closed one changes nothing |
| RawRings.RawRingBuffer.Pop | internal/mux/ringbuf.go:62-73 | returns the oldest frame and takes it out, or reports that there is none |
| RawRings.RawRingBuffer.Drain | internal/mux/ringbuf.go:82-92 | leaves nothing and counts what was there as drained |
| RawRings.RawRingBuffer.Len | internal/mux/ringbuf.go:95-99 | the length completes the balance of accepted, popped, evicted and drained |
| RawRings.RawRingBuffer.Close | internal/mux/ringbuf.go:102-109 | is the close of the ledger: nothing is accepted afterwards |
| WeightedRounds.RoundKeepsSum | internal/mux/mux.go:542-558 | a selection keeps the sum of the current weights |
| WeightedRounds.RoundKeepsBalance | internal/mux/mux.go:542-558 | participants stay balanced around zero, each above minus the total weight |
| WeightedRounds.RunLedger | internal/mux/mux.go:542-558 | in every run a current weight is its start, plus its weight per selection, minus the total per win |
| WeightedRounds.NeverOneAhead | internal/mux/mux.go:542-558 | from rest, no connection is ever a whole win ahead of its share |
| WeightedRounds.BlockIsFair | internal/mux/mux.go:542-558 | a block of total-weight selections picks each connection exactly its weight and returns to rest |
| WeightedRounds.EveryBlockIsFair | internal/mux/mux.go:542-558 | so does every later block, however long the run |
| ConnSelection.LeastLatency | internal/mux/mux.go:489-502 | the least latency of the live connections, 1 ms standing for unmeasured |
| ConnSelection.LiveWithin | internal/mux/mux.go:505-535 | exactly the live connections within the threshold, in slot order |
| ConnSelection.FilterKeepsLeast | internal/mux/mux.go:523-535 | with a live connection the filter is never empty, so the fallback is unreachable |
| ConnSelection.RaiseListed | internal/mux/mux.go:538-554 | raises each listed connection by its weight, sums the weights and finds the first highest |
| ConnSelection.Charged | internal/mux/mux.go:556-558 | charging the winner completes a weighted round |
| ConnSelection.WeightExact | internal/mux/mux.go:543-547 | a weight is how often the latency, a millisecond if unmeasured, goes into a second, less ten for each error, and 1 exactly when that is below 2 |
| ConnSelection.WeightMonotone | internal/mux/mux.go:543-547 | no slower and with no more errors never means a smaller weight |
| ConnSelection.SelectionsAreFair | internal/mux/mux.go:481-560 | selections under unchanged measurements, from rest: every block of total-weight selections picks each connection exactly its weight |
| ConnSelection.BetterPickedMore | internal/mux/mux.go:481-560 | in every such block a live connection that is no slower and has no more errors is picked at least as often |
| ConnSelection.Scheduler.Select | internal/mux/mux.go:481-560 | none exactly when none is live; otherwise a weighted round among those within three times the least latency |
| Parity.XorAllRestores | internal/provider/telemost/fec.go:161-167 | the exclusive or of all but one, folded into that of all, gives the one |
| Parity.FoldRestores | internal/provider/telemost/fec.go:118-137 | folding all payloads but one into the parity gives the padded missing one |
| Parity.UnpadPadded | internal/provider/telemost/fec.go:139-146 | length prefix and padding are undone, up to 65535 bytes |
| FecDecoding.MissingOne | internal/provider/telemost/fec.go:103-116 | the search finds exactly one position exactly when one member is absent |
| FecDecoding.RecoverExact | internal/provider/telemost/fec.go:98-149 | recovery succeeds if and only if exactly one member is absent, and returns its number and payload |
| FecDecoding.BurstHitsOnce | internal/provider/telemost/fec.go:7-13 | a loss within three consecutive packets hits a group at most once |
| FecDecoding.HealStep | internal/provider/telemost/rtpconn.go:415-438 | handling the parity of a group hit by such a loss completes the group, unaltered |
| FecDecoding.BurstHealed | internal/provider/telemost/fec.go:7-13 | handling the parities of any groups completes them all, if what was lost lies within three consecutive packets |
| FecDecoders.XorIntoArray | internal/provider/telemost/fec.go:161-167 | in-place exclusive or over the common length |
| FecDecoders.FecDecoder.FindMissing | internal/provider/telemost/fec.go:103-116 | none, the one, or more than one |
| FecDecoders.FecDecoder.Recover | internal/provider/telemost/fec.go:98-149 | the array loops compute the specified recovery |
| FecDecoders.FecDecoder.Prune | internal/provider/telemost/fec.go:152-158 | drops exactly what precedes the given number |
| FecEncoding.AddPacketTracks | internal/provider/telemost/fec.go:38-75 | over unbounded indices the groups are chains of one residue class; a packet releases a parity if and only if it is the seventh, fourteenth, ... of its class, and then the parity of the last seven, under the number of the first |
| FecEncoding.CompletesWithinTurn | internal/provider/telemost/fec.go:39-54 | up to the wrap packet n releases a parity if and only if n >= 18 and (n - 18) mod 21 < 3 |
| FecEncoding.MembersExact | internal/provider/telemost/fec.go:38-75 | the members are numbered three apart if and only if the group does not straddle the 16-bit wrap |
| FecEncoding.StraddlingGroup | internal/provider/telemost/fec.go:38-75 | seven consecutive packets across the wrap for which an encoder started at packet 0 releases a parity, the sixth of which is read as a packet of another group |
| FecEncoders.FoldMembers | internal/provider/telemost/fec.go:58-65 | the fold over padded members is their parity |
| FecEncoders.FecEncoder.AddPacket | internal/provider/telemost/fec.go:38-75 | the program's groups compute the specified encoder |
| NackExactness.AdvanceExact | internal/provider/telemost/nack.go:108-111 | the loop ends at the least index not seen |
| NackExactness.RecordExact | internal/provider/telemost/nack.go:84-112 | recording keeps the tracker exact for the enlarged set |
| NackExactness.ResolveExact | internal/provider/telemost/nack.go:115-125 | so does a recovery, which does not raise the highest recorded |
| NackExactness.FirstRecordExact | internal/provider/telemost/nack.go:88-92 | the first record starts it exact |
| NackExactness.PruneExact | internal/provider/telemost/nack.go:170-183 | pruning at or below the expected index removes no gap |
| NackExactness.PruneGapsExact | internal/provider/telemost/nack.go:170-177 | pruning below any index of the window removes exactly the gaps before it |
| NackExactness.RunExact | internal/provider/telemost/nack.go:84-125 | after any records and recoveries within 2^15: the gaps are exactly the unseen indices between first and highest recorded, the expected number is that of the least unseen index |
| NackTrackers.NackTracker.AdvanceExpected | internal/provider/telemost/nack.go:108-111 | terminates, on the size of the received set |
| NackTrackers.NackTracker.AddGaps | internal/provider/telemost/nack.go:97-106 | the wrapping walk adds exactly the numbers of the interval neither received nor known |
| NackTrackers.NackTracker.Record | internal/provider/telemost/nack.go:84-112 | refines the specified step |
| NackTrackers.NackTracker.Resolve | internal/provider/telemost/nack.go:115-125 | refines the specified step |
| NackTrackers.NackTracker.Prune | internal/provider/telemost/nack.go:170-183 | removes exactly what precedes the given number |
| NackTrackers.NackTracker.GetNacks | internal/provider/telemost/nack.go:131-157 | at most 32 distinct due gaps, all of them when fewer; each is marked and none is forgotten |
| NackTiming.DetectedWhenFound | internal/provider/telemost/nack.go:97-106 | a gap is dated when a later number is recorded, and keeps its times as long as it lasts |
| NackTiming.AsksExact | internal/provider/telemost/nack.go:131-157 | over any calls, a gap is asked for exactly when 30 milliseconds have passed since it was detected, and then whenever 100 have passed since the last time |
| RetransmitSpec.StoreKeepsRecent | internal/provider/telemost/nack.go:28-37 | each slot holds the latest index of its residue class, across wraps |
| RetransmitSpec.GetFindsRecent | internal/provider/telemost/nack.go:47-56 | an index among the last 512 is found with its own payload |
| RetransmitSpec.GetFindsOnlyRecent | internal/provider/telemost/nack.go:47-56 | whatever is found is the payload of such an index |
| RetransmitSpec.RetransmitExact | internal/provider/telemost/nack.go:28-56 | after n stores modulo 2^16 a number is found if and only if one of the last 512 indices carries it with a non-empty payload |
| RetransmitBuffers.RetransmitBuffer.Store | internal/provider/telemost/nack.go:28-37 | overwrites the slot of the number |
| RetransmitBuffers.RetransmitBuffer.Get | internal/provider/telemost/nack.go:47-56 | the payload stored under exactly that number, if not empty |
| Chunking.PiecesFlatten | internal/provider/telemost/rtpconn.go:799-806 | the pieces of a write put together are the write |
| Chunking.PacketAt | internal/provider/telemost/rtpconn.go:798-816 | where the chunks of a write lie among all packets |
| Chunking.BaseAtLeast | internal/provider/telemost/rtpconn.go:798-816 | a packet's number is never below its write's number |
| Chunking.WriteOfUnique | internal/provider/telemost/rtpconn.go:798-816 | a packet belongs to one write |
| ReassemblyExactness.ParseChunk | internal/provider/telemost/rtpconn.go:808-813 | the header of a chunk is read back |
| ReassemblyExactness.DeliverExact | internal/provider/telemost/rtpconn.go:300-327 | delivery stops exactly at the first incomplete write, having sent each write before it once and whole |
| ReassemblyExactness.AcceptExact | internal/provider/telemost/rtpconn.go:254-281 | any packet, new or duplicate, of a delivered write or a future one, keeps that, and never indexes out of bounds |
| ReassemblyExactness.PacketsParse | internal/provider/telemost/rtpconn.go:791-825 | every packet sent is read as the chunk it carries |
| ReassemblyExactness.DeliveredArrived | internal/provider/telemost/rtpconn.go:300-327 | every packet below the cursor has been taken |
| ReassemblyLimits.OnlyDeliverableDelivered | internal/provider/telemost/rtpconn.go:317-319 | whatever arrives, no message outside 1 to 280500 bytes is delivered |
| ReassemblyLimits.ChunksReadBack | internal/provider/telemost/rtpconn.go:799-813 | a write has chunks, all read back as what they are, if and only if it has 1 to 280500 bytes |
| ReassemblyLimits.DeliveredAlone | internal/provider/telemost/rtpconn.go:811-812 | of a write of c chunks all of whose packets arrive in order and nothing else, the first c mod 256 chunks are delivered as one message, and nothing if that is none |
| ReassemblyLimits.DeliveredAsWritten | internal/provider/telemost/rtpconn.go:799-813 | so such a write is delivered as written if and only if it has 1 to 280500 bytes |
| ReassemblyLimits.FirstChunkAlone | internal/provider/telemost/rtpconn.go:811-812 | the first chunk of a write of 257 chunks alone is delivered as a message of 1100 bytes that nobody wrote |
| ReassemblyLimits.ListDelivered | internal/provider/telemost/rtpconn.go:247-327 | for any list of writes of fewer than 2^16 packets, all arriving in order: what is delivered is what was written if and only if every write has 1 to 280500 bytes |
| ReassemblyLimits.EmptyWriteBlocks | internal/provider/telemost/rtpconn.go:300-305 | an empty write blocks all that follow it: delivered is exactly what was written before it, though every packet arrives |
| ReassemblyLimits.NothingAfterEmpty | internal/provider/telemost/rtpconn.go:798-800 | an input: an empty write, then any other |
| RtpReceiving.ParseData | internal/provider/telemost/rtpconn.go:821-825 | data packets are read back |
| RtpReceiving.ParseFec | internal/provider/telemost/rtpconn.go:835-840 | parity packets are read back |
| RtpSystem.ParityEffect | internal/provider/telemost/rtpconn.go:415-438 | a parity changes nothing or supplies one packet exactly as sent |
| RtpSystem.StepKeeps | internal/provider/telemost/rtpconn.go:388-438 | every arrival of a packet or parity and every chunk taken keeps the invariant of pool, queue and reassembly |
| RtpSystem.RunInv | internal/provider/telemost/rtpconn.go:388-438 | hence it holds at every point of every run |
| RtpSystem.DeliveredExactly | internal/provider/telemost/rtpconn.go:247-327 | for every run with loss, reordering, duplicates, retransmissions and recoveries: delivered are exactly the writes from the start up to the first that lacks a chunk |
| RtpSystem.NothingFabricated | internal/provider/telemost/rtpconn.go:388-438 | whatever arrives and whatever is pruned, pool and queue hold only what the sender assigned to each number |
| RtpSystem.NeverOutOfBounds | internal/provider/telemost/rtpconn.go:266-279 | taking a chunk never indexes outside its buffer |
| RtpSystem.SenderExists | internal/provider/telemost/rtpconn.go:791-848 | the packets of any admissible list of writes satisfy what the runs assume |
| RtpGaps.CursorNotPast | internal/provider/telemost/rtpconn.go:399-404 | the write cursor never passes the least packet not seen |
| RtpGaps.PruneKeeps | internal/provider/telemost/rtpconn.go:399-404 | pruning packet state with the write cursor removes no gap and keeps the tracker exact |
| RtpGaps.TrackStepKeeps | internal/provider/telemost/rtpconn.go:388-438 | every step keeps the tracker exact |
| RtpGaps.TrackRunInv | internal/provider/telemost/rtpconn.go:388-438 | hence it is exact at every point of every run of at most 2^15 packets |
| RtpGaps.PruneForgetsNothing | internal/provider/telemost/rtpconn.go:399-404 | at every point of every such run the gaps are exactly the unseen packets between first and highest recorded, and pruning removes none |
| RtpGaps.PoolKeepsNeeded | internal/provider/telemost/rtpconn.go:388-438 | at every point of every run of at most 2^15 packets, whatever was pruned, every packet received or recovered from the write cursor on is in the pool |
| RtpGaps.PruneRemoves | internal/provider/telemost/rtpconn.go:399-404 | in every such run every 64th packet number rids pool and tracker of everything below the write cursor |
| RtpSending.SendListInv | internal/provider/telemost/rtpconn.go:800-846 | sending chunks keeps, under any number of wraps: packets sent in order, retransmit buffer recent, encoder on track, one parity for each packet that completes a group |
| RtpSending.WritesInv | internal/provider/telemost/rtpconn.go:791-848 | so do any number of writes |
| RtpSending.WriteAllSends | internal/provider/telemost/rtpconn.go:791-848 | whatever is written, on the wire go exactly the packets of the model, in order |
| RtpSending.RetransmissionFaithful | internal/provider/telemost/rtpconn.go:818-819 | under any number of wraps a number is answered if and only if one of the last 512 packets carries it, and then with that packet |
| RtpSending.FailedWrite | internal/provider/telemost/rtpconn.go:819-830 | a write that fails at chunk j has numbered and kept the chunks up to that one, and the encoder has seen only those before it |
| RtpSending.ReleasesExact | internal/provider/telemost/rtpconn.go:832-834 | the packets that complete a group, each listed once, in order |
| RtpSending.ParitiesAreChains | internal/provider/telemost/rtpconn.go:832-845 | under any number of wraps the parities sent are exactly one for each packet that completes a group, in order, each that of the last seven packets of the group |
| RtpSending.StartsExact | internal/provider/telemost/rtpconn.go:832-845 | up to the wrap the groups sent whole are exactly those that begin at f with f mod 21 < 3 and f + 18 sent |
| RtpSending.ParitiesAreGroups | internal/provider/telemost/rtpconn.go:832-845 | up to the wrap the parities sent are exactly those of these groups, in order: parities that the receiver's runs admit |
| RtpSending.BurstRecovered | internal/provider/telemost/fec.go:7-13 | end to end up to the wrap: if all packets arrive but some within three consecutive ones, handling the parities sent puts every packet of a group sent whole into the pool, as sent |
| Reassemblers.Join | internal/provider/telemost/rtpconn.go:306-313 | concatenates the chunks |
| Reassemblers.Reassembler.DeliverReady | internal/provider/telemost/rtpconn.go:300-327 | refines the specified delivery; terminates |
| Reassemblers.Reassembler.Accept | internal/provider/telemost/rtpconn.go:254-281 | refines the specified acceptance of a chunk |
| RtpReceivers.RtpReceiver.HandleData | internal/provider/telemost/rtpconn.go:388-411 | pool, tracker, pruning every 64th number, queue |
| RtpReceivers.RtpReceiver.HandleFec | internal/provider/telemost/rtpconn.go:415-438 | recovery, then tracker, pool and queue |
| RtpReceivers.RtpReceiver.Handle | internal/provider/telemost/rtpconn.go:369-381 | dispatch on the packet type |
| RtpReceivers.RtpReceiver.TakeChunk | internal/provider/telemost/rtpconn.go:247-281 | one chunk from the queue to reassembly |
| RtpSenders.RtpSender.SendChunk | internal/provider/telemost/rtpconn.go:815-845 | number, keep, send, encode; the encoder does not see a packet whose sending failed |
| RtpSenders.RtpSender.SendUpTo | internal/provider/telemost/rtpconn.go:800-846 | stops at the chunk whose sending fails |
| RtpSenders.RtpSender.Write | internal/provider/telemost/rtpconn.go:791-848 | one write number, its chunks in order; the count returned on failure is the offset of the failed chunk |
| Vp8.TagFields | internal/provider/telemost/rtpconn.go:938-941 | the frame tag read as in section 9.1 of RFC 6386 gives key frame, version 0, shown, and the size modulo 2^19 |
| Vp8.HeaderInClear | internal/provider/telemost/rtpconn.go:938-960 | tag, start code and the size of 320 by 240 stand unmasked at the head of every frame |
| Vp8.MaskTwice | internal/provider/telemost/rtpconn.go:929-934 | masking twice restores the frame |
| Vp8.RoundTrip | internal/provider/telemost/rtpconn.go:937-1011 | for every payload up to 65535 bytes and every key, extracting a built frame returns the payload |
| Vp8.RoundTripExact | internal/provider/telemost/rtpconn.go:962-964 | and for no longer one |
| Vp8.BuiltSize | internal/provider/telemost/rtpconn.go:948-956 | a frame has at least 1024 bytes |
| Vp8.Mask | internal/provider/telemost/rtpconn.go:929-934 | in place, from offset 10 |
| Vp8.BuildFrame | internal/provider/telemost/rtpconn.go:937-974 | the array built is the specified frame |
| Vp8.ExtractData | internal/provider/telemost/rtpconn.go:978-1011 | extraction after unmasking in place |
| DeathNotice.RunInv | internal/mux/mux.go:341-344 | in every interleaving, with both counters zero after a decrement, the notice is given or some thread is on its way to give it |
| DeathNotice.NoLostNotice | internal/mux/mux.go:956-969 | once no thread is between decrement and check, it has been given |
| DeathNotice.ThreadsGetThrough | internal/mux/mux.go:341-344 | such threads get through, in at most two steps of their own each |
| DeathNotice.BracketHolds | internal/mux/mux.go:956-957 | in every interleaving an open reconnect bracket holds the notice back |
| DeathNotice.ReaderHolds | internal/mux/mux.go:341 | so does a live reader |
| DeathNotice.NothingBeforeFirst | internal/mux/mux.go:341 | nothing is given or decided before anything has been decremented |
| DeathNotice.DeadWithLiveReader | internal/mux/mux.go:341-344 | an interleaving in which it is given while a reader is alive |
| DeathNotice.NoticeTrueExact | internal/mux/mux.go:341-344 | in every interleaving the notice is true at every point if and only if no step closes beside a live reader or starts one after the notice |
| DeathNotice.DoomedMeaning | internal/mux/mux.go:341-344 | what it means that a false notice is given or about to be |
| DeathNotice.DoomedExact | internal/mux/mux.go:956-969 | in every interleaving that is never so if and only if no reader starts once a decision to close stands and none is alive when a leaving reader's look decides |
| CloseOnce.ExactlyOnce | internal/mux/mux.go:1426-1435 | for any number of closes from either side in any interleaving, the done channel is closed once and the stream count lowered once |
| ReconnectLoop.ReconnectSlot | internal/client/reconnect.go:158-203 | every exit closes the bracket and declares death exactly when no reader is left at that moment and no other reconnect is under way; the attempts counted are those made, all failed but a last success; it gives up at the first attempt from the fifth on made in normal mode; stopping means cancellation or dead signaling |
| ReconnectLoop.ReconnectAll | internal/client/reconnect.go:158-203 | brackets stay balanced over all slots, and all slots are tried unless it gives up or must stop |
| ReconnectLoop.Run | internal/client/reconnect.go:113-205 | every exit of the loop leaves the counter as it was; every turn tries to bring back as many connections as are missing, or until it gives up; it exits only on cancellation or dead signaling |
| GradualAllocation.ReportPlaced | internal/turn/manager.go:496-529 | a report moves its index to exactly one place |
| GradualAllocation.ReportBounded | internal/turn/manager.go:510-520 | an index is given up only for six failures; failures and successes fit in six for each index |
| GradualAllocation.DelayRule | internal/turn/manager.go:499-508 | whatever the order of reports, code 14 sets the maximum delay and codes 9 and 29 ask for doubling |
| GradualAllocation.CollectBatch | internal/turn/manager.go:493-529 | the reports of a batch, in any order, give the specified tally and keep the accounts of all reports so far |
| GradualAllocation.RunBatch | internal/turn/manager.go:470-539 | one batch is the specified one (items out of the queue, retries at its end, allocations, indices given up) and keeps the accounts; the delay follows the rule, never falls, and stays within five minutes |
| GradualAllocation.OneRound | internal/turn/manager.go:469-557 | one turn ends the run exactly when it sees that it is cancelled |
| GradualAllocation.AllocateGradual | internal/turn/manager.go:450-563 | the batches run and sent are exactly those that the reports determine, until a look shows cancellation or nothing is waiting; created + waiting + given up = n, each index in one place; the reports are at most 6n and those of rate limits; an uncancelled run with n > 0 marks its last batch and no other as final and sends out all it created |
| GradualAllocation.BatchTriesFront | internal/turn/manager.go:470-529 | a batch tries as many items as it may from the front of the queue; the index of each is allocated, given up or put back, and no other |
| GradualAllocation.WaitsItsTurn | internal/turn/manager.go:474-531 | in every run the queue is first in, first out: every batch moves each waiting item up by its size, and what is put back goes behind |
| GradualAllocation.FirstPass | internal/turn/manager.go:463-531 | no index is tried a second time before every index has been tried once |
| GradualAllocation.CountsTotal | internal/turn/manager.go:496-529 | every report counts as a success, a failure or a rate limit |
| GradualAllocation.PlacedMeaning | internal/turn/manager.go:463-531 | no index is allocated twice, nor both allocated and given up |

## Left out

- Streams that are not striped, `Stream.Read` and the table of streams: one stream at a time, up to its receive channel; they would add easy members only.
- Calls of closeStream from RemoveConn, and local closes, in the middle of a dispatch: dispatch is one actor, and such calls happen between its steps.
- The fallback to other connections when a write channel is full (internal/mux/mux.go:1367-1388): a frame may travel over any connection or be lost, whichever it was given to.
- `container/heap` and `sort.Slice`: modelled by sifting and insertion written out here; the proofs use only their contracts.
- ConnSelection.Scheduler.Select: does not model overflow of 64-bit weights.
- StripeWriters.StripeWriter.Write: leaves out the frame header around the payload, which is modelled in FrameCodec.
- RawRings.RawRingBuffer.Push: capacity zero is excluded, because the program then indexes an empty slice.
- The notification channel of the raw ring, and closing it twice.
- Reset to a new peer, SSRC locking in HandleTrack, the stall timeout, NACK packets on the wire, pacing and `RTPConn.Read`: the model of the receiver ends at the ordered channel.
- RtpSystem.DeliveredExactly: claims nothing from 2^16 packets on, where numbers repeat and a late duplicate of a delivered write can be taken for a later one.
- WriteBatching.WriteLoop: a write carries its batch whole or not at all; a connection that accepts part of a buffer and then fails is not modelled.
- FecDecoding.BurstHealed: claims nothing after pruning, which may remove members that a later parity needs.
- ReconnectLoop.Run: other threads enter only through the reader count seen at each look; their interleavings with the counters are in DeathNotice.
- GradualAllocation.AllocateGradual: the immediate retries inside one attempt (internal/turn/manager.go:422-444) and the relay itself are one outcome.
- Encryption, authentication and key derivation, adaptive striping, latency averages, signalling, TURN, DTLS and WebRTC sessions, proxies and user interfaces.
