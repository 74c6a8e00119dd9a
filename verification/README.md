# libsponge in Dafny

A model of libsponge, a user-space TCP/IP stack, and proofs about it. Three groups of components are modelled.

* The reliable byte stream: `wrap`/`unwrap`, `ByteStream`, `StreamReassembler`, `TCPReceiver`, `TCPSender` and
  `TCPConnection`, and one sender and one receiver joined by a network that loses, duplicates and reorders.
* The link and network layer: the ARP table and queue of `NetworkInterface`, and `Router`.
* The wire format: `InternetChecksum`, `NetParser`/`NetUnparser`, and TCP headers and segments.

Each stateful component comes in three parts. A specification on values (`ReassemblerSpec`, `ReceiverSpec`,
`SenderSpec`, `ConnectionSpec`, `InterfaceSpec`, `RouterSpec`) gives the state and one step function per event, with
absolute sequence numbers and byte maps in place of wrapped numbers and interval lists. A class with the program's own
fields and loops is proved to take exactly those steps: its `View()` after a method is the step of its `View()` before.
Laws about every run of the specification are then lemmas, by induction over sequences of events. `dafny verify
dfyconfig.toml` checks everything.

## What is proved

* **End-to-end safety.** In every run over the network, what the receiver has written is a prefix of what was written
  into the sender (`EndToEnd.PrefixSafety`). With acknowledgments that come from the receiver, a segment is dropped by
  the sender only after its bytes have been delivered (`EndToEnd.AckSafety`), and no acknowledgment ends inside a
  segment (`WholeSegments.NoPartialAcks`).
* **Reassembly.** For arbitrary input the interval list behaves as a byte map in which the first write of an index wins
  (`ReassemblerSpec.PushExact`, `Reassembler.StreamReassembler.PushSubstring`). For slices of one stream the output ends
  exactly when it is complete, and order, overlap and duplication do not matter.
* **The sender.** Segments in flight tile the unacknowledged range and carry the right slices of the stream; the offered
  windows are respected over whole runs, with the exact exceptions, and an offer that comes with progress is used up
  (`SenderWindow.OfferUsed`); the sender cannot stall; the timer backs off exponentially, and the oldest segment goes
  out again at the very tick that completes the timeout.
* **The outbound queue.** Over whole runs every segment the sender queues goes out once, in order and unchanged, and
  acknowledges what has been put out once a SYN has come in (`OutboundLaws.EverythingGoesOut`,
  `OutboundLaws.AllAcknowledge`); what occupies sequence numbers is answered.
* **Closing.** A connection that closes cleanly has read everything and had its own FIN acknowledged, and lingers when
  it has to. Conversely, one that is done does go inactive, at the segment or the tick at which it should
  (`ClosingLaws`).
* **ARP.** Datagrams are neither lost, duplicated nor reordered per next hop; requests are spaced; addresses are fresh.
  Every request for the interface's address is answered, in order, and nothing else is (`InterfaceAnswers.RunReplies`);
  a datagram is sent, or its hop asked for, exactly when the events so far call for it (`InterfaceAnswers.SendExactly`).
* **Routing.** The halving and doubling probe is longest-prefix match, and the longest match decides port and next hop
  (`RouterSpec.RouteDecided`); routing a queue sends each datagram at most once with only its TTL changed, and together
  with ARP loses nothing; in any network of routers forwarding stops.
* **Codec.** A serialized segment parses back, for every pseudo-checksum and every length, and both directions use the
  same layout (`WireLayout`).

## Where the code and its promises differ

In these places a lemma shows an input where the promise fails, and another gives the exact condition under which it
holds. The model follows the code in all of them but the last.

* `unwrap` is documented to return the number nearest to the checkpoint. It does so unless the nearest number lies
  beyond the 64-bit range (`Wrapping.UnwrapNearest`); `Wrapping.UnwrapFails` is an input where it does not.
* `TCPReceiver` ends its stream when a FIN has been seen and nothing is staged, which can happen while a byte is
  missing. In the run of `EndToEnd.FinOvertakesData` the sender sees a byte acknowledged, and drops it, that the
  receiver has not got. `ReceiverSpec.EndsExactly` says for every segment when the output is ended,
  `EndToEnd.EndsEarlyExactly` and `EndsEarlyOverRuns` when it is ended early. `EndToEnd.GaplessAckSafety` says that in
  all other runs every acknowledgment is true. A SYN with FIN and more data than fits is acknowledged in full
  (`ReceiverLaws.SynCarriesData`).
* Nothing is meant to be written to a stream that has ended. An output that was ended early still grows when the missing
  byte arrives: `EndToEnd.LateByteWritten` goes on with the run above, `ReceiverSpec.EndedStillGrows` is the exact law.
* A segment without SYN at the initial sequence number gets stream index 2^64 - 1. If it carries a FIN it can end the
  output anywhere and drop what is staged: `ReceiverSpec.FinAtInitialExample` does, and `FinAtInitialNumber` says when.
* A FIN is not meant to exceed the window (tests/send_extra.cc:236). The code compares with the whole remaining window,
  so it can, by one number: `FinOverrun.FinPastWindow` is such a run, `FinOverrun.FillOverruns` says when `fill_window`
  does this, and `FinOverrun.PastOfferExactly` when it passes everything offered in a run.
* A stream accepts writes after its end. `SenderInvariant.WriteKeeps` says that this breaks the sender exactly when the
  FIN has already been sent; in `FinOverrun.ByteAfterFin` the byte gets the number of the FIN.
* A route whose prefix has bits below its length never matches: `RouterSpec.NonCanonicalExample` is the route that
  apps/network_simulator.cc:232 adds. `RouterSpec.ProbeExact` gives the tables for which the router is right.
* `TCPSegment::parse` drops the verdict of the header parser, so a header that claims to be shorter than twenty bytes is
  accepted (`TcpCodec.ShortHeaderAccepted`); `TcpCodec.AcceptedExactly` says which packets are. `TCPHeader::serialize`
  keeps four bits of a data offset that may be larger (`TcpCodec.WideOffsetLost` is such a segment,
  `TcpCodec.RoundTrip` the exact condition).
* `ack_received` compares an acknowledgment that retires nothing with the oldest tracked segment as plain 32-bit
  numbers. `RawComparison.RecomputesExactly` says in absolute numbers when the remaining window follows the offered one;
  in `RawComparison.WrapChangesOutcome` this depends on nothing but the initial sequence number.
* With no capacity and nothing assembled, the unsigned `capacity - 1` makes the window everything
  (`Reassembler.MaxIndexExact`). Here the specification does not follow the code: its window is then empty, and runs are
  about capacities of at least 1.

## Assumptions

* Nothing is written to a sender's stream once its FIN is out.
* The capacity of a reassembler, receiver or connection is at least 1 (`Words.Capacity`).
* Stream lengths plus a window stay below 2^64 where 64-bit counters are used. The interface's clock is unbounded.
* The event loop ticks a connection only while it is active (libsponge/tcp_helpers/tcp_sponge_socket.cc:33-38).
* In the network model a segment is delivered while it is less than 2^31 away from the receiver's count. For genuine
  acknowledgments and segments this is only asked of old duplicates; that new ones are near is proved.

## Model

| member | source | states |
|---|---|---|
| Wrapping.AddSeqnoWraps | libsponge/wrapping_integers.hh:59 | adding to a wrapped number is wrapping the sum |
| Wrapping.UnwrapWraps | libsponge/wrapping_integers.cc:34-62 | the result of unwrapping always wraps back to the number it came from, overflow included |
| Wrapping.UnwrapNearest | libsponge/wrapping_integers.cc:34-62 | the result is nearest to the checkpoint among all numbers with the same wrapped form, if and only if the nearest is not beyond the 64-bit range |
| Wrapping.UnwrapFails | libsponge/wrapping_integers.cc:55-58 | just below 2^64 the nearest number is 2^64, at distance 1, and 0 is returned |
| Wrapping.UnwrapTie | libsponge/wrapping_integers.cc:48-61 | when two candidates are equally near, the one in the checkpoint's own block of 2^32 is taken |
| Wrapping.UnwrapDistance | libsponge/wrapping_integers.cc:45-61 | away from the top the result is within 2^31 of the checkpoint, or in the first block where nothing lies below |
| Wrapping.RoundTrip | libsponge/wrapping_integers.cc:16-62 | wrapping then unwrapping gives the number back whenever it is less than 2^31 from the checkpoint, for the whole 64-bit range |
| ByteStreams.Written | libsponge/byte_stream.cc:17-22 | a write appends a prefix of the data: all of it exactly when it fits, otherwise until the stream is full |
| ByteStreams.ByteStream.constructor | libsponge/byte_stream.cc:15 | a new stream is empty, open and has the given capacity |
| ByteStreams.ByteStream.Write | libsponge/byte_stream.cc:17-22 | the stream's history grows by what was accepted and the count of accepted bytes is returned |
| ByteStreams.ByteStream.PeekOutput | libsponge/byte_stream.cc:25-31 | the next bytes in writing order, or nothing when fewer are buffered |
| ByteStreams.ByteStream.PopOutput | libsponge/byte_stream.cc:34-41 | the reading position advances, or the error flag is set when too much is asked for |
| ByteStreams.ByteStream.Read | libsponge/byte_stream.cc:46-54 | what is returned is what a peek would show, and it is consumed |
| ByteStreams.ByteStream.EndInput | libsponge/byte_stream.cc:56 | marks the end and changes nothing else |
| ByteStreams.ByteStream.Eof | libsponge/byte_stream.cc:64 | at the end exactly when input has ended and everything written has been read |
| ByteStreams.ByteStream.BytesRead | libsponge/byte_stream.cc:66-68 | the reading position in the stream's history |
| ByteStreams.ByteStream.RemainingCapacity | libsponge/byte_stream.cc:70 | the capacity minus the bytes written and not read |
| ByteStreams.ReadsInOrder | libsponge/byte_stream.cc:15-56 | over every sequence of writes, reads and ends: all that was accepted is all that was written, what reads have returned is in order the part of it up to the reading position, and the stream fails if and only if a read asked for more than was there |
| ReassemblerSpec.PushExact | libsponge/stream_reassembler.cc:20-119 | for arbitrary input a push adds exactly the in-window indices not held yet, keeps every byte already held, moves exactly the maximal run from 0 to the output, and leaves the rest staged unless the end was reached |
| ReassemblerSpec.MergedAt | libsponge/stream_reassembler.cc:38-87 | index by index: held after merging iff held before or in the data and the window, and the first write of an index wins |
| ReassemblerSpec.HeldKept | libsponge/stream_reassembler.cc:38-119 | a byte once held is never changed, and disappears only beyond the end of an ended stream |
| ReassemblerSpec.PushKeeps | libsponge/stream_reassembler.cc:20-119 | staged bytes stay strictly ahead of the output and inside the window; output only grows and never reopens |
| ReassemblerSpec.RunFits | libsponge/stream_reassembler.cc:96 | whatever is drained is accepted by the output in full, so the assembled index is the number of bytes written |
| ReassemblerSpec.RunStagedAhead | libsponge/stream_reassembler.cc:20-119 | over every run of pushes and reads staged bytes are ahead of the output and inside the window |
| ReassemblerSpec.CapacityRespected | libsponge/stream_reassembler.cc:40-103 | over every run staged plus buffered bytes never exceed the capacity |
| ReassemblerSpec.EndedExactlyWhenComplete | libsponge/stream_reassembler.cc:24-36 | for pushes that are slices of one stream the output is a prefix of it and has ended iff a final slice was seen and the output is the whole stream |
| ReassemblerSpec.HeldIsCovered | libsponge/stream_reassembler.cc:38-105 | when the stream fits in the capacity, the indices held after any run are exactly those some push covered |
| ReassemblerSpec.OrderIrrelevant | libsponge/stream_reassembler.cc:20-119 | two runs that cover the same indices, in any order and with any overlap and duplication, end in the same output, end flag and staged bytes |
| ReassemblerSpec.CoverAssembles | libsponge/stream_reassembler.cc:20-119 | pushes that cover the stream produce all of it |
| Chunks.InsertContents | libsponge/stream_reassembler.cc:53-60 | inserting an interval between its neighbours keeps the list sorted and disjoint, and adds its bytes and its length |
| Chunks.TotalLengthIsSize | libsponge/stream_reassembler.cc:107 | in a sorted disjoint list the running count of bytes is the number of indices held |
| Placement.PlaceChunk | libsponge/stream_reassembler.cc:48-60 | placing the part of the data in front of an interval extends the placed part of the news without touching the rest |
| Placement.PassChunk | libsponge/stream_reassembler.cc:61-73 | moving past an interval loses no news |
| Reassembler.MaxIndexExact | libsponge/stream_reassembler.cc:40 | the last index of the window is computed right if and only if the window is not empty at index 0, where it comes out as everything |
| Reassembler.StageBounds | libsponge/stream_reassembler.cc:38-40 | the start values of the staging loop describe exactly the new in-window bytes, wrapped end indices included |
| Reassembler.StreamReassembler.constructor | libsponge/stream_reassembler.cc:15 | nothing staged, nothing assembled |
| Reassembler.StreamReassembler.UnassembledBytes | libsponge/stream_reassembler.cc:107 | the number of indices staged |
| Reassembler.StreamReassembler.EofProcess | libsponge/stream_reassembler.cc:111-119 | ends the output and drops what is staged once the end has been reached |
| Reassembler.StreamReassembler.Stage | libsponge/stream_reassembler.cc:38-87 | the loop over the interval list and the append after it stage exactly the new in-window bytes, and the list stays sorted and disjoint |
| Reassembler.StreamReassembler.DrainStaged | libsponge/stream_reassembler.cc:89-103 | the loop moves exactly the maximal contiguous run to the output |
| Reassembler.StreamReassembler.PushSubstring | libsponge/stream_reassembler.cc:20-105 | the interval-list algorithm refines the byte map, wrapped indices included |
| ReceiverSpec.ReceivedOk | libsponge/tcp_receiver.cc:13-46 | any segment, in any state, keeps the receiver consistent and its output growing |
| ReceiverSpec.RunWithinCapacity | libsponge/tcp_receiver.cc:62-64 | over every run of segments and reads the advertised window is at most the capacity and has room for everything staged |
| ReceiverSpec.RightEdgeMonotone | libsponge/tcp_receiver.cc:48-64 | over every run of segments and reads the absolute acknowledgment plus the window never moves left |
| ReceiverSpec.EndsExactly | libsponge/tcp_receiver.cc:13-46 | for every segment: the output is ended if and only if the segment is taken in, a FIN has been seen, and the believed end is reached or nothing is known beyond the first missing byte |
| ReceiverSpec.RunEndsExactly | libsponge/tcp_receiver.cc:13-46 | the same in every state reachable by segments and reads |
| ReceiverSpec.EndedStillGrows | libsponge/tcp_receiver.cc:36 | an output that has ended stays ended, and grows if and only if the segment is taken in and the first missing byte is then known |
| ReceiverSpec.IndexOfInitialNumber | libsponge/tcp_receiver.cc:33-36 | a segment without SYN at the initial number gets index 2^64 - 1 if and only if at most 2^31 bytes have been assembled |
| ReceiverSpec.FinAtInitialNumber | libsponge/tcp_receiver.cc:33-45 | a FIN without SYN at the initial number ends the output where it stands, and drops what is staged, if and only if its payload has 1 to assembled + 1 bytes or nothing is staged |
| ReceiverSpec.FinAtInitialExample | libsponge/tcp_receiver.cc:33-45 | after a SYN and an out-of-order byte, such a FIN ends an empty output and the staged byte is gone |
| ReceiverLaws.SynCarriesData | libsponge/tcp_receiver.cc:17-46 | the data of a SYN starts at index 0: as much as fits is put out, nothing is staged, and SYN, data and FIN are acknowledged together, the FIN even when some data did not fit |
| ReceiverLaws.OneSynOnly | libsponge/tcp_receiver.cc:17-30 | what comes before the SYN, and a second SYN, changes nothing |
| ReceiverLaws.GoesToItsPlace | libsponge/tcp_receiver.cc:33-46 | a later segment near the receiver's count is merged at the absolute number of its first byte, SYN not counted; a FIN sits right behind it |
| ReceiverLaws.InOrder | libsponge/tcp_receiver.cc:33-60 | a segment that continues the output and fits is put out whole and moves the acknowledgment by its length |
| ReceiverLaws.EdgeIsCapacity | libsponge/tcp_receiver.cc:48-64 | the window reaches the capacity beyond what has been read |
| ReceiverLaws.Synchronized | libsponge/tcp_receiver.cc:17-30 | over every run the receiver is synchronized if and only if a SYN has come in |
| ReceiverModule.TCPReceiver.constructor | libsponge/tcp_receiver.hh:32 | nothing received |
| ReceiverModule.TCPReceiver.SegmentReceived | libsponge/tcp_receiver.cc:13-46 | takes the specified step for every segment: ignored, first, repeated SYN, data, FIN; where the data goes is said by ReceiverLaws |
| ReceiverModule.TCPReceiver.AcknoOut | libsponge/tcp_receiver.cc:48-60 | the wrapped form of the first number not received, counting SYN and FIN |
| ReceiverModule.TCPReceiver.WindowOut | libsponge/tcp_receiver.cc:62-64 | the capacity left after what is buffered |
| SenderSpec.FillStepProgress | libsponge/tcp_sender.cc:52-80 | every turn of the loop sends at least one number and decreases unread bytes plus unsent numbers, so the loop terminates |
| SenderSpec.FindEnd | libsponge/tcp_sender.cc:96-109 | finds a tracked segment that ends at the number, and none only if there is none |
| SenderInvariant.StepKeeps | libsponge/tcp_sender.cc:29-148 | every operation keeps the flight and window invariants: segments tile the sequence space without gap or overlap, each payload is its slice of the written stream, at most 65536 numbers are in flight, and an idle sender has room |
| SenderInvariant.WriteKeeps | libsponge/byte_stream.cc:17-22 | a write, even after the end of the stream, keeps the invariants if and only if nothing is accepted after the FIN has been sent |
| SenderInvariant.RunKeeps | libsponge/tcp_sender.cc:29-148 | the invariants hold after every run |
| SenderInvariant.FlightBounds | libsponge/tcp_sender.cc:27 | the count in flight is zero exactly when the tracked list is empty |
| SenderInvariant.InFlightBounds | libsponge/tcp_sender.cc:29-121 | tracked segments lie between the acknowledged and the next number, and the oldest starts at the acknowledged one |
| SenderInvariant.FillLoopKeeps | libsponge/tcp_sender.cc:50-80 | the sending loop keeps the invariants and stops with nothing it could still send |
| SenderInvariant.AckKeeps | libsponge/tcp_sender.cc:87-121 | any acknowledgment, stale, partial or out of range, keeps the invariants; with nothing in flight the remaining window is at least 1 |
| SenderInvariant.PhaseDecided | libsponge/tcp_sender.cc:151-171 | each phase is a fact about what was sent and acknowledged, and the final fall-through is unreachable |
| SenderInvariant.OneSynOneFin | libsponge/tcp_sender.cc:29-83 | among first transmissions the SYN is the first and only the last can be a FIN |
| SenderInvariant.NeverStalls | libsponge/tcp_sender.cc:50-120 | after filling, if data or the FIN is still unsent then something is in flight |
| SenderRuns.WindowRespected | libsponge/tcp_sender.cc:52-79 | after every run, what filling sends ends by the furthest edge an in-range acknowledgment offered, except one number probing a closed window or a FIN right at the edge |
| SenderRuns.RunWithinOffer | libsponge/tcp_sender.cc:91-120 | over every run the window kept by the sender reaches no further than some in-range acknowledgment offered, except for the probe |
| SenderWindow.RetiringAck | libsponge/tcp_sender.cc:91-120 | an acknowledgment at the end of a segment in flight retires all up to there, and the window that remains reaches exactly the offered edge, or one number when the window is closed and nothing is left in flight |
| SenderWindow.IdleAck | libsponge/tcp_sender.cc:91-120 | with nothing in flight a repeated acknowledgment brings the new window, at least 1, and nothing else |
| SenderWindow.OutOfRangeAck | libsponge/tcp_sender.cc:91-120 | an acknowledgment out of range retires nothing and offers nothing |
| SenderWindow.FillUsesWindow | libsponge/tcp_sender.cc:50-80 | with the whole window remaining, bytes or FIN stay unsent only if everything up to the window's edge is out |
| SenderWindow.FillProbes | libsponge/tcp_sender.cc:50-80 | a probe sends exactly one number if there is anything to send |
| SenderWindow.OfferUsed | libsponge/tcp_sender.cc:50-121 | over every run, after an acknowledgment that retires a segment, filling leaves something unsent only if it has reached the edge just offered, or has one number out as a probe |
| SenderWindow.FullSegments | libsponge/tcp_sender.cc:54-58 | in one filling every segment but the last carries 1000 bytes |
| SenderRuns.OnlyFillSends | libsponge/tcp_sender.cc:85-148 | every other operation only repeats the oldest tracked segment or sends one that occupies nothing |
| SenderRuns.BackoffLaw | libsponge/tcp_sender.cc:102-136 | over every run the timer is below the timeout, zero when nothing is in flight, and the timeout is the initial one times two to the number of nonzero-window timeouts since the last retiring acknowledgment, if and only if that product fits in 64 bits |
| SenderRuns.RetransmittedInTime | libsponge/tcp_sender.cc:124-136 | with something in flight and no retiring acknowledgment, the oldest segment, which starts at the acknowledged number, is queued again by the very tick at which the ticks add up to the timeout, whatever else happens meanwhile |
| SenderRuns.RetransmittedInRun | libsponge/tcp_sender.cc:124-136 | the same from any point of any run |
| FinOverrun.SegmentOverruns | libsponge/tcp_sender.cc:54-70 | the next segment ends past the window if and only if the stream has ended, something is in flight, and the buffered bytes fill the room exactly in one segment; then by its FIN alone |
| FinOverrun.FillOverruns | libsponge/tcp_sender.cc:29-83 | a whole `fill_window` sends past the window if and only if the rest of an ended stream fills the room and its last segment is not alone in flight |
| FinOverrun.PastOfferExactly | libsponge/tcp_sender.cc:29-121 | over every run, something is sent past the furthest offered edge if and only if a closed window is probed there or such a FIN overruns it there, and then by one number |
| FinOverrun.FinPastWindow | libsponge/tcp_sender.cc:66 | a run in which a segment with FIN ends at 4 although nothing past 3 was offered |
| FinOverrun.ByteAfterFin | libsponge/byte_stream.cc:17-22 | a run after which one more byte is written and gets the number the FIN already has |
| RawComparison.RecomputesExactly | libsponge/tcp_sender.cc:111-120 | after an in-range acknowledgment that retires nothing, the remaining window becomes the offered one if and only if the number is that of the oldest segment or the 32-bit numbers wrap around in between; otherwise it stays |
| RawComparison.WrapChangesOutcome | libsponge/tcp_sender.cc:113-114 | the same run for every initial sequence number: a partial acknowledgment leaves the remaining window at 10, except from 2^32 - 2, where it becomes 1 |
| SenderModule.AckMatches | libsponge/tcp_sender.cc:97 | comparing wrapped numbers finds exactly the segment whose absolute end is acknowledged |
| SenderModule.FindAcknowledged | libsponge/tcp_sender.cc:95-109 | the loop from newest to oldest stops at the specified segment and adds up exactly what stays in flight |
| SenderModule.TCPSender.constructor | libsponge/tcp_sender.cc:21-25 | nothing sent, a window of one, the initial timeout |
| SenderModule.TCPSender.CurrentState | libsponge/tcp_sender.cc:151-171 | the phase of the specification |
| SenderModule.TCPSender.SendSynSegment | libsponge/tcp_sender.cc:32-45 | the SYN is queued and tracked |
| SenderModule.TCPSender.NextSegment | libsponge/tcp_sender.cc:54-70 | the segment built is the concrete form of the next slice of the stream |
| SenderModule.TCPSender.Fill | libsponge/tcp_sender.cc:29-83 | newest-first list, counters, window and queue together take the specified step |
| SenderModule.TCPSender.AckArrived | libsponge/tcp_sender.cc:87-121 | takes the specified step: retires exactly the segments up to the acknowledged end; what window then remains is said by SenderWindow |
| SenderModule.TCPSender.Resend | libsponge/tcp_sender.cc:129 | what is queued again is the oldest segment in flight |
| SenderModule.TCPSender.TickBy | libsponge/tcp_sender.cc:124-136 | queues the oldest tracked segment and doubles the timeout exactly when the timer runs out |
| SenderModule.TCPSender.SendEmptySegment | libsponge/tcp_sender.cc:140-148 | queues a segment that occupies nothing and is not tracked |
| ConnectionLaws.StepOk | libsponge/tcp_connection.cc:23-110 | every event keeps sender, receiver and the counters consistent, and a FIN once sent stays sent |
| ConnectionLaws.CleanClose | libsponge/tcp_connection.cc:55-139 | after every run, a connection that goes inactive other than by RST or the retransmission limit has read its inbound stream to the end and had its SYN, all its bytes and its FIN acknowledged |
| ConnectionLaws.FinishedIsAcknowledged | libsponge/tcp_connection.cc:132-139 | the test for closing never mentions the FIN, yet implies that it was acknowledged |
| ConnectionLaws.LingerKept | libsponge/tcp_connection.cc:56-59 | a connection that sends its FIN with the linger flag set keeps the flag while active |
| ConnectionLaws.LingerClose | libsponge/tcp_connection.cc:78-99 | such a connection closes cleanly only by a tick, at least ten timeouts after the last segment |
| ConnectionLaws.StepSender | libsponge/tcp_connection.cc:23-110 | what a connection event does to its sender is a sequence of sender events |
| ConnectionLaws.TraceRun | libsponge/tcp_connection.cc:23-110 | so every connection run is a sender run, and every law of the sender holds inside a connection |
| ConnectionLaws.RetransmissionLimit | libsponge/tcp_connection.cc:78-99 | over every run at most nine timeouts follow each other, the timer law holds, and the count the connection tests is the true one |
| OutboundLaws.StepOutbound | libsponge/tcp_connection.cc:23-154 | every event but taking a segment appends to the outbound queue exactly the segments the sender hands over, in order, with their number, flags and payload, each acknowledging what has been received by then; on giving up, one RST |
| OutboundLaws.AllAcknowledge | libsponge/tcp_connection.cc:143-154 | over every run, once a SYN has come in, each appended segment but that RST has ACK set, an ackno that unwraps to the bytes put out plus one, or two after the end, and as window the low 16 bits of the room left |
| OutboundLaws.EverythingGoesOut | libsponge/tcp_connection.cc:143-154 | over every run, the segments the sender has queued are in order those put into the outbound queue followed by those it still holds: none lost, repeated or changed |
| OutboundLaws.FirstInFirstOut | libsponge/tcp_connection.cc:143-154 | over every run, what was taken out followed by what is still queued is what was put in |
| OutboundLaws.Answers | libsponge/tcp_connection.cc:41-53 | a segment that occupies sequence numbers is answered when nothing is waiting to go out, and the answer acknowledges what has been received |
| OutboundLaws.BareAnswer | libsponge/tcp_connection.cc:47-53 | with nothing else to send the answer is one empty segment at the next sequence number |
| OutboundLaws.StaysSilent | libsponge/tcp_connection.cc:34-44 | before it has sent its SYN a connection says nothing to a segment that occupies no sequence numbers |
| OutboundLaws.PassiveOpen | libsponge/tcp_connection.cc:41-46 | a SYN to a new connection is answered by its own SYN, which acknowledges the peer's and what came with it |
| OutboundLaws.GivingUp | libsponge/tcp_connection.cc:87-97 | giving up sends a RST and nothing else, fails both streams and makes the connection inactive |
| ClosingLaws.FinishedExactly | libsponge/tcp_connection.cc:132-139 | the closing test holds if and only if the inbound stream is read to its end with nothing staged, and SYN, bytes and FIN have been sent and acknowledged |
| ClosingLaws.SegmentCloses | libsponge/tcp_connection.cc:23-65 | a segment makes an active connection inactive if and only if it is a RST, or the connection is then done and does not linger |
| ClosingLaws.SegmentLingers | libsponge/tcp_connection.cc:56-59 | the linger flag is dropped if and only if the inbound stream has been read to its end before the FIN is out |
| ClosingLaws.TickClosesExactly | libsponge/tcp_connection.cc:78-99 | a tick makes it inactive if and only if the ninth timeout in a row is reached, or it is done and ten initial timeouts have passed since the last segment |
| ClosingLaws.OthersKeepActive | libsponge/tcp_connection.cc:69-110 | no other event changes whether it is active or lingers |
| ClosingLaws.FinishedCloses | libsponge/tcp_connection.cc:78-99 | a connection that is done goes inactive once ten initial timeouts have passed since the last segment, however the time is cut into ticks, and not before |
| ClosingLaws.ClockExact | libsponge/tcp_connection.cc:23-99 | over every run in which it does not wrap, the clock is the time since the last segment |
| ConnectionModule.TCPConnection.constructor | libsponge/tcp_connection.hh:12-25 | both halves new, active, lingering |
| ConnectionModule.TCPConnection.MoveToSegmentsOut | libsponge/tcp_connection.cc:143-154 | the loop takes the specified step; that every segment goes out once, in order, and with a true acknowledgment and window is said by OutboundLaws |
| ConnectionModule.TCPConnection.Connect | libsponge/tcp_connection.cc:107-110 | fills the window and moves the result out |
| ConnectionModule.TCPConnection.PrereqSatisfied | libsponge/tcp_connection.cc:132-139 | both streams at their end and nothing staged or in flight |
| ConnectionModule.TCPConnection.SegmentReceived | libsponge/tcp_connection.cc:23-65 | receiver, RST, acknowledgment, answer and closing test together take the specified step |
| ConnectionModule.TCPConnection.Write | libsponge/tcp_connection.cc:69-75 | the accepted part is written and sent as far as the window allows |
| ConnectionModule.TCPConnection.EndInputStream | libsponge/tcp_connection.cc:101-105 | the stream is ended and the FIN sent when the window allows |
| ConnectionModule.TCPConnection.Tick | libsponge/tcp_connection.cc:78-99 | retransmission, active close and giving up with a RST together take the specified step |
| EndToEnd.StepSafe | libsponge/tcp_sender.cc:29-136 | every step of sender, network and receiver keeps everything the receiver holds a slice of what was sent |
| EndToEnd.FlightIndex | libsponge/tcp_receiver.cc:33-36 | a segment of the sender is unwrapped by the receiver to the index it really has |
| EndToEnd.PrefixSafety | libsponge/stream_reassembler.cc:20-105 | in every run, with loss, duplication, reordering and arbitrary acknowledgments, the bytes written by the receiver are a prefix of those written to the sender |
| EndToEnd.AckTruthful | libsponge/tcp_receiver.cc:48-60 | the receiver acknowledges only what has arrived if and only if it has not ended its output early |
| EndToEnd.GenuineAck | libsponge/tcp_sender.cc:91 | the sender unwraps a genuine acknowledgment to the number the receiver meant |
| EndToEnd.AckSafety | libsponge/tcp_sender.cc:87-121 | in every run with genuine acknowledgments the acknowledged mark is at most what has arrived, and every segment retired has been delivered byte for byte |
| EndToEnd.EndsEarlyExactly | libsponge/tcp_receiver.cc:42-45 | any delivery makes the receiver end early if and only if it is taken in, a FIN has been seen, a byte is missing, and nothing is known beyond the first missing one |
| EndToEnd.EndsEarlyOverRuns | libsponge/tcp_receiver.cc:42-45 | over every run, the receiver has ended early at some point if and only if some delivery was of this kind |
| EndToEnd.GaplessAckSafety | libsponge/tcp_receiver.cc:48-60 | in every run without such a delivery, nothing being asked of the acknowledgments: all of them are true, every segment retired has been delivered, and an ended output is the whole stream |
| EndToEnd.FinOvertakesData | libsponge/tcp_receiver.cc:42-45 | a legal run in which a FIN overtakes the only byte: the receiver ends with nothing written and its acknowledgment makes the sender drop the byte, of which a copy is still on the wire |
| EndToEnd.LateByteWritten | libsponge/stream_reassembler.cc:96 | that run continued: the byte arrives after all and is written to the ended output |
| WholeSegments.AcksBoundary | libsponge/tcp_receiver.cc:48-60 | a receiver that holds whole segments acknowledges the end of one |
| WholeSegments.StepWhole | libsponge/tcp_sender.cc:52-79 | every step keeps this: each segment is held as a whole or not at all, everything in flight fits in the receiver's window, a probe apart, and no offer exceeds the right edge |
| WholeSegments.NoPartialAcks | libsponge/tcp_sender.cc:96-109 | in every run with genuine acknowledgments and no stop at a gap, each acknowledgment is the end of a segment, so delivering one that is new retires everything up to it |
| TcpStateSummary.SummariesAgree | libsponge/tcp_helpers/tcp_state.cc:94-110 | in every reachable state without a stream error the summary is the sender's own phase, and it says FIN_ACKED exactly when SYN, bytes and FIN are all acknowledged |
| TcpStateSummary.ReceiverProgresses | libsponge/tcp_helpers/tcp_state.cc:82-92 | over every run of segments and reads the summary of the receiver never goes back: LISTEN, SYN_RECV, FIN_RECV, ERROR |
| TcpStateSummary.ReceiverNames | libsponge/tcp_helpers/tcp_state.cc:82-92 | over every run of segments and reads: ERROR if and only if a read asked for too much, otherwise LISTEN if and only if no SYN has come in, and FIN_RECV if and only if the output has ended, which is then acknowledged |
| InterfaceLaws.StepConserves | libsponge/network_interface.cc:40-141 | one event, one next hop: what waited and what is given is what goes out followed by what still waits |
| InterfaceLaws.RunConserves | libsponge/network_interface.cc:40-141 | over every run and for every next hop, the datagrams given are in order those emitted followed by those waiting, and none waits for a hop that is in the table |
| InterfaceLaws.RunTiming | libsponge/network_interface.cc:52-158 | over every run two requests for one hop are at least 5000 ms apart, and every datagram goes to the address last announced for its hop, announced at most 30000 ms before |
| InterfaceLaws.GuardKept | libsponge/network_interface.cc:53-61 | after a request, a waiting entry or a table entry keeps others away until five seconds have passed, whatever happens in between |
| InterfaceAnswers.StepReplies | libsponge/network_interface.cc:77-119 | the replies among the frames an event puts out are exactly those owed: one, to the sender, for a request addressed to this interface or to all that asks for its address, and none otherwise |
| InterfaceAnswers.RunReplies | libsponge/network_interface.cc:77-119 | over every run the replies among all frames put out are, in order, those owed |
| InterfaceAnswers.HistoryIs | libsponge/network_interface.cc:77-159 | over every run, the clock, the announcements and the datagrams given that the laws speak of are those of the events |
| InterfaceAnswers.TableExact | libsponge/network_interface.cc:95-159 | over every run the table has an address for a hop if and only if one was announced in the last 30000 ms, and it is the one announced last |
| InterfaceAnswers.SendExactly | libsponge/network_interface.cc:32-74 | over every run a datagram goes out at once to the address last announced if that was in the last 30000 ms; if not, its hop is asked for if and only if that was not done in the last 5000 ms |
| InterfaceAnswers.FramesWellFormed | libsponge/network_interface.cc:40-141 | frames correspond one to one to what was sent: a datagram unchanged to the chosen address, a request broadcast with this interface's addresses and the hop asked for |
| InterfaceAnswers.FramesFor | libsponge/network_interface.cc:77-90 | a frame for another address changes nothing; a datagram is handed up if and only if it comes in a frame for this interface or for all |
| NetworkInterfaceModule.NetworkInterface.constructor | libsponge/network_interface.hh:47-55 | empty table and queue at time zero |
| NetworkInterfaceModule.NetworkInterface.SendDatagram | libsponge/network_interface.cc:32-74 | sends, queues or requests as specified, with the frames that go with it |
| NetworkInterfaceModule.NetworkInterface.Flush | libsponge/network_interface.cc:122-141 | the erasing loop sends exactly the datagrams whose hop is known, in order, and keeps the others in order |
| NetworkInterfaceModule.NetworkInterface.RecvFrame | libsponge/network_interface.cc:77-144 | delivers, learns, replies and releases as specified for every frame, foreign and unparsable ones included; the queue of frames gains exactly the replies owed |
| NetworkInterfaceModule.NetworkInterface.Tick | libsponge/network_interface.cc:147-159 | time advances and exactly the entries past their expiry are erased |
| RouterSpec.Probe | libsponge/router.cc:46-70 | the key found is the first of the probed keys in the table, and none is found only if none is there |
| RouterSpec.CanonicalProbed | libsponge/router.cc:47-54 | a matching route without bits below its length is the key probed at its length |
| RouterSpec.ProbeIsLongestPrefix | libsponge/router.cc:46-70 | for tables of canonical routes the probe finds a key iff it is the longest matching prefix, and nothing iff nothing matches |
| RouterSpec.ProbeExact | libsponge/router.cc:46-70 | for any table the probe is longest-prefix match if and only if, for this destination, every matching route has a canonical one at least as long |
| RouterSpec.NonCanonicalMissed | libsponge/router.cc:54 | a route with bits below its length is never found, although it matches |
| RouterSpec.NonCanonicalExample | apps/network_simulator.cc:232 | 128.30.76.255/16 matches every destination in 128.30.0.0/16 and is found for none |
| RouterSpec.RouteAdded | libsponge/router.cc:34-70 | a new route is found exactly for the destinations it matches, when it is canonical and nothing longer was found before |
| RouterSpec.RouteDecided | libsponge/router.cc:42-72 | with canonical routes the longest match decides: dropped if and only if the TTL is at most 1, failing if and only if it is more and the port is missing, and otherwise out through the route's port to its gateway, or to the destination itself when it names none |
| RouterSpec.UnroutableDropped | libsponge/router.cc:42-72 | a datagram that no route matches is dropped |
| RouterSpec.ForwardChangesTtl | libsponge/router.cc:59-67 | a datagram is forwarded with its TTL one lower, at least 1, and nothing else changed |
| RouterSpec.TravelsBounded | libsponge/router.cc:59-67 | across any network of such routers a datagram is forwarded at most its initial TTL - 1 times |
| RouterSpec.RouteAllCorresponds | libsponge/router.cc:39-84 | the datagrams sent correspond to strictly increasing positions of the queue, each with its TTL one lower and nothing else changed; every other routed datagram was dropped; what is left begins with one that fails |
| RouterSpec.RouteAllSpends | libsponge/router.cc:75-84 | routing a queue spends at least one unit of the total TTL budget per datagram sent |
| RouterNetwork.ForwardsBounded | libsponge/router.cc:39-84 | in every run of any number of routers passing datagrams to each other, with any and changing tables, the forwards so far plus those still possible are at most the sum of initial TTL - 1 |
| RouterPorts.PortConserves | libsponge/router.cc:67 | routing and ARP together: for each interface and next hop, what waited and what was forwarded is in order what went out followed by what waits |
| RouterModule.ClearBits | libsponge/router.cc:47-53 | halving and doubling `i` times clears the low `i` bits |
| RouterModule.Router.RecvFrame | libsponge/router.hh:31-36 | the interface takes the frame and emits what it would alone, and a datagram it yields is queued on it |
| RouterModule.Router.AddRoute | libsponge/router.cc:25-36 | for every destination, what is found afterwards is the new route if it is canonical, matches and is not shorter than what was found before, and otherwise what was found before |
| RouterModule.Router.FindRoute | libsponge/router.cc:42-70 | the probing loop finds the first prefix in the table |
| RouterModule.Router.RouteOneDatagram | libsponge/router.cc:39-73 | takes the specified decision, which RouterSpec.RouteDecided states; the datagram goes to the interface of its route, which sends, queues or requests, and the other interfaces are untouched |
| RouterModule.Router.RouteQueues | libsponge/router.cc:75-84 | the nested loops route the queues in order and empty all of them unless a route names a missing interface; each datagram is sent at most once with only its TTL changed, and the interfaces take what is sent one after the other |
| Checksum.SumConcat | libsponge/util/util.cc:89-98 | adding in chunks, split at odd places included, is adding the concatenation |
| Checksum.FoldKeeps | libsponge/util/util.cc:100-108 | folding keeps the sum modulo 65535, fits in 16 bits, and gives zero only for zero |
| Checksum.ValueZero | libsponge/util/util.cc:100-108 | a sum is accepted if and only if it is a nonzero multiple of 65535 |
| Checksum.ChecksumCompletes | libsponge/util/util.cc:81-108 | adding its own checksum makes every 32-bit sum acceptable, without overflowing |
| Checksum.FillingCompletes | libsponge/util/util.cc:81-108 | a packet whose zero word is filled with its checksum is accepted, however often the 32-bit sum wraps around |
| Checksum.WordChangeExact | libsponge/util/util.cc:81-108 | for any packet length and initial sum, changing one word of an accepted packet goes unnoticed if and only if the new running sum is not zero and the change less the extra wrap-arounds of the 32-bit sum is a multiple of 65535 |
| Checksum.WordChangeNoticed | libsponge/util/util.cc:81-108 | with as many wrap-arounds as before, only a change between 0x0000 and 0xffff goes unnoticed |
| Checksum.SumFits | libsponge/util/util.cc:89-98 | up to 65535 bytes over a pseudo-checksum below 2^31 do not wrap around |
| Checksum.InternetChecksum.Add | libsponge/util/util.cc:89-98 | the loop adds the words of the data modulo 2^32, continuing at the parity where the last chunk stopped |
| Checksum.InternetChecksum.ValueOf | libsponge/util/util.cc:100-108 | the loop terminates with the complement of the folded sum |
| Parsing.ReadsBack | libsponge/util/parser.cc:26-60 | an integer that fits is read back from the bytes written for it |
| Parsing.WritesBack | libsponge/util/parser.cc:26-60 | bytes are written back from the integer read from them |
| Parsing.TakesFront | libsponge/util/parser.cc:26-51 | an integer at the front of a packet is read and consumed exactly |
| Parsing.NetParser.ParseInt | libsponge/util/parser.cc:26-43 | the loop reads a big-endian integer and consumes it, or on a short packet or an earlier error returns 0 and consumes nothing |
| Parsing.NetParser.RemovePrefix | libsponge/util/parser.cc:45-51 | skips bytes, or records that the packet is too short |
| Parsing.UnparseInt | libsponge/util/parser.cc:53-60 | the shifting loop appends the big-endian digits |
| TcpCodec.HeaderReadsBack | libsponge/tcp_helpers/tcp_header.cc:17-78 | a header with a data offset of 5 to 15 is parsed back field by field, options are skipped, and what follows it is left |
| TcpCodec.SentIsAccepted | libsponge/tcp_helpers/tcp_segment.cc:12-45 | every segment that can be serialized passes the receiver's checksum, for every pseudo-checksum and length |
| TcpCodec.RoundTrip | libsponge/tcp_helpers/tcp_segment.cc:12-45 | a segment can be serialized iff its data offset is at least 5, and then comes back with payload and all fields but the checksum iff the offset is at most 15 |
| TcpCodec.WideOffsetLost | libsponge/tcp_helpers/tcp_header.cc:64 | a header of sixteen words is serialized and does not come back |
| TcpCodec.AcceptedExactly | libsponge/tcp_helpers/tcp_segment.cc:12-23 | a packet parses without error iff its checksum passes, twenty bytes are there, and the advertised header is there or claims less than twenty bytes |
| TcpCodec.ShortHeaderAccepted | libsponge/tcp_helpers/tcp_segment.cc:19-22 | a packet whose header is judged too short and which is accepted |
| WireLayout.SerializedLayout | libsponge/tcp_helpers/tcp_header.cc:51-78 | a serialized header has each field, big-endian, and each flag bit at its place, is as long as it says, and is zero behind the fields |
| WireLayout.ParsedLayout | libsponge/tcp_helpers/tcp_header.cc:17-48 | every packet of at least twenty bytes is parsed by the same layout |
| TcpCodec.SerializeHeader | libsponge/tcp_helpers/tcp_header.cc:51-78 | the fields in order, padded to the advertised size, or a failure below five words |
| TcpCodec.ParseHeader | libsponge/tcp_helpers/tcp_header.cc:17-48 | the specified fields, verdict and remaining packet for every input |
| TcpCodec.TCPSegment.Parse | libsponge/tcp_helpers/tcp_segment.cc:12-23 | the specified outcome; a bad checksum leaves the segment as it was |
| TcpCodec.TCPSegment.Serialize | libsponge/tcp_helpers/tcp_segment.cc:30-45 | the specified bytes, with the checksum added in two chunks |

## Left out

- Two full `TCPConnection` objects facing each other: the sender keeps a segment's end in its ackno field, which the connection overwrites only once it has received a SYN. Sender, receiver and connection are each modelled in full, and the composition is in one direction.
- Liveness of a whole transfer: no stall and a running timer are proved of the sender, not that a fair network eventually delivers everything.
- The destructor of `TCPConnection`, which sends a RST for an unclean shutdown.
- The IPv4, Ethernet and ARP codecs, which repeat the argument of the TCP codec. Datagrams and ARP messages are values, and a frame that does not parse is a frame without one.
- Sockets, file descriptors, the event loop, the TUN and lossy adapters and the threads of `tcp_sponge_socket.cc`.
- Random choice of the initial sequence number, which is a parameter; printing, `to_string` and summaries as text.
- Behaviour once a 64-bit stream counter would overflow. Sequence numbers themselves wrap in the model as they do in the code.
- Parsing.UnparseInt: returns the extended string where the code appends to one passed by reference.
- Reassembler.StreamReassembler.constructor: asks for a capacity of at least 1. With capacity 0 the code stages bytes its output then refuses (see Reassembler.MaxIndexExact); the default is 64000.
- ReceiverModule.TCPReceiver.constructor: asks for a capacity of at least 1, for the same reason.
- ConnectionModule.TCPConnection.constructor: asks for a receive capacity of at least 1, for the same reason.
- Reassembler.StreamReassembler.Stage: leaves out streams whose window and data reach 2^64, where the 64-bit counters overflow.
- Reassembler.StreamReassembler.PushSubstring: leaves out streams whose window and data reach 2^64; the index itself may be any 64-bit number.
- ReceiverModule.TCPReceiver.SegmentReceived: leaves out streams whose window and data reach 2^64.
- ConnectionModule.TCPConnection.SegmentReceived: leaves out streams whose window and data reach 2^64.
- SenderModule.FindAcknowledged: leaves out streams whose length reaches 2^64 - 2.
- ConnectionModule.TCPConnection.Write: leaves out writes that are accepted after the FIN was sent, which break the sender by SenderInvariant.WriteKeeps.
- SenderInvariant.RunKeeps: leaves out runs with such a write.
- ReceiverSpec.FinAtInitialNumber: speaks of receivers with at most 2^31 bytes assembled; further on the number means another position, by ReceiverSpec.IndexOfInitialNumber.
- Reassembler.StageBounds: asks for a capacity of at least 1, and leaves out streams whose window and data reach 2^64.
- SenderInvariant.StepKeeps: leaves out writes that are accepted after the FIN was sent; SenderInvariant.WriteKeeps shows that they break the invariant.
- ReceiverLaws.GoesToItsPlace: leaves out segments 2^31 or more away from the receiver's count, which the code takes for others.
- OutboundLaws.Answers: asks for an empty outbound queue. With segments still in it the code adds no empty one, and relies on those.
- OutboundLaws.AllAcknowledge: leaves out the ackno field of streams that reach 2^64 - 2 bytes.
- ClosingLaws.FinishedCloses: leaves out a clock that overflows 64 bits.
- ClosingLaws.ClockExact: leaves out a clock that overflows 64 bits.
- SenderRuns.RetransmittedInRun: leaves out single ticks that overflow the 64-bit timer.
- SenderRuns.RetransmittedInTime: leaves out single ticks that overflow the 64-bit timer.
