# nexus-remote: verified model

A Dafny model of the parts of nexus-remote where a mistake would be silent: the sealed video path
from host encoder to client decoder, the client session and its reconnect loop, the native decode
pipeline, the audit chain, the policy engine, capability replay protection, the encoder's
scheduling and pixel copies, and the client's input and window queues.

Operations that update an object in the source are classes here, each method proved equal to a
state-transition function; loops are loops with invariants. What the source promises is then proved
about those functions, mostly over whole runs: every sequence of datagrams, every interleaving of
threads, every sequence of calls.

The main results:

- **Honest streams.** The host seals, fragments and numbers frames (`Streamer`, `Packetizer`); the
  network loses, duplicates and reorders datagrams; the client reassembles, opens and publishes
  (`Reassembler`, `Receiver`). No datagram ever makes the client fail, and everything it publishes
  is one of the host's frames unchanged (`VideoPath.HonestStreamNeverFails`). As long as nothing newer
  has arrived, the datagram that completes a frame publishes it, whatever older fragments and
  evictions come in between (`Freshness.NewestFrameIsPublished`). Control messages interleaved with the
  video change none of this and arrive unchanged (`Inbound.MixedTrafficIsHandled`), and no two seals of a host
  run share a nonce, those of frames that were never sent included (`NonceUse.SealsNeverShareANonce`).
- **Arbitrary bytes.** On any datagrams at all, published ids strictly increase, no nonce sequence is
  published twice, and everything published opened under the session key for exactly the metadata
  shown (`Receiver.ReceiverSafety`). Each datagram has its outcome, every failure included, exactly when
  what came before calls for it (`Outcomes.OutcomesAreExact`). The reassembler refines a table without counters
  (`ReassemblySpec.EveryRunRefines`), and the pruned replay window decides like the unbounded
  history (`ReplayWindow.RunDecidesLikeHistory`).
- **Session and reconnect.** A reconnect succeeds only within the window that opened when the
  transport was lost and before the maximum duration counted from the first connect
  (`Session.ReconnectWithinWindow`), and inside both with valid claims it does succeed
  (`Session.ReconnectsExactly`); the retry loop ends connected in time, cancelled or expired, with
  its attempts bounded by the earlier of window and duration (`Reconnect.ReconnectWithRetry`), and it ends
  on every advancing clock, whatever the network does, exactly when the session can give up at all
  (`Reconnect.LoopEndsExactly`).
- **Decode pipeline.** In every interleaving of owner and worker, a surface is presented only in the
  generation its job was submitted in, and nothing submitted before a reset is presented after it
  (`NativePipeline.EveryInterleavingIsSafe`, `NativePipeline.ResetDropsEarlierWork`); a waiting job that can be
  decoded is shown if and only if no reset comes first (`Presentation.WaitingJobIsShownExactly`).
- **Audit log.** Verification accepts exactly the chained logs, every run of appends yields one, and
  the head hash commits to the whole log or a digest collision is exhibited
  (`AuditChain.HeadCommitsToLog`).
- **Policy.** Narrowing is a partial order that the validator decides exactly; an allowed request is
  granted the join, in that order, of all matching roles (`PolicyEngine.PolicyEngine.Evaluate`), and every
  other is refused for exactly the reason that applies (`PolicyDecisions.DenialExactly`).
- **Capabilities.** A capability is usable once exactly when its window fits the time a nonce is
  remembered (`CapabilityVerifier.SingleUseExactly`).
- **Pixels and queues.** Pitched copies on host and client agree and recover the picture exactly;
  colour conversion puts every sample where NV12 wants it, within one step of BT.601 luma; encoder inputs are neither lost nor
  submitted without a credit; no second holds more inputs than the limit for each clear in it and once
  more, and that bound is reached; a window close is never lost.

## Where the obvious statement is not quite true

- Encoding a datagram does not look at the version byte and decoding does, so the round trip holds
  if and only if the version is 2 (`VideoPacket.DecodeOfEncode`).
- Committing a frame keeps an in-flight entry with the committed id, so not every in-flight frame is newer
  than the watermark (`Watermark.CommitCanLeaveItsOwnId`). A commit makes it so if and only if its own id is
  not in flight; a client on arbitrary bytes loses it exactly on a single-packet frame over fragments of the
  same id that passes every check; honest streams keep it (`Watermark.CommitIsStrictExactly`,
  `Watermark.AcceptIsStrictExactly`, `Watermark.HonestRunsAreStrict`).
- The retry loop's comment promises that it ends at the reconnect deadline or at shutdown. It also ends when
  the session duration is over, and neither ends it when the deadline saturates at the last representable
  second and the duration is not over by then: it then may retry for ever (`Reconnect.LoopEndsExactly`, and a
  reachable session in `Reconnect.EndlessRetryIsReachable`).
- Capability expiry is inclusive, so the window that must fit the replay time is one second longer than
  the difference of its ends; a shorter memory always allows a second use
  (`CapabilityVerifier.ShortTtlAllowsReuse`, `CapabilityVerifier.SingleUseExactly`).
- Clearing pending input also clears the rate limiter's history, so the limit holds between clears and
  not across one. A second holds at most the limit for each clear in it and once more, and for every valid
  limit and every number of clears a run reaches that at one instant
  (`InputBursts.EveryWindowAcrossClears`, `InputBursts.BoundIsReached`).
- More selectors widen a role, but the first one narrows it, since a role without selectors covers every
  device (`PolicyDecisions.MoreSelectorsAndLabelsKeepAccess`, `PolicyDecisions.FirstSelectorCanRemoveAccess`).
- Control exclusivity is checked only when control itself is requested, so a request for something else
  is granted control beside a controller exactly when a matching role includes it
  (`PolicyEngine.ControlBesideAController`, and an instance in `PolicyEngine.ViewerIsGrantedControl`).

## Assumptions

Authenticated encryption (ChaCha20-Poly1305, section 2.8 of RFC 8439), the BLAKE3 digest, canonical JSON, signature
checks, schema validation and address-range matching enter as parameters. The only fact assumed of
encryption, and only by the honest-stream results, is that opening what was sealed with the same key, nonce
and associated data returns it (`Crypto.Aead.OpensWhatItSeals`). Clocks, networks, threads and drivers are
arbitrary inputs of the runs.

## Model

| member | source | states |
|---|---|---|
| VideoPacket.SetStart | crates/nexus-transport/src/video.rs:328-330 | sets the start bit and leaves every other bit alone |
| VideoPacket.SetEnd | crates/nexus-transport/src/video.rs:328-330 | sets the end bit and leaves every other bit alone |
| VideoPacket.Encode | crates/nexus-protocol/src/video_packet.rs:67-85 | appends the big-endian header and the payload to the buffer and changes nothing before them |
| VideoPacket.ParseHeaderBytes | crates/nexus-protocol/src/video_packet.rs:91-146 | parsing the bytes of a header returns that header |
| VideoPacket.HeaderBytesParse | crates/nexus-protocol/src/video_packet.rs:91-146 | the bytes of a parsed header are the bytes it was parsed from |
| VideoPacket.DecodeOfEncode | crates/nexus-transport/src/video.rs:62-97 | an encoded datagram decodes to its header and payload if and only if the version is 2 |
| VideoPacket.EncodeOfDecode | crates/nexus-transport/src/video.rs:62-97 | every accepted datagram is the encoding of what it decodes to, up to trailing bytes, and exactly when there are none |
| VideoPacket.RefusedExactly | crates/nexus-protocol/src/video_packet.rs:91-146 | a datagram is refused with an error if and only if its bytes are at fault in that way: too long, too short for a header, another version, a declared payload over the limit or longer than what follows |
| Control.EnvelopeRoundTrip | crates/nexus-transport/src/control.rs:95-142 | encoding succeeds exactly below the size limit, and decoding undoes it |
| Control.EnvelopeIsCanonical | crates/nexus-transport/src/control.rs:95-142 | re-encoding any accepted envelope gives the same bytes |
| Control.EnvelopeBytes | crates/nexus-transport/src/control.rs:95-142 | an envelope is its length in four bytes, 1 for a cursor position or 2 for a shape, and the message |
| Control.RefusedExactly | crates/nexus-transport/src/control.rs:95-142 | an envelope is refused with an error if and only if its bytes are at fault in that way |
| Inbound.DispatchExactly | apps/nexus-client/src/runtime.rs:1123-1143 | arbitrary bytes are video if and only if they decode as such, a message if and only if they are its envelope, and otherwise refused for what is wrong with them as an envelope |
| Inbound.VideoIsUndisturbed | apps/nexus-client/src/runtime.rs:1123-1143 | on arbitrary bytes the video datagrams fare exactly as if nothing lay between them |
| Inbound.ReachesItsHandler | apps/nexus-client/src/runtime.rs:1123-1143 | a host's video datagram reaches the video side and an enveloped message the control side, unchanged |
| Inbound.MixedTrafficIsHandled | apps/nexus-client/src/runtime.rs:1123-1143 | on any interleaving of a host's video datagrams with control messages, every message arrives unchanged and the video outcomes are those of the honest stream alone |
| Control.ClassificationIsUnambiguous | apps/nexus-client/src/runtime.rs:1123-1143 | no datagram is both a video datagram and a control envelope |
| Crypto.AssociatedDataIsInjective | crates/nexus-crypto/src/lib.rs:55-64 | the 25 associated bytes determine every authenticated field |
| Crypto.HeaderIsAuthenticated | apps/nexus-client/src/receiver.rs:137-152 | headers with the same associated bytes agree on version, stream, id, timestamp and keyframe flag |
| Crypto.SequenceRoundTrip | crates/nexus-crypto/src/lib.rs:71-88 | the sequence can be read back from the nonce |
| Crypto.NonceIsInjective | crates/nexus-crypto/src/lib.rs:71-88 | a nonce belongs to one domain and one sequence |
| Crypto.NonceSequence.Next | crates/nexus-crypto/src/lib.rs:153-164 | hands out the next nonce once and fails closed at the last sequence instead of wrapping |
| NonceUse.IssueCounts | crates/nexus-crypto/src/lib.rs:153-164 | as many nonces are handed out as were asked for or as were left |
| NonceUse.NoncesAreNeverReused | crates/nexus-crypto/src/lib.rs:153-164 | over any number of calls no nonce is handed out twice, and a new allocator hands out exactly 2^64 |
| NonceUse.SealTakesOneNonce | apps/nexus-desktop-host/src/streamer.rs:163-215 | whatever becomes of a frame, it takes one nonce if its id fits the wire and none otherwise |
| NonceUse.RunTakesNonces | apps/nexus-desktop-host/src/streamer.rs:163-215 | the allocator after a host run depends on the ids of its frames alone |
| NonceUse.SealsAreIssued | apps/nexus-desktop-host/src/streamer.rs:163-215 | a host run seals under exactly the nonces handed out, one for each frame whose id fits the wire |
| NonceUse.SentUnderSealNonce | apps/nexus-desktop-host/src/streamer.rs:163-215 | every sent frame carries the sequence of a nonce it was sealed under |
| NonceUse.SealsNeverShareANonce | apps/nexus-desktop-host/src/streamer.rs:163-215 | over every host run no two seals share a nonce, whether or not the frames were sent |
| Packetizer.ConcatChunks | crates/nexus-transport/src/video.rs:115-167 | the chunks of a payload concatenate back to it |
| Packetizer.ChunkBounds | crates/nexus-transport/src/video.rs:115-167 | no chunk exceeds the chunk size, and there are exactly as many chunks as the payload needs, one for the empty payload |
| Packetizer.HostChunksAreFewEnough | crates/nexus-transport/src/video.rs:115-167 | a frame within the size limit never needs more packets than the wire allows |
| Packetizer.PacketHeader | crates/nexus-transport/src/video.rs:115-167 | each packet carries the frame's header with its own number and length, start and end flags exactly where they belong, and every other flag unchanged |
| Packetizer.PacketizeFailsExactly | crates/nexus-transport/src/video.rs:115-167 | packetizing fails with an error if and only if it applies: chunk size out of range, frame too large, or more packets than the wire can number |
| Packetizer.PacketizeVideoFrame | crates/nexus-transport/src/video.rs:115-167 | the fragmenting loop gives one packet per chunk, numbered in order, flagged first and last, or the error that applies |
| Reassembler.VideoFrameReassembler.constructor | crates/nexus-transport/src/video.rs:216-223 | a new reassembler is empty, holds at least one frame, and is valid |
| Reassembler.VideoFrameReassembler.Process | crates/nexus-transport/src/video.rs:227-340 | performs the packet transition, keeps the invariant, and changes nothing when it rejects |
| Reassembler.VideoFrameReassembler.OpenFrame | crates/nexus-transport/src/video.rs:282-297 | evicts the oldest frame when the table is full and the frame is new, then has an entry for the frame |
| Reassembler.VideoFrameReassembler.AddTo | crates/nexus-transport/src/video.rs:299-340 | adds a fragment to its frame's entry, dropping an oversized frame and emitting a complete one |
| Reassembler.VideoFrameReassembler.CommitAuthenticatedFrame | crates/nexus-transport/src/video.rs:344-354 | advances the watermark and prunes, or refuses a stale id |
| Reassembler.VideoFrameReassembler.PruneStaleBefore | crates/nexus-transport/src/video.rs:356-366 | keeps exactly the entries whose id is not below the given one |
| Reassembler.JoinSlots | crates/nexus-transport/src/video.rs:322-327 | the loop concatenates the fragments in packet order |
| Reassembler.FillSlot | crates/nexus-transport/src/video.rs:311-320 | filling an empty slot adds one to the count and the payload's length to the bytes, so the counters stay exact |
| Reassembler.RoomForOne | crates/nexus-transport/src/video.rs:282-297 | evicting the oldest frame leaves room for one more within the limit |
| Reassembler.MakeRoomExactly | crates/nexus-transport/src/video.rs:282-297 | the smallest id leaves exactly when the table is full and the frame is new, and nothing else changes |
| Reassembler.MalformedExactly | crates/nexus-transport/src/video.rs:232-260 | a packet is malformed if and only if its count, number, length or boundary flags are wrong, and the first such fault is reported |
| Reassembler.AssembledIsComplete | crates/nexus-transport/src/video.rs:322-340 | a completed frame has both boundary flags and agrees with the packet that completed it on everything authenticated |
| Reassembler.ProcessKeepsValid | crates/nexus-transport/src/video.rs:227-340 | every packet keeps the invariant on counters, bounds and watermark, and a rejected packet leaves the state untouched |
| Reassembler.CommitKeepsValid | crates/nexus-transport/src/video.rs:344-366 | committing keeps the invariant and answers false exactly for a stale id |
| ReassemblySpec.ReassemblerRefinesTable | crates/nexus-transport/src/video.rs:227-340 | for every packet, same outcome and same table as a reassembler that keeps fragments by id and has no counters |
| ReassemblySpec.EveryRunRefines | crates/nexus-transport/src/video.rs:216-366 | from a new reassembler, every sequence of packets and commits gets exactly the replies of that simpler reassembler |
| Watermark.ProcessKeepsStrict | crates/nexus-transport/src/video.rs:261-297 | packets keep every in-flight frame newer than the watermark |
| Watermark.CommitIsStrictExactly | crates/nexus-transport/src/video.rs:344-366 | after a fresh commit every in-flight frame is newer if and only if the committed id was not in flight |
| Watermark.CommitCanLeaveItsOwnId | crates/nexus-transport/src/video.rs:271-366 | a fragment, the same frame whole in one packet, and its commit leave the frame in flight at its own watermark |
| Watermark.AcceptIsStrictExactly | apps/nexus-client/src/receiver.rs:127-175 | on arbitrary bytes the client loses strictness exactly on a single-packet frame over fragments of the same id that is well formed, small enough, newer, opens and has an unused nonce, all testable before the call |
| Watermark.SinglePacketIsPublishedExactly | apps/nexus-client/src/receiver.rs:127-175 | a whole frame in one packet is published if and only if it passes each of these checks |
| Watermark.HonestRunsAreStrict | apps/nexus-client/src/receiver.rs:127-175 | on every honest stream every in-flight frame is newer than the last one shown |
| Streamer.OnlyOversizedFramesAreUnpacketizable | apps/nexus-desktop-host/src/streamer.rs:163-215 | with the host's chunk size, packetizing fails exactly for frames over the size limit |
| Streamer.HostVideoStreamer.PacketizeEncodedFrame | apps/nexus-desktop-host/src/streamer.rs:163-215 | takes one nonce, seals the frame under its own metadata and returns its datagrams in order, or the error that applies |
| Streamer.SealFrameProperties | apps/nexus-desktop-host/src/streamer.rs:163-215 | a sealed frame carries the next unused sequence and the ciphertext of exactly that frame |
| Streamer.SealFrameExactly | apps/nexus-desktop-host/src/streamer.rs:163-215 | a frame is sent if and only if its id fits, a nonce is left, sealing works and the result is within the limit, and each failure is reported for what it is |
| Streamer.HostHeader | apps/nexus-desktop-host/src/streamer.rs:163-215 | the header of every packet sent: the frame's own id, timestamp and keyframe flag, its sequence, its boundary flags and no other flag |
| Streamer.HostRunIsTranscript | apps/nexus-desktop-host/src/streamer.rs:163-215 | over every run with increasing ids, sent ids and nonce sequences increase together and every frame is sealed under its own metadata |
| ReplayWindow.NonceReplayWindow.CommitAuthenticated | apps/nexus-client/src/receiver.rs:31-50 | performs the window transition |
| ReplayWindow.WindowDecidesLikeHistory | apps/nexus-client/src/receiver.rs:31-50 | accepts a sequence if and only if the unbounded history admits it: never seen, and less than 4096 below the highest |
| ReplayWindow.RunDecidesLikeHistory | apps/nexus-client/src/receiver.rs:31-50 | the same after any sequence of calls |
| Receiver.ClientReceiver.AcceptDatagram | apps/nexus-client/src/receiver.rs:127-175 | performs the datagram transition, whose every outcome `Outcomes.OutcomesAreExact` determines; a failure is returned, and only an authenticated, fresh frame replaces the latest one |
| Receiver.ClientReceiver.DrainLatestFrame | apps/nexus-client/src/receiver.rs:249-251 | returns the latest frame and forgets it |
| Receiver.AssembledIsFresh | crates/nexus-transport/src/video.rs:227-340 | an assembled frame has its packet's id and is not stale under the watermark |
| Receiver.AcceptIsSafe | apps/nexus-client/src/receiver.rs:127-175 | one datagram of arbitrary bytes: the stale branch is unreachable, and what is published is authentic, newer and under an unused nonce |
| Receiver.ReceiverSafety | apps/nexus-client/src/receiver.rs:127-175 | the same over every run: ids strictly increase, nonces are never reused, everything published is authentic |
| Outcomes.AcceptIsDue | apps/nexus-client/src/receiver.rs:127-175 | one datagram of arbitrary bytes gets the outcome that the fragments under way and the nonces published before call for: undecodable, trailing bytes, rejected by reassembly, absorbed, failed authentication, nonce replay, or published |
| Outcomes.DueIsUnique | apps/nexus-client/src/receiver.rs:127-175 | they never call for two outcomes |
| Outcomes.OutcomeEffects | apps/nexus-client/src/receiver.rs:127-175 | a datagram that is undecodable or rejected changes nothing, a frame that is not published leaves replay window and watermark alone, and a published one moves the watermark to its id |
| Outcomes.RunReflectsPast | apps/nexus-client/src/receiver.rs:127-175 | after every run the client is what the datagrams and outcomes before have made of it, seen without counters and without a window |
| Outcomes.OutcomesAreExact | apps/nexus-client/src/receiver.rs:127-175 | over every run of arbitrary bytes a datagram has an outcome, each failure included, if and only if what came before calls for it; a forged frame fails authentication and a repeated nonce fails as a replay |
| VideoPath.DatagramsAreDistinct | crates/nexus-transport/src/video.rs:62-85 | different packets of a stream travel in different datagrams |
| VideoPath.FragmentJoins | crates/nexus-transport/src/video.rs:299-340 | a fragment of a sent frame completes it exactly when it was the last one missing, and then the payload is the sent ciphertext |
| VideoPath.PacketStep | crates/nexus-transport/src/video.rs:227-340 | the same for a whole packet step, including eviction and a new entry |
| VideoPath.NewerFrameHasNewerNonce | apps/nexus-client/src/receiver.rs:31-50 | a sent frame newer than the watermark passes the replay window |
| VideoPath.WholeFrameIsPublished | apps/nexus-client/src/receiver.rs:137-175 | a whole sent frame newer than the watermark opens, passes the replay check and is published as sent |
| VideoPath.HonestDatagram | apps/nexus-client/src/receiver.rs:127-175 | a datagram of a sent frame publishes it exactly when it completes it and is absorbed otherwise |
| VideoPath.TranscriptNeverFails | apps/nexus-client/src/receiver.rs:127-175 | over every run on datagrams of a transcript nothing fails and every published job is a sent frame |
| VideoPath.HonestStreamNeverFails | apps/nexus-client/src/receiver.rs:127-175 | host run, lossy reordering network and client run together: nothing fails and everything published is a host frame unchanged |
| Freshness.EvictionSparesLargest | crates/nexus-transport/src/video.rs:282-297 | eviction never takes the largest of two or more frames |
| Freshness.OlderDatagramKeepsNewest | crates/nexus-transport/src/video.rs:227-340 | a datagram of an older frame does not change what is known of the newest |
| Freshness.NewestDatagram | apps/nexus-client/src/receiver.rs:127-175 | a datagram of the newest frame publishes it if it completes it and is recorded otherwise |
| Freshness.NewestIsTracked | apps/nexus-client/src/receiver.rs:127-175 | until the newest frame is complete, the client knows exactly the packets of it that have arrived |
| Freshness.NewestFrameIsPublished | apps/nexus-client/src/receiver.rs:127-175 | the datagram with which all packets of the newest frame are present publishes that frame |
| Session.ClientSession.constructor | apps/nexus-client/src/session.rs:95-115 | a new session is disconnected, with no deadline and never established |
| Session.ClientSession.EnsureActiveAt | apps/nexus-client/src/session.rs:169-186 | performs the transition: reports invalid claims, and expires the session when its duration is over |
| Session.ClientSession.BeginConnectAt | apps/nexus-client/src/session.rs:188-206 | performs the transition from disconnected or reconnecting; outside window or duration the session expires |
| Session.ClientSession.ConnectedAt | apps/nexus-client/src/session.rs:208-240 | performs the transition; the establishment time is set only the first time |
| Session.ClientSession.ReconnectAttemptFailedAt | apps/nexus-client/src/session.rs:245-268 | performs the transition back to reconnecting, keeping the deadline |
| Session.ClientSession.TransportLostAt | apps/nexus-client/src/session.rs:270-287 | performs the transition that opens the reconnect window, whose deadline `Session.DeadlineClosesWindow` determines |
| Session.ClientSession.ExpireNow | apps/nexus-client/src/session.rs:293-300 | expires the session, or reports that it already was |
| Session.DeadlineClosesWindow | apps/nexus-client/src/session.rs:270-287 | the deadline is the last whole second of the window counted from the loss, or the last representable one |
| Session.ClaimsFaultExactly | apps/nexus-client/src/session.rs:320-366 | claims pass if and only if they match, are well formed, in force and carry both signatures, and otherwise the first fault is reported |
| Session.StepIsSound | apps/nexus-client/src/session.rs:169-314 | every operation keeps the shape, expired is final, the deadline is only ever dropped, and success respects claims, window and duration |
| Session.StepSucceedsExactly | apps/nexus-client/src/session.rs:169-314 | every operation succeeds if and only if it is for this state, its claims are in force and time is not up; it expires the session exactly when it finds that time is up and otherwise leaves it as it was |
| Session.FailuresAreExact | apps/nexus-client/src/session.rs:169-314 | every operation fails with an error if and only if that error applies |
| Session.DeadlineIsSetByTheLoss | apps/nexus-client/src/session.rs:245-287 | over every run a pending deadline is met exactly within the window that opened when the transport was lost, however many attempts failed since |
| Session.EstablishedOnce | apps/nexus-client/src/session.rs:208-240 | over every run the establishment time once set never changes, and expired stays expired |
| Session.EstablishedByFirstConnect | apps/nexus-client/src/session.rs:208-240 | over every run the establishment time is that of the first successful connect, and is unset exactly while there was none |
| Session.ReconnectWithinWindow | apps/nexus-client/src/session.rs:208-240 | a reconnect that succeeds does so no later than the loss plus the reconnect window, and before the first connect plus the maximum duration |
| Session.ReconnectsExactly | apps/nexus-client/src/session.rs:188-240 | over every run, while reconnecting, an attempt begins if and only if the claims are in force and neither window nor duration is over, connects if and only if the same holds then, and too late expires the session |
| Reconnect.ReconnectsUntilGiveUp | apps/nexus-client/src/session.rs:302-314 | a reconnecting session may reconnect exactly until the earlier of deadline and end of duration |
| Reconnect.SecondsExactly | crates/nexus-common/src/time.rs:305-311 | the clock in seconds never runs ahead and lags by less than a second until it saturates |
| Reconnect.ReconnectAttempt | apps/nexus-client/src/runtime.rs:852-903 | every exit of the attempt with its error and its session transition |
| Reconnect.AttemptIsSound | apps/nexus-client/src/runtime.rs:852-903 | success means connected within window and duration; a failure that is retried left the session as it was and began in time, or was cancelled; one that began too late expires the session |
| Reconnect.AttemptEndsExactly | apps/nexus-client/src/runtime.rs:852-903 | while reconnecting an attempt connects, fails in the decoder, is cancelled, fails to dial or can be retried if and only if it should |
| Reconnect.GoesOnExactly | apps/nexus-client/src/runtime.rs:833-848 | the loop goes on if and only if nothing is cancelled around the attempt and it can be retried |
| Reconnect.ReconnectWithRetry | apps/nexus-client/src/runtime.rs:821-850 | ends connected in time, expired, or cancelled with the session unchanged; attempts are bounded by the time left until window or duration ends, whichever is first, over the interval |
| Reconnect.RetryPass | apps/nexus-client/src/runtime.rs:833-848 | one pass of the loop: when it goes on, in which state, and how it returns otherwise |
| Reconnect.ReturnsAtIsExact | apps/nexus-client/src/runtime.rs:821-850 | the pass in which the method returns is the one in which the loop as a transition ends |
| Reconnect.LoopEnds | apps/nexus-client/src/runtime.rs:821-850 | a session that gives up within representable time leaves the loop on every advancing clock, whatever the network does |
| Reconnect.LoopGoesOn | apps/nexus-client/src/runtime.rs:821-850 | any other session goes through the loop unchanged any number of times while dialling fails and nothing is cancelled |
| Reconnect.LoopEndsExactly | apps/nexus-client/src/runtime.rs:821-850 | the loop ends on every advancing clock with lasting cancellation if and only if the deadline is below the last representable second or the duration is over by then |
| Reconnect.EndlessRetryIsReachable | apps/nexus-client/src/runtime.rs:821-850 | with the longest durations the policy accepts, a session that connects and loses its transport may retry for ever |
| NativePipeline.OwnerKeepsInv | apps/nexus-client/src/runtime.rs:437-465 | submitting and resetting keep the pipeline invariant |
| NativePipeline.WorkerKeepsInv | apps/nexus-client/src/runtime.rs:359-413 | every worker step keeps the pipeline invariant; what each step does is in the `Presentation` rows |
| NativePipeline.DecodeKeepsInv | apps/nexus-client/src/decoder.rs:105-125 | the decoder gate lets a generation start only with a keyframe that carries a sequence header |
| NativePipeline.EveryInterleavingIsSafe | apps/nexus-client/src/runtime.rs:359-465 | in every interleaving a surface is presented only in the generation of its job, and every generation starts with a keyframe with sequence header |
| NativePipeline.ResetDropsEarlierWork | apps/nexus-client/src/runtime.rs:456-465 | nothing submitted before a reset is presented after it |
| Presentation.SurfaceIsShownExactly | apps/nexus-client/src/runtime.rs:391-401 | in every interleaving a surface waiting to be presented is presented by the next present step if and only if no reset came since its job was stored; a renderer that fails stops the worker |
| Presentation.OnlyPresentStepsShow | apps/nexus-client/src/runtime.rs:391-401 | nothing else presents anything |
| Presentation.WaitingJobIsShownExactly | apps/nexus-client/src/runtime.rs:360-401 | a decodable job in the slot of a waiting worker is taken, checked, decoded and shown, whatever the runtime thread does meanwhile, if and only if no reset came between its store and the present check |
| Presentation.EverythingWasStored | apps/nexus-client/src/runtime.rs:359-465 | in every interleaving every job in the slot, with the worker, in the decoder or shown was stored by a submission in its generation |
| Presentation.GenerationCountsResets | apps/nexus-client/src/runtime.rs:456-465 | the generation is the same exactly when no reset has come |
| Presentation.SubmitExactly | apps/nexus-client/src/runtime.rs:437-452 | a submission leaves its job waiting, whatever waited before |
| Presentation.ResetExactly | apps/nexus-client/src/runtime.rs:456-465 | a reset starts a new generation with nothing waiting |
| Presentation.TakeExactly | apps/nexus-client/src/runtime.rs:361-377 | a waiting worker stops when asked to and otherwise takes what waits |
| Presentation.CheckExactly | apps/nexus-client/src/runtime.rs:378-390 | in every reachable state a job of the current generation goes to the decoder, which is reset for a new generation, and an older one is dropped |
| Presentation.DecodeExactly | apps/nexus-client/src/runtime.rs:391-412 | a unit without the stream start it needs is dropped, a bad one stops the worker, any other is decoded |
| Presentation.NothingIsLost | apps/nexus-client/src/runtime.rs:391-412 | the decoder emits one of the jobs in it or none and keeps the others |
| Presentation.GateExactly | apps/nexus-client/src/decoder.rs:105-125 | the gate passes exactly the units of a proper size that continue a stream or start one with a keyframe and sequence header |
| Presentation.SequenceHeaderExactly | apps/nexus-client/src/decoder.rs:191-194 | a sequence header is found if and only if the unit contains one behind a start code, wherever it lies |
| AuditChain.VerifyChain | crates/nexus-audit/src/chain.rs:229-276 | accepts exactly the chained logs, and otherwise reports the first broken event and what is broken about it |
| AuditChain.AuditChain.constructor | crates/nexus-audit/src/chain.rs:142-150 | a new chain is empty and headed by its genesis value |
| AuditChain.AuditChain.AppendEvent | crates/nexus-audit/src/chain.rs:156-173 | appends the linked event and returns it, or refuses an unserialisable one and changes nothing |
| AuditChain.AppendKeepsChain | crates/nexus-audit/src/chain.rs:156-173 | appending to a chained log gives a chained log |
| AuditChain.AppendedLogsAreChained | crates/nexus-audit/src/chain.rs:156-276 | every run of appends yields a chained log of exactly the serialisable events in order |
| AuditChain.PreimageSplits | crates/nexus-audit/src/chain.rs:99-105 | the hashed bytes determine the sequence, and with equal hash lengths the event and the previous hash |
| AuditChain.PreimageReadsBack | crates/nexus-audit/src/chain.rs:97-105 | the hashed bytes are the sequence in the first eight, the event, and the previous hash at the end |
| AuditChain.HeadCommitsToLog | crates/nexus-audit/src/chain.rs:99-276 | two chained logs of any lengths with one genesis and one head are the same or a digest collision is exhibited |
| AuditChain.HeadCommitsToEvents | crates/nexus-audit/src/chain.rs:99-276 | with a canonical form that determines the event, the same means equal |
| AuditChain.EmptyHeadNeedsPreimage | crates/nexus-audit/src/chain.rs:142-150 | an empty log shares its head with another only if the genesis value is a digest of known bytes |
| Policy.ValidatorDecidesOrder | crates/nexus-policy/src/narrowing.rs:55-110 | the validator accepts exactly the proposals below the original and returns them unchanged |
| Policy.WideningIsReported | crates/nexus-policy/src/narrowing.rs:55-110 | a refused proposal is refused for the first thing it widens |
| Policy.BelowIsPartialOrder | crates/nexus-policy/src/narrowing.rs:55-110 | narrowing is reflexive, antisymmetric and transitive |
| Policy.NarrowingChainStaysBelow | crates/nexus-policy/src/narrowing.rs:55-110 | after any chain of accepted narrowings the last grant is an accepted narrowing of every earlier one |
| Policy.JoinIsMonotone | crates/nexus-policy/src/engine.rs:490-568 | the join of some roles' grants is unique and grows with the roles |
| Policy.PairMatchesExactly | crates/nexus-policy/src/model.rs:70-98 | a requirement is met if and only if some label meets it or it asks for nothing; without stars, exactly when the device has that label |
| Policy.MatchAllIsConjunction | crates/nexus-policy/src/model.rs:70-98 | a union of requirements is met if and only if both parts are, and a single one as an exact selector is |
| Policy.MoreLabelsKeepMatch | crates/nexus-policy/src/model.rs:70-98 | labelling a device further never loses a match |
| Policy.SelectorsAreAlternatives | crates/nexus-policy/src/model.rs:420-427 | a role with selectors covers a device if and only if one of them matches, and a role without covers every device |
| PolicyEngine.PolicyEngine.AddRole | crates/nexus-policy/src/engine.rs:351-353 | adds the role or replaces the one with its name |
| PolicyEngine.PolicyEngine.FindConflict | crates/nexus-policy/src/engine.rs:420-430 | finds the first active session that holds desktop control |
| PolicyEngine.PolicyEngine.SplitByAbac | crates/nexus-policy/src/engine.rs:469-488 | keeps exactly the roles whose conditions hold, and reports the first role's failure when none does |
| PolicyEngine.PolicyEngine.UnionOfActions | crates/nexus-policy/src/engine.rs:504-508 | collects exactly the actions some role allows |
| PolicyEngine.PolicyEngine.Evaluate | crates/nexus-policy/src/engine.rs:413-569 | denies with exactly the reason that applies, or grants the join of all matching roles; `PolicyDecisions.DenialExactly` and `PolicyDecisions.GrantedExactly` say what those are |
| PolicyEngine.MergeIsJoin | crates/nexus-policy/src/engine.rs:490-568 | the field-by-field merge of several roles is their least upper bound in the narrowing order |
| PolicyEngine.SingleRoleGrantsAreNarrowings | crates/nexus-policy/src/engine.rs:490-568 | every matching role's own grant is an accepted narrowing of what was granted |
| PolicyEngine.AllowedIffSomeRoleMatches | crates/nexus-policy/src/engine.rs:413-569 | a request is allowed if and only if control is not taken and some role matches |
| PolicyEngine.MoreRolesNeverRemoveAccess | crates/nexus-policy/src/engine.rs:413-569 | more roles keep an allowed request allowed and only grow its grant |
| PolicyEngine.ControlBesideAController | crates/nexus-policy/src/engine.rs:420-430 | beside a controller, control is granted exactly to a request for something else that a role with control matches |
| PolicyEngine.ViewerIsGrantedControl | crates/nexus-policy/src/engine.rs:413-503 | beside a controller, an operator is refused control when asking for it and granted it when asking to view |
| PolicyDecisions.AbacFaultExactly | crates/nexus-policy/src/engine.rs:375-400 | a role passes if and only if its MFA, managed-device and address conditions are met, and otherwise the first unmet one is reported |
| PolicyDecisions.DenialExactly | crates/nexus-policy/src/engine.rs:413-488 | a request is refused for a reason if and only if it applies, and allowed if and only if control is not taken and some assigned role allows the action, covers the device and has its conditions met |
| PolicyDecisions.GrantedExactly | crates/nexus-policy/src/engine.rs:490-568 | the grant gives exactly what some matching role gives: actions, channels, the longest duration, and the largest resolution or no limit |
| PolicyDecisions.WiderCoverageKeepsAccess | crates/nexus-policy/src/engine.rs:413-569 | roles that cover at least as much keep every allowed request allowed, with no smaller grant |
| PolicyDecisions.MoreSelectorsAndLabelsKeepAccess | crates/nexus-policy/src/engine.rs:413-569 | one more selector for a role that has one, or one more label for a device, never takes access away |
| PolicyDecisions.FirstSelectorCanRemoveAccess | crates/nexus-policy/src/model.rs:420-427 | the first selector of a role can take access away |
| PolicyDecisions.EndedSessionsNeverBlock | crates/nexus-policy/src/engine.rs:420-430 | sessions that have ended stand in nobody's way |
| PolicyDecisions.NamesAreJoined | crates/nexus-policy/src/engine.rs:557-561 | the matched roles are reported by name, in order, with commas between them |
| NonceCache.NonceReplayCache.constructor | crates/nexus-auth/src/replay.rs:14-20 | a new cache is empty and has a capacity of at least one |
| NonceCache.NonceReplayCache.AcceptNonce | crates/nexus-auth/src/replay.rs:23-41 | prunes, then refuses a remembered nonce or a full cache, or records the nonce |
| NonceCache.HoldsCounts | crates/nexus-auth/src/replay.rs:23-41 | the cache's size is the number of acceptances still remembered |
| NonceCache.CacheDecidesLikeHistory | crates/nexus-auth/src/replay.rs:23-41 | accepts a nonce if and only if no acceptance within the time to live had it and fewer than the capacity happened within it |
| NonceCache.RunDecidesLikeHistory | crates/nexus-auth/src/replay.rs:14-41 | after any calls at nondecreasing times, the same against the history the rule alone admits |
| CapabilityVerifier.Verifier.VerifyCapability | crates/nexus-auth/src/verifier.rs:84-155 | the checks in their order; the nonce is recorded before the signature is checked |
| CapabilityVerifier.EarlyFaultExactly | crates/nexus-auth/src/verifier.rs:84-125 | the checks before the replay cache pass if and only if schema, target, time and protocol are right, and otherwise the first fault is reported |
| CapabilityVerifier.ResultsAreExact | crates/nexus-auth/src/verifier.rs:84-155 | after any calls at nondecreasing times the next succeeds if and only if the capability is acceptable, unused by the rule over everything admitted before, and signed; replay and bad signature are reported exactly when they apply |
| CapabilityVerifier.SuccessesAreFarApart | crates/nexus-auth/src/verifier.rs:84-155 | on any run, two successes with one nonce are at least the time to live apart |
| CapabilityVerifier.ShortTtlAllowsReuse | crates/nexus-auth/src/verifier.rs:99-128 | when the window does not fit the time to live, the first and last instants of the window both verify |
| CapabilityVerifier.SingleUseExactly | crates/nexus-auth/src/verifier.rs:84-155 | on all runs whose clocks advance together a capability verifies at most once if and only if its inclusive window fits the time to live |
| Nv12.LayoutLength | platform/windows/src/codec.rs:313-334 | the lengths of a layout are those of its rows, and the output is no longer than the BGRA buffer |
| Nv12.PixelOffsetFits | platform/windows/src/codec.rs:309-341 | once a layout exists, every byte of a pixel lies in the BGRA buffer, whose length fits 64 bits |
| Nv12.LumaOffsetFits | platform/windows/src/codec.rs:309-347 | every luma offset lies in the luma plane |
| Nv12.ChromaOffsetFits | platform/windows/src/codec.rs:463-481 | every chroma row lies behind the luma plane and in the output |
| Nv12.RowsAt | apps/nexus-client/src/decoder.rs:234-248 | every sample of the tight copy is the visible sample of the same row and column |
| Nv12.RowsRecover | apps/nexus-client/src/decoder.rs:234-248 | the copy equals a picture if and only if the surface shows that picture, whatever the padding holds |
| Nv12.CopyPlane | platform/windows/src/codec.rs:405-418 | one plane loop extends the copy by its rows, in order |
| Nv12.CopyPitchedNv12 | platform/windows/src/codec.rs:386-420 | the host's copy: each error condition, and the packed rows of both planes |
| Nv12.RepackNv12 | apps/nexus-client/src/decoder.rs:210-249 | the client's copy: each error condition, and the packed rows of both planes |
| Nv12.HostAndClientAgree | platform/windows/src/codec.rs:386-420 | within the client's limits both accept the same surfaces, produce the same buffer of the layout's length, and stay within 64 MiB |
| Nv12.LayoutExactly | platform/windows/src/codec.rs:313-334 | a layout exists if and only if both dimensions are even and not zero and the bytes can be counted |
| Nv12.CopiesExactly | platform/windows/src/codec.rs:386-420 | either copy is made if and only if the rows of both planes fit the surface, and each error is the one that applies |
| ColorConversion.LumaIsClose | platform/windows/src/codec.rs:452-461 | the luma of any pixel is within one step of its BT.601 value and within 16..235, so clamping never changes it |
| ColorConversion.DifferenceIsClose | platform/windows/src/codec.rs:473-474 | either colour difference of any pixel is within one step of its BT.601 value and within 16..240, and neutral for every grey |
| ColorConversion.BlockSums | platform/windows/src/codec.rs:465-476 | the inner loops add up both differences over exactly the two-by-two block |
| ColorConversion.Convert | platform/windows/src/codec.rs:441-484 | each error condition, and the NV12 buffer of the frame, whose samples the next rows determine |
| ColorConversion.ConvertedLength | platform/windows/src/codec.rs:313-334 | a converted frame fills exactly the buffer the layout prescribes |
| ColorConversion.ConvertsExactly | platform/windows/src/codec.rs:441-451 | a frame is converted if and only if it is BGRA, has the bytes its dimensions call for, and both are even; each error is the one that applies |
| ColorConversion.PixelBytes | platform/windows/src/codec.rs:452-458 | a pixel is its blue, green and red bytes, in this order, at its place in the buffer |
| ColorConversion.LumaOfPixel | platform/windows/src/codec.rs:452-461 | each luma sample is its own pixel's, within one step of that pixel's BT.601 luma |
| ColorConversion.ChromaOfBlock | platform/windows/src/codec.rs:463-481 | each chroma pair is where NV12 puts it and averages the BT.601 blue and red differences of its own two-by-two block up to rounding, neutral for a grey one |
| EncoderScheduler.AsyncInputScheduler.ObserveEvent | platform/windows/src/codec.rs:54-73 | counts a credit or an output event up to eight, and refuses the ninth without change |
| EncoderScheduler.AsyncInputScheduler.EnqueueInput | platform/windows/src/codec.rs:132-138 | queues an input up to eight, and refuses the ninth without change |
| EncoderScheduler.AsyncInputScheduler.TakeReadyInput | platform/windows/src/codec.rs:140-145 | takes a credit and the oldest input together or neither |
| EncoderScheduler.AsyncInputScheduler.TakeOutputEvent | platform/windows/src/codec.rs:95-103 | takes one announced output if there is one |
| EncoderScheduler.AsyncInputScheduler.SubmitCreditedInputs | platform/windows/src/codec.rs:960-974 | the submission loop takes exactly what the transition says, gives the transform all of it but an input whose keyframe request failed, and reports a failure; how a pass ends may depend on the pass as well as on the input |
| EncoderScheduler.SubmitTakesPrefix | platform/windows/src/codec.rs:960-974 | a submission takes a prefix of the queue, one credit each, and without a failure until credits or inputs run out |
| EncoderScheduler.SubmitStopsAtFailure | platform/windows/src/codec.rs:960-974 | every pass went through, except the last of a submission that failed, which ended as reported |
| EncoderScheduler.EveryRunIsAccounted | platform/windows/src/codec.rs:42-154 | on every run nothing is lost or reordered, credits are requests minus inputs taken, all taken reach the transform but for failed keyframe requests, and every count stays within eight |
| EncoderScheduler.SubmissionCatchesUp | platform/windows/src/codec.rs:960-974 | after a submission without failure the oldest inputs have been taken, as many as were requested or as there are, and have all reached the transform unless a keyframe request ever failed |
| EncoderScheduler.RefusalsAreExact | platform/windows/src/codec.rs:54-138 | an event or input is refused if and only if eight of its kind are there already |
| EncoderScheduler.DrainIsReported | platform/windows/src/codec.rs:42-154 | on every run a drain is reported exactly when it was seen to complete since the last report |
| InputController.CheckLimits | apps/nexus-client/src/input.rs:65-86 | accepts exactly capacities in 1..1024 and rates in 1..4096 |
| InputController.Controller.SetFocused | apps/nexus-client/src/input.rs:88-92 | changes the focus unless shut down |
| InputController.Controller.ExpireNow | apps/nexus-client/src/input.rs:98-102 | shuts down, drops the focus and every pending control |
| InputController.Controller.ClearPendingControls | apps/nexus-client/src/input.rs:110-113 | drops pending controls and the limiter's history |
| InputController.Controller.Handle | apps/nexus-client/src/input.rs:121-142 | performs the event transition |
| InputController.Controller.Enqueue | apps/nexus-client/src/input.rs:144-175 | the checks in their order with the pruning loop; only an accepted input is queued and remembered |
| InputController.Controller.NextControl | apps/nexus-client/src/input.rs:177-179 | returns the oldest control, if any |
| InputController.LimiterDecidesLikeHistory | apps/nexus-client/src/input.rs:144-175 | an input is accepted if and only if the window is focused, there is room, the encoding fits, and fewer than the limit of all inputs accepted since the last clear are under a second old |
| InputController.RefusalsAreExact | apps/nexus-client/src/input.rs:144-175 | a refused input is refused for the first reason that applies |
| InputController.EveryWindowIsLimited | apps/nexus-client/src/input.rs:144-175 | on every run, of the inputs accepted since the last clear no second wherever it starts holds more than the limit, controls come out once each in order, and the queue stays within capacity |
| InputBursts.EveryWindowAcrossClears | apps/nexus-client/src/input.rs:110-175 | on every run, of all inputs ever accepted no second wherever it starts holds more than the limit for each clear in it and once more |
| InputBursts.BoundIsReached | apps/nexus-client/src/input.rs:110-175 | for every valid limit and number of clears, a run accepts that whole bound at a single instant |
| InputController.FocusFollowsEvents | apps/nexus-client/src/input.rs:88-142 | on every run the controller is focused exactly as the last focus event or focus call said, and never after shutdown |
| InputController.ShutdownIsFinal | apps/nexus-client/src/input.rs:98-142 | once shut down, whatever follows, no event is accepted and no control comes out |
| InputController.ShutdownExactly | apps/nexus-client/src/input.rs:98-142 | on every run the controller is shut down if and only if the window was closed or it was expired |
| InputController.EventsAreTaken | apps/nexus-client/src/input.rs:121-142 | events are refused as shut down exactly after shutdown, and before it only inputs can be refused |
| InputController.NextControlExactly | apps/nexus-client/src/input.rs:177-179 | on every run until shutdown the next control is the oldest accepted one still in, and there is one exactly while any is |
| ControlEvents.ControlEventQueue.PushEvent | apps/nexus-client/src/window.rs:120-168 | performs the push transition |
| ControlEvents.ControlEventQueue.PopEvent | apps/nexus-client/src/window.rs:170-172 | returns the oldest event, if any |
| ControlEvents.PushKeepsClose | apps/nexus-client/src/window.rs:120-168 | a push never removes a queued close and never moves it back |
| ControlEvents.PushIsBounded | apps/nexus-client/src/window.rs:120-168 | the queue never exceeds four events, and pushing a close leaves one queued |
| ControlEvents.PushKeepsOrder | apps/nexus-client/src/window.rs:120-168 | events keep their order, a push adds nothing but its own event, and with room left nothing but a focus notice displaces anything |
| ControlEvents.FocusLands | apps/nexus-client/src/window.rs:120-168 | a focus notice is queued if and only if the queue is not filled with four closes |
| ControlEvents.FullQueueDropsFocus | apps/nexus-client/src/window.rs:120-168 | in a full queue the oldest focus notice gives way to anything else |
| ControlEvents.FullQueueDropsEvent | apps/nexus-client/src/window.rs:120-168 | without one, a disposable event is dropped, and so is a close when one is queued |
| ControlEvents.FullQueueDropsOldest | apps/nexus-client/src/window.rs:120-168 | any other close or focus notice displaces the oldest event that is not a close |
| ControlEvents.CloseIsDelivered | apps/nexus-client/src/window.rs:120-172 | in any interleaving, four pops after a close was pushed have returned it |
| ControlEvents.OnlyNewestFocusWaits | apps/nexus-client/src/window.rs:120-172 | in any interleaving at most one focus notice waits, and it is the newest pushed |

## Left out

- Reconnect.ReconnectWithRetry: is stated for the sessions whose loop ends; `Reconnect.LoopEndsExactly` proves that the others, which could reconnect even in the last representable second, are exactly those that may retry for ever.
- AuditChain.VerifyChain: assumes no more than 2^64 - 1 events, which no slice can exceed; AuditChain.AuditChain.AppendEvent likewise stops before the sequence number would overflow.
- NativePipeline.EveryInterleavingIsSafe: the generation counter is unbounded, so its 64-bit wrap-around is not modelled; neither are the sizes of the command channel and the errors of a full one.
- Streamer.HostRunIsTranscript: takes increasing frame ids from the capture side as given.
- InputController.Controller.Enqueue: clamping to the monitor and protobuf encoding enter as the encoded bytes or a failure; monitor validation is not part of this model.
- CapabilityVerifier.Verifier.VerifyCapability: schema validation and the Ed25519 check enter as their outcomes, and messages carry no text.
- Nv12.CopyPlane: the two copies of the source are written once and called for each plane with the source's offsets.
- Session claims: identity comparison, well-formedness and the two signatures are outcomes; only their order and the time checks are modelled.
- Policy selectors and conditions: labels are matched as in the source; parsing of address ranges is a parameter, and denial texts are not modelled.
- Control messages other than the typed envelope; decoding and validating a cursor position or shape once its envelope has been read.
- Mutex poisoning, channel disconnection and the ordinary event channel of the window.
- Media Foundation and Direct3D calls, the GPU converter, output collection, worker lifetime and reaping.
- QUIC transport, relay, signalling, the control-plane server, the agents and the web console.
- Key agreement, key derivation and signatures: they would add only calls to library primitives.
