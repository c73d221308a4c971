# Verification of the video server

A Dafny model of the encoded-delivery path of the video server and of what feeds it, with proofs
of what its parts promise. `dafny verify dfyconfig.toml` checks the whole project.

## What is modelled

| modules | part of the server |
|---|---|
| `AnnexB`, `AnnexBRoundTrip` | the Annex B byte stream (section B.1 of ITU-T H.264): splitter, descriptor and the raw pipeline's scanner |
| `Rtp` | RTP header, single NAL unit packets and FU-A fragments, and a strict receiver to compare with |
| `Sender`, `SenderSafety`, `SenderCounts`, `SenderEffects`, `SenderObject` | the H.264 sender: retained configuration and IDR units, the gate on track state, the startup sequence, the sends, the counters |
| `Handoff` | the bounded, keyframe-preserving queue between encoder and API side |
| `Scheduler`, `ManagedServer`, `Fairness`, `StreamGroups`, `Shutdown` | the managed server: capped round-robin stepping, stream registration, exclusive groups, the shutdown protocol |
| `Throttle`, `CoreServer`, `FrameSlots`, `PublishedFrames` | the frame-rate throttles, the core server's frame path, the managed server's pending slot |
| `RateLimiter`, `Signaling` | request windows; signaling slots, session ids and early candidates |
| `PixelFormats`, `RawImages`, `StoredFrames`, `Statistics`, `DisplayTransform` | input contracts of raw frames and the bytes they are stored in, luminance statistics, rotation, mirror, resampling and the grey fast path |
| `Bytes`, `Division` | octets, integer widths and small facts about quotients |

Where the C++ code updates state in place, the model is a class whose methods keep its branches and
loops; each method is proved against a function or a step of a state machine, and the properties over whole
runs are lemmas about that machine. One locked region is one step.

The sender is one producer. A call is a locked decision, an unlocked send and a locked commit or
failure mark; teardown, renegotiation and any track state may fall between these steps, and each
packet may be delivered, may throw, or may find the track closed. The object's methods are proved to take
exactly the machine's steps (`SenderObject.CallIsRun`).

Integer widths matter in places and are written out: RTP sequence numbers and timestamps, row sizes,
resampling products, throttle sums and percentile ranks wrap as in the code. Bit masks are stated as
division and remainder. Floating-point values are exact reals.

## Where the code is less than it seems

Each of these has an exact condition, or a lemma about every run, and where it helps a concrete input.

- A unit that ends in 00 in front of a 3-byte start code loses that byte in the split (`AnnexBRoundTrip.RoundTrip`).
- The descriptor misses a NAL unit that is sent where it stops at a start code that a 3-byte code directly follows
  (`AnnexB.ScanIsSplit`, `AnnexB.AdjacentCodesHideNal`), and its fallback can claim an IDR slice that is not sent
  (`AnnexB.DescribedButNotCarried`, `AnnexB.FallbackIdrIsNotSent`). "IDR unit" in the sender means what the descriptor
  says; for units that begin with a start code that is a slice that is sent (`AnnexB.DescribedIsCarried`).
- RTP timestamps are wrong from the first timestamp whose 64-bit product wraps on (`Rtp.TimestampExact`).
- A first unit with sequence id 0 counts as a repeat (`SenderSafety.RepeatsAreDropped`), and at startup a unit that
  shares the sequence id of the retained IDR unit is left out (`SenderSafety.PlanContents`).
- A commit that overtakes a teardown leaves the delivery flag of the inactive session raised (`SenderSafety.TeardownHoldsExactly`, `SenderSafety.TeardownIsOvertaken`).
- A stream that fails on every step keeps all streams behind it from progressing (`Scheduler.ServedExactly`,
  `Fairness.TakenExactly`); an encoder that refuses every frame does so (`Fairness.RefusedEncoderStarvesOthers`).
- A registration that the core server refuses leaves its id in the stream order (`ManagedServer.RegistrationKeepsOrder`,
  `ManagedServer.StaleIdIsSweptTwice`), and a configured id that is repeated stands there twice (`ManagedServer.ConfiguredOrder`).
- Registration does not limit the width, and validation compares the stride with a 32-bit row size that may wrap. The stored copy of
  a frame that passes is too short for statistics and transform exactly when width times bytes per pixel reaches 2^32
  (`RawImages.StoredFrameIsReadable`, `RawImages.WrappedRowPassesValidation`, `StoredFrames`).
- The grey fast path computes column offsets in 32 bits. From a width of 1431655766 on the last columns overwrite the first ones and keep
  their initial 0 (`DisplayTransform.FastPathIsGeneralPath`, `StoredFrames.ShownExactly`, `StoredFrames.WideGreyFrame`).
- A throttle bound that exceeds 64 bits lets the next frame through too early (`Throttle.BoundHoldsUnlessItWraps`, `Throttle.KeptAreSpaced`).
- Candidates taken from the queue by an offer that is then refused are lost (`Signaling.RefusedOfferLosesQueue`, `Signaling.EarlyCandidateIsLost`).
- The rate limiter lets almost twice its limit through within one window span (`RateLimiter.BoundIsReached`).
- `include/video_server/stream_output_config.h:16` says that the mirror option mirrors the output
  horizontally. The code mirrors source columns, which at 90 and 270 degrees turns the output upside down
  (`DisplayTransform.MirrorFlipsSourceColumns`). The model follows the code.

## Model

| member | source | states |
|---|---|---|
| `SenderSafety.DecoderSafeStart` | src/webrtc/webrtc_stream.cpp:539-692 | In every run, whatever units arrive, however the track opens, closes or throws and whenever the session is torn down: a packet outside a startup sequence is preceded by one call that handed over, without a failure, every packet of an admitted configuration unit and then every packet of an admitted IDR unit; that call is the packet's own or a committed one |
| `SenderSafety.GateExplained` | src/webrtc/webrtc_stream.cpp:445-528 | In every run the verdict on a new unit depends only on the track and on the units admitted so far: the arm taken is track missing, no configuration ever, no IDR ever, track not open, or sending, in that order; a unit that passes works from the newest configuration and the newest IDR unit |
| `SenderEffects.AdmissionExplained` | src/webrtc/webrtc_stream.cpp:435-528 | In every run what an admitted unit does: the flags about the track as observed, which one of the skip counters rises, and a payload type from the last negotiation, 102 if that is not positive or never happened |
| `SenderEffects.NotAdmittedExplained` | src/webrtc/webrtc_stream.cpp:426-450 | What a unit does that repeats the last id or meets an inactive session |
| `SenderEffects.RejectionExplained` | src/webrtc/webrtc_stream.cpp:394-407 | Invalid units change nothing, units of another codec or without bytes only the failed counter and the state label |
| `SenderEffects.SendFailureExplained` | src/webrtc/webrtc_stream.cpp:621-675 | In every run, a track found closed makes no packet, a send that throws leaves one undelivered, and either ends the call with exactly one failure counted as closed track or failed send, or as lost on an inactive session |
| `SenderEffects.ClosedBeforeSendExplained` | src/webrtc/webrtc_stream.cpp:545-552 | The same for a track found closed before the first packet |
| `SenderEffects.InjectionsAreCounted` | src/webrtc/webrtc_stream.cpp:681-691 | In every run startup injections are the first committed call and those for an IDR unit without configuration; the sender has started exactly when a call was committed; a keyframe was seen exactly when one was admitted |
| `SenderEffects.CommitExplained` | src/webrtc/webrtc_stream.cpp:677-693 | What a commit shows of link and delivery, and what it leaves |
| `SenderEffects.TeardownExplained` | src/webrtc/webrtc_stream.cpp:714-726 | What a teardown clears and what it keeps |
| `SenderEffects.KindsByContent` | src/webrtc/webrtc_stream.cpp:410-412 | In units that begin with a start code and lose nothing in the descriptor, configuration, IDR and non-IDR slices are NAL units of types 7 and 8, 5, and 1 that are really sent |
| `SenderSafety.GateIsExact` | src/webrtc/webrtc_stream.cpp:484-518 | With consistent cache flags the last arm is taken exactly when the unit is to be sent, the arm that waits for a startup IDR is never taken, and what passes has both cached units |
| `SenderSafety.GateIsExactAlways` | src/webrtc/webrtc_stream.cpp:482-528 | In every reachable state the two "started" flags are equal and imply both cached units, should_send holds exactly in the last arm, and every unit that passes has a plan, so the early return at line 598 is dead |
| `SenderSafety.DecideEffect` | src/webrtc/webrtc_stream.cpp:426-528 | Which counters, flags and ticket each arm of the locked decision leaves, and that it keeps the cache consistent and starts nothing |
| `SenderSafety.TicketHasPlan` | src/webrtc/webrtc_stream.cpp:564-604 | A ticket from a consistent state always yields a plan, and the plan starts the sender unless it is started |
| `SenderSafety.PlanShape` | src/webrtc/webrtc_stream.cpp:564-604 | A plan is not empty, holds no empty NAL unit, and when a startup is required it begins with exactly the cached configuration and then the cached IDR unit |
| `SenderSafety.PlanContents` | src/webrtc/webrtc_stream.cpp:561-604 | The exact NAL list of every call and how many of it count as startup: a started sender sends the unit, an IDR unit without configuration behind the newest configuration; an unstarted one sends newest configuration and newest IDR unit, then the unit once unless it is the IDR unit or has its id; a configuration unit goes again only if it holds a non-IDR slice; a unit that is both goes twice |
| `SenderSafety.CompletedCallArrives` | src/webrtc/webrtc_stream.cpp:561-663 | In every run, a completed call made exactly as many packets as its NAL units take; exactly the last is marked, those of the startup NAL units count as startup, and they have the payload type of the decision, the sender's source, the unit's timestamp and consecutive numbers; a receiver reads the headers back exactly when the payload type is below 128, and rebuilds exactly the list that newest configuration, newest IDR unit and the unit call for, if it can carry it |
| `SenderSafety.StartupReachesReceiver` | src/webrtc/webrtc_stream.cpp:564-604 | In every run, the startup behind a packet: a receiver of its packets rebuilds the NAL units of both units exactly when it can carry them, and one of these is an IDR slice exactly unless only the first byte of the IDR unit said so, which is impossible when that unit begins with a start code |
| `SenderSafety.PacketsAreNumbered` | src/webrtc/webrtc_stream.cpp:621-661 | In every run the n-th packet made has sequence number n mod 2^16, across calls and failures, a payload of 1 to 1200 bytes, the sender's source, and the RTP timestamp of the unit its call was made for |
| `SenderSafety.CallMarksLastPacket` | src/webrtc/webrtc_stream.cpp:612-657 | Of the packets planned for one call exactly the last is marked |
| `SenderCounts.SenderAccounting` | src/webrtc/webrtc_stream.cpp:445-711 | In every run delivered units are the admitted ones, and are skipped, committed, failed, found inactive or in flight; packets_attempted is exactly the number of packets made by committed calls and startup_packets_sent the startup ones among them; failures split into closed tracks and failed sends; the first decodable transition happens once |
| `SenderCounts.CommitAddsItsPackets` | src/webrtc/webrtc_stream.cpp:677-691 | Committing a call adds to both counts exactly the packets that this call made |
| `SenderCounts.StepKeepsCounts` | src/webrtc/webrtc_stream.cpp:385-832 | Every step keeps the packet counters equal to the packets of committed calls |
| `SenderSafety.RepeatsAreDropped` | src/webrtc/webrtc_stream.cpp:445-468 | In every run a unit offered to an active session is admitted exactly when its id differs from that of the last admitted unit, which counts as 0 before the first; otherwise nothing changes but the repeat counter |
| `SenderSafety.DeliveryFlagOfInactive` | src/webrtc/webrtc_stream.cpp:426-434 | What each step does to the delivery flag of an inactive session: a commit raises it, a teardown, a failure mark and an accepted offer clear it, and nothing else changes it |
| `SenderSafety.TeardownHoldsExactly` | src/webrtc/webrtc_stream.cpp:677-726 | In every run a teardown keeps the delivery flag down in all continuations if and only if it falls between calls or after the failure of one |
| `SenderSafety.TeardownBetweenCallsHolds` | src/webrtc/webrtc_stream.cpp:714-726 | After such a teardown no event makes a packet or raises the delivery flag again |
| `SenderSafety.TeardownIsOvertaken` | src/webrtc/webrtc_stream.cpp:677-693 | For every unit that carries configuration and IDR there is a run in which a teardown during its call is followed by the commit, and the inactive session ends with the flag raised |
| `SenderSafety.StartupUnitExists` | src/webrtc/webrtc_stream.cpp:410-413 | A concrete unit of that kind |
| `SenderSafety.StepKeepsInv` | src/webrtc/webrtc_stream.cpp:385-832 | Every step of the machine (decision, recheck, each send, commit, failure mark, teardown, renegotiation) keeps the whole invariant |
| `SenderSafety.Reachable` | src/webrtc/webrtc_stream.cpp:385-832 | The invariant holds after any sequence of steps from a new sender |
| `SenderObject.H264EncodedVideoSender.constructor` | src/webrtc/webrtc_stream.cpp:382-383 | A new sender is the machine's start state |
| `SenderObject.H264EncodedVideoSender.SetNegotiatedH264Parameters` | src/webrtc/webrtc_stream.cpp:385-390 | Replaces the payload type and nothing else |
| `SenderObject.H264EncodedVideoSender.DeactivateSession` | src/webrtc/webrtc_stream.cpp:714-726 | Ends in the torn-down state of the machine; caches, flags, sequence number and counters stay |
| `SenderObject.H264EncodedVideoSender.RememberFresh` | src/webrtc/webrtc_stream.cpp:452-466 | Caches the unit under each kind it contains and refreshes the readiness flag |
| `SenderObject.H264EncodedVideoSender.EvaluateGate` | src/webrtc/webrtc_stream.cpp:489-528 | The six arms in order, each with its counter and state label |
| `SenderObject.H264EncodedVideoSender.AdmitFresh` | src/webrtc/webrtc_stream.cpp:452-537 | The whole decision on a unit that is not a repeat: cache, readiness, id, gate, counters and the copies taken for the send |
| `SenderObject.H264EncodedVideoSender.DecideLocked` | src/webrtc/webrtc_stream.cpp:426-537 | The first locked region equals the decision function of the machine, teardown and repeats included |
| `SenderObject.H264EncodedVideoSender.OfferLocked` | src/webrtc/webrtc_stream.cpp:426-537 | The first locked region is the machine's offer step, with the history of admitted units |
| `SenderObject.H264EncodedVideoSender.BuildPlan` | src/webrtc/webrtc_stream.cpp:560-604 | The chosen NAL units, startup count and startup flag equal the plan function on every ticket |
| `SenderObject.H264EncodedVideoSender.SendPiece` | src/webrtc/webrtc_stream.cpp:627-630 | Makes one packet, takes its sequence number before the send can throw, and is one send step of the machine |
| `SenderObject.H264EncodedVideoSender.SendFragments` | src/webrtc/webrtc_stream.cpp:635-661 | The FU-A loop makes exactly the send steps of that NAL unit's fragments, up to the first failure |
| `SenderObject.H264EncodedVideoSender.SendPackets` | src/webrtc/webrtc_stream.cpp:606-675 | The loop over NAL units makes exactly the send steps of the plan, and its two packet counts are those of the machine |
| `SenderObject.H264EncodedVideoSender.MarkTrackNotSendable` | src/webrtc/webrtc_stream.cpp:807-832 | The locked failure mark, including the early return of an inactive session |
| `SenderObject.H264EncodedVideoSender.RecordFailure` | src/webrtc/webrtc_stream.cpp:821-829 | Counts a failure once in total and once under closed tracks or failed sends |
| `SenderObject.H264EncodedVideoSender.CommitLocked` | src/webrtc/webrtc_stream.cpp:677-693 | The locked commit, which does not look at whether the session is active |
| `SenderObject.H264EncodedVideoSender.DeliverTicket` | src/webrtc/webrtc_stream.cpp:545-711 | The unlocked part of a call and its locked end |
| `SenderObject.H264EncodedVideoSender.OnEncodedAccessUnit` | src/webrtc/webrtc_stream.cpp:392-712 | A whole call on any unit: invalid, rejected, held back, failed or committed |
| `SenderObject.CallIsRun` | src/webrtc/webrtc_stream.cpp:392-712 | A whole call is a run of the machine, so what holds in every run holds of the object |
| `Rtp.MakePacket` | src/webrtc/webrtc_stream.cpp:259-277 | Twelve header octets followed by the payload unchanged |
| `Rtp.HeaderLayout` | src/webrtc/webrtc_stream.cpp:259-277 | Which octets hold version, marker, payload type, sequence number, timestamp and source, in network order (section 5.1 of RFC 3550) |
| `Rtp.HeaderRoundTrip` | src/webrtc/webrtc_stream.cpp:259-277 | A receiver reads back marker, payload type, sequence number, timestamp and source (section 5.1 of RFC 3550) exactly when the payload type is below 128 |
| `Rtp.TimestampExact` | src/webrtc/webrtc_stream.cpp:64-69 | For every 64-bit timestamp the 90 kHz value is exact if and only if the timestamp is at most (2^64-1)/90000 ns |
| `Rtp.TimestampBeyond` | src/webrtc/webrtc_stream.cpp:64-69 | Beyond it the value is that of the product with its whole turns of 2^64 taken off |
| `Rtp.PayloadsFit` | src/webrtc/webrtc_stream.cpp:606-663 | Every payload has 1 to 1200 bytes, and one that looks like a fragment with both S and E set is itself a NAL unit of the list |
| `Rtp.FragmentCut` | src/webrtc/webrtc_stream.cpp:635-655 | A NAL unit of more than 1200 bytes becomes the ceiling of (size-1)/1198 fragments; the k-th carries its bytes from 1+1198k on, with the NRI bits and type of the unit, S on the first and E on the last, and all but the last have exactly 1200 bytes |
| `Rtp.CallCut` | src/webrtc/webrtc_stream.cpp:606-663 | The payloads of a call: how many there are, and that each is a whole NAL unit of up to 1200 bytes or such a fragment of a longer one |
| `Rtp.FragmentsFit` | src/webrtc/webrtc_stream.cpp:635-655 | No fragment exceeds the limit or has both S and E set |
| `Rtp.FragmentsReassemble` | src/webrtc/webrtc_stream.cpp:635-655 | The fragments of a long NAL unit put it back together from any byte on (section 5.8 of RFC 6184) |
| `Rtp.PacketiseRoundTrip` | src/webrtc/webrtc_stream.cpp:606-663 | A strict depacketiser (sections 5.6 and 5.8 of RFC 6184) returns the NAL list exactly when every NAL unit is non-empty and is fragmented or of type 1 to 23 |
| `Rtp.PiecesCarryPayloads` | src/webrtc/webrtc_stream.cpp:606-663 | The packets of a call carry the payloads of its NAL units in order |
| `Rtp.OnlyLastIsMarked` | src/webrtc/webrtc_stream.cpp:612-657 | Exactly the last packet of a list of non-empty NAL units is marked |
| `Rtp.StartupIsPrefix` | src/webrtc/webrtc_stream.cpp:613-660 | The packets counted as startup are exactly those of the first startup NAL units |
| `AnnexBRoundTrip.RoundTrip` | src/webrtc/webrtc_stream.cpp:78-117 | Joining NAL units behind any mix of 3- and 4-byte start codes and splitting returns them exactly when none is empty, none contains a start code, and none that ends in 00 is followed by a 3-byte code |
| `AnnexBRoundTrip.SplitHead` | src/webrtc/webrtc_stream.cpp:82-110 | What the splitter cuts off first from joined units, including the trailing 00 that a 3-byte code takes away |
| `AnnexBRoundTrip.WellFramedSplits` | src/webrtc/webrtc_stream.cpp:78-117 | Well-framed units come back unchanged |
| `AnnexBRoundTrip.SplitsOnlyWellFramed` | src/webrtc/webrtc_stream.cpp:78-117 | Units that come back unchanged are well framed |
| `AnnexBRoundTrip.SliceCount` | src/webrtc/webrtc_stream.cpp:78-117 | Units without inner start codes never split into more pieces than there are units |
| `AnnexB.PipelinePrefixSize` | src/pipeline/raw_to_h264_pipeline.cpp:55-69 | The pipeline's start-code test, in the other order, gives the same size as the sender's at every offset |
| `AnnexB.SkipToStartCode` | src/webrtc/webrtc_stream.cpp:85-88 | The search loop stops at the first start code |
| `AnnexB.SplitAnnexBNalus` | src/webrtc/webrtc_stream.cpp:78-117 | The splitting loops terminate on every input and yield the specified slices, or the whole input when there is none |
| `AnnexB.SplitYieldsNoEmptyNal` | src/webrtc/webrtc_stream.cpp:104-115 | No NAL unit of a split is empty, for every input |
| `AnnexB.SplitSpansInBounds` | src/webrtc/webrtc_stream.cpp:82-110 | Every span lies in the input, is not empty, begins right after a start code and contains none |
| `AnnexB.InspectAccessUnit` | src/webrtc/webrtc_stream.cpp:1159-1243 | The descriptor's spans and flags, with its fallback for input without a recorded NAL unit |
| `AnnexB.ContainsNalType` | src/pipeline/raw_to_h264_pipeline.cpp:71-87 | For types 1 to 31 the pipeline's loop answers exactly whether the descriptor's scan records that type |
| `AnnexB.TypeFromIsScan` | src/pipeline/raw_to_h264_pipeline.cpp:71-87 | The same agreement from every position on |
| `AnnexB.TypeZeroDiffers` | src/pipeline/raw_to_h264_pipeline.cpp:71-87 | An input on which the two differ for type 0 |
| `AnnexB.ScanWithinSplit` | src/webrtc/webrtc_stream.cpp:1167-1228 | On every input each span the descriptor records is one the splitter cuts out |
| `AnnexB.ScanIsSplit` | src/webrtc/webrtc_stream.cpp:1167-1228 | The descriptor's spans are the splitter's if and only if the descriptor never stops at a start code that a three-byte code with a non-empty NAL unit directly follows |
| `AnnexB.ScanSplitsOrLoses` | src/webrtc/webrtc_stream.cpp:1167-1228 | From every position on: equal spans without such a place, and strictly fewer with one |
| `AnnexB.NoAdjacentCodesLosesNothing` | src/webrtc/webrtc_stream.cpp:1195-1199 | In particular the spans are equal when no start code directly follows another |
| `AnnexB.AdjacentCodesHideNal` | src/webrtc/webrtc_stream.cpp:1195-1199 | A concrete input on which the splitter sends an IDR slice that the descriptor does not see |
| `AnnexB.DescribedButNotCarried` | src/webrtc/webrtc_stream.cpp:1201-1240 | The descriptor flags a type that no split NAL unit has exactly when it recorded nothing, the splitter cut something out, and the type is that of the first byte and of no split NAL unit |
| `AnnexB.DescribedIsCarried` | src/webrtc/webrtc_stream.cpp:1201-1240 | In input that begins with a start code every flagged type but 0 is carried by a split NAL unit |
| `AnnexB.ScannedTypeIsSplit` | src/webrtc/webrtc_stream.cpp:1201-1219 | A type recorded by the scan is carried by one of the split NAL units |
| `AnnexB.FallbackIdrIsNotSent` | src/webrtc/webrtc_stream.cpp:1230-1240 | A concrete input for which the fallback claims an IDR slice that no split NAL unit carries |
| `Handoff.EncodedAccessUnitHandoff.constructor` | src/webrtc/encoded_access_unit_handoff.h:23 | Starts empty with room for at least one unit |
| `Handoff.EncodedAccessUnitHandoff.PushUnit` | src/webrtc/encoded_access_unit_handoff.h:25-63 | After every history of calls the backlog is the newest keyframe since the last drain or clear followed by the newest max-1 units after it (or the newest max units), and pushed = dropped + removed + waiting |
| `Handoff.EncodedAccessUnitHandoff.DrainUnits` | src/webrtc/encoded_access_unit_handoff.h:65-84 | Delivers that backlog, behind the cached configuration exactly when one is cached and a keyframe waits |
| `Handoff.EncodedAccessUnitHandoff.ClearUnits` | src/webrtc/encoded_access_unit_handoff.h:86-90 | Forgets backlog and configuration |
| `Handoff.WindowAfterPush` | src/webrtc/encoded_access_unit_handoff.h:33-62 | One push changes the backlog as it changes that window of the history |
| `Handoff.WindowKeyframe` | src/webrtc/encoded_access_unit_handoff.h:47-61 | A keyframe waits exactly when one was pushed, and then it is the newest one, in front |
| `Handoff.WindowIsRecent` | src/webrtc/encoded_access_unit_handoff.h:47-62 | What waits behind the keyframe are the newest units after it, in order, none of them a keyframe |
| `Handoff.WindowSize` | src/webrtc/encoded_access_unit_handoff.h:47-62 | How much waits: everything from the newest keyframe on, or everything, up to the capacity |
| `Handoff.DrainWithoutKeyframe` | src/webrtc/encoded_access_unit_handoff.h:65-84 | Without a keyframe a drain delivers the newest units up to the capacity and no configuration |
| `Handoff.DrainSize` | src/webrtc/encoded_access_unit_handoff.h:65-84 | With one it delivers as much as the capacity allows of the keyframe and what followed |
| `Handoff.SinceRemoval` | src/webrtc/encoded_access_unit_handoff.h:65-90 | After a drain or a clear the frame units that count are those pushed since, in order |
| `Handoff.ConfigIsKept` | src/webrtc/encoded_access_unit_handoff.h:27-31 | The configuration pushed last is kept over drains and frame units |
| `Handoff.ClearForgetsConfig` | src/webrtc/encoded_access_unit_handoff.h:86-90 | A clear forgets it until the next one is pushed |
| `Handoff.DrainStartsDecodable` | src/webrtc/encoded_access_unit_handoff.h:65-84 | For every history with a keyframe a drain is configuration (if cached), newest keyframe, then only newer units in order |
| `Scheduler.NoStarvation` | src/webrtc/managed_video_server.cpp:551-622 | With cap k and n unowned streams, a position before which none fails is visited within ceil(n/k) calls, or in one call without a cap |
| `Scheduler.ServedExactly` | src/webrtc/managed_video_server.cpp:551-622 | When the same positions fail on every call, enough calls visit exactly the positions with no failing one between the cursor and them |
| `Scheduler.SkippingBringsCloser` | src/webrtc/managed_video_server.cpp:582-615 | A call that passes a position over brings the cursor at least k positions closer to it, if none before it fails |
| `Scheduler.SweepCursor` | src/webrtc/managed_video_server.cpp:582-606 | Where a sweep leaves the cursor, and that it stops early only at the cap or at a failure |
| `Scheduler.CallExplained` | src/webrtc/managed_video_server.cpp:582-615 | A call progresses at most k streams, stops early only at the cap, and leaves the index right behind the last stream that progressed, or one further when none did |
| `Scheduler.FailureStarvesOthers` | src/webrtc/managed_video_server.cpp:594-599 | A position that fails on every call keeps every position behind it, seen from the cursor, from being visited, for any number of calls |
| `Scheduler.FailureBlocks` | src/webrtc/managed_video_server.cpp:594-615 | One call never gets past a failing position, and keeps it ahead of those behind it |
| `Fairness.NoStreamStarves` | src/webrtc/managed_video_server.cpp:551-622 | On the server's own maps: while the swept streams stay the same and none before it fails, a stream whose frame stays due has it taken within ceil(n/k) steps |
| `Fairness.FailingStreamStarves` | src/webrtc/managed_video_server.cpp:594-599 | On the maps: a stream that fails on every step keeps the frames of all streams behind it waiting |
| `Fairness.TakenExactly` | src/webrtc/managed_video_server.cpp:551-622 | When the same streams fail on every step, enough steps take the frame of a due stream if and only if no failing stream comes before it |
| `Fairness.RefusedEncoderStarvesOthers` | src/webrtc/managed_video_server.cpp:1190-1218 | From two new streams with one push each, when the encoder of the first refuses every frame and its producer keeps pushing, no number of steps takes the frame of the second |
| `Fairness.VisitTakesFrame` | src/webrtc/managed_video_server.cpp:585-606 | A due stream that a sweep visits ends the sweep with an empty slot, whatever the other streams do |
| `ManagedServer.ManagedVideoServer.constructor` | src/webrtc/managed_video_server.cpp:440-450 | Starts with a slot and a place in the order for each configured stream, index 0 and group id 1 |
| `ManagedServer.ConfiguredOrder` | src/webrtc/managed_video_server.cpp:446-449 | The configured order is exact if and only if no id is repeated |
| `ManagedServer.ManagedVideoServer.RegisterStream` | src/webrtc/managed_video_server.cpp:704-726 | Succeeds exactly for a new id when the server is not started or its core accepts the configuration; slots, order and core streams after success, refusal and repeat |
| `ManagedServer.ManagedVideoServer.RemoveStream` | src/webrtc/managed_video_server.cpp:728-763 | Refuses unknown and owned streams without effect, and otherwise removes every trace and brings the index into range |
| `ManagedServer.ManagedVideoServer.RegisterStreams` | src/webrtc/managed_video_server.cpp:636-664 | Equals the acquisition step of the group registry: all streams or none, and nothing else in a slot changes |
| `ManagedServer.ManagedVideoServer.ReleaseStreamGroup` | src/webrtc/managed_video_server.cpp:1264-1275 | Equals the release step: only streams that still carry the id are freed |
| `ManagedServer.ManagedVideoServer.ProcessStream` | src/webrtc/managed_video_server.cpp:1123-1249 | One frame step on the server's maps, every early return included |
| `ManagedServer.ManagedVideoServer.StorePending` | src/webrtc/managed_video_server.cpp:765-818 | The latest-wins slot, and one drop counted on every refusal |
| `ManagedServer.ManagedVideoServer.PushFrame` | src/webrtc/managed_video_server.cpp:765-834 | A push, followed by an API step and a frame step when stepping inline; a failing API step leaves the frame pending |
| `ManagedServer.ManagedVideoServer.CollectUnowned` | src/webrtc/managed_video_server.cpp:567-574 | The streams of the order that exist and belong to no group, in order |
| `ManagedServer.ManagedVideoServer.SweepUnowned` | src/webrtc/managed_video_server.cpp:582-606 | The loop of a step equals the specified sweep, stopping at the cap and at a failure |
| `ManagedServer.ManagedVideoServer.StepServer` | src/webrtc/managed_video_server.cpp:551-622 | A step equals one sweep from the stored index; a failing sweep leaves the index, a first API step that fails leaves everything, a second one fails after the sweep took effect |
| `ManagedServer.SweepMeetsOutcomes` | src/webrtc/managed_video_server.cpp:582-606 | On distinct ids every visited stream has the outcome it had when the sweep began |
| `ManagedServer.StepIsSweep` | src/webrtc/managed_video_server.cpp:551-615 | So the step on the maps moves the index as the abstract round-robin sweep does |
| `ManagedServer.DueStreamProgresses` | src/webrtc/managed_video_server.cpp:1139-1171 | A due stream that does not fail progresses and gives its frame up |
| `ManagedServer.FailureMeansRefusedOrLost` | src/webrtc/managed_video_server.cpp:1139-1218 | A frame step fails exactly when a frame waits and the core server does not know the stream, or the frame is due and transformable but the encoder refuses it |
| `ManagedServer.RegistrationKeepsOrder` | src/webrtc/managed_video_server.cpp:704-726 | The order lists exactly the registered streams after a registration if and only if the id was taken, the server is not started, or the id is new to the core server and the configuration valid |
| `ManagedServer.NewStreamsAreFresh` | src/webrtc/managed_video_server.cpp:704-726 | What a successful registration adds to the server and its core, and that it changes nothing else |
| `ManagedServer.StaleIdIsSweptTwice` | src/webrtc/managed_video_server.cpp:713-721 | On a started server a registration without a frame rate is refused and leaves its id in the order; registering the id again makes every step sweep it twice |
| `ManagedServer.RemovalKeepsOrder` | src/webrtc/managed_video_server.cpp:752-761 | A removal keeps the order exact |
| `ManagedServer.UnownedDistinct` | src/webrtc/managed_video_server.cpp:567-574 | An order without repeats is swept without repeats |
| `StreamGroups.OwnershipIsExclusive` | src/webrtc/managed_video_server.cpp:636-664 | In every run a stream carries a live group's id exactly when it is one of its streams, live groups are disjoint, and no group id is issued twice |
| `StreamGroups.ReleaseFreesExactlyItsStreams` | src/webrtc/managed_video_server.cpp:1264-1275 | In every run a release frees exactly the group's own streams; before it they cannot be removed, after it they can |
| `StreamGroups.AcquisitionIsAllOrNothing` | src/webrtc/managed_video_server.cpp:638-663 | A refused acquisition changes nothing and has a reason among empty, repeated, missing or owned; a granted one takes every named stream |
| `StreamGroups.DistinctBySize` | src/webrtc/managed_video_server.cpp:642-646 | The duplicate test by set size is exact |
| `StreamGroups.StepKeepsInv` | src/webrtc/managed_video_server.cpp:636-763 | Registration, removal, acquisition and release keep ownership exclusive |
| `Shutdown.ManagedServerAccess.EnterCall` | src/webrtc/managed_video_server.cpp:967-977 | The locked entry of a handle call, refused once the server is stopping |
| `Shutdown.ManagedServerAccess.LeaveCall` | src/webrtc/managed_video_server.cpp:978-986 | The locked exit |
| `Shutdown.ManagedServerAccess.BeginShutdown` | src/webrtc/managed_video_server.cpp:456-457 | The destructor's first act |
| `Shutdown.ManagedServerAccess.TryFinish` | src/webrtc/managed_video_server.cpp:467-470 | The wait condition and the withdrawal of the owner in one region |
| `Shutdown.ShutdownIsSafe` | src/webrtc/managed_video_server.cpp:452-472 | In every interleaving active_calls is the number of calls between entry and exit, the owner is present while any is, no handle has two calls in flight, and a call is turned away exactly when another is in flight on its handle |
| `Shutdown.EverythingWorksBeforeBegin` | src/webrtc/managed_video_server.cpp:967-977 | Until shutdown begins, in every run, every call that claimed its handle becomes active when it enters, free handles can be claimed, and a handle that goes away releases its group |
| `Shutdown.NothingStartsAfterBegin` | src/webrtc/managed_video_server.cpp:935-947 | Once shutdown has begun, in every continuation, no further call becomes active and no further group is released |
| `Shutdown.FlagsFollowCalls` | src/webrtc/managed_video_server.cpp:953-963 | A handle's stepping flag is set exactly while one call is in flight on it |
| `Shutdown.WaitShrinks` | src/webrtc/managed_video_server.cpp:467-469 | Once shutdown has begun every exit and every evaluation of the wait condition brings the end closer, and nothing but a spurious wakeup puts it off |
| `Shutdown.WaitIsBounded` | src/webrtc/managed_video_server.cpp:467-469 | So over any schedule exits and evaluations are bounded by what was left plus the spurious wakeups |
| `Shutdown.WaitIsNeverStuck` | src/webrtc/managed_video_server.cpp:467-469 | In every reachable state before the end of the wait an evaluation or the exit of an active call is possible |
| `Shutdown.NoLostWakeup` | src/webrtc/managed_video_server.cpp:978-986 | A sleeping destructor always has an active call, whose exit wakes it |
| `Shutdown.LastExitLetsTheDestructorFinish` | src/webrtc/managed_video_server.cpp:467-470 | After the last exit the next evaluation withdraws the owner |
| `Throttle.IntervalBounds` | src/core/video_server_core.cpp:132-133 | For the rates a configuration may ask for the interval is between 8333333 and 10^9 ns, so never 0 |
| `Throttle.IntervalIsNearest` | src/core/video_server_core.cpp:132-133 | For every rate the interval is within half a nanosecond of a second divided by it |
| `Throttle.FpsFilter.ShouldDropFrame` | src/pipeline/raw_to_h264_pipeline.cpp:1092-1104 | The pipeline's verdict and the bound it leaves |
| `Throttle.FpsFilter.Run` | src/pipeline/raw_to_h264_pipeline.cpp:1092-1104 | A run of the pipeline's throttle keeps exactly the frames that the core throttle keeps |
| `Throttle.SameFramesKept` | src/core/video_server_core.cpp:130-140 | For the same interval the two throttles keep the same frames, from any state |
| `Throttle.KeptAreSpaced` | src/core/video_server_core.cpp:130-140 | From any state, kept frames are at least one interval apart if and only if no bound but the last one set exceeds 64 bits |
| `Throttle.SpacedAreAllKept` | src/core/video_server_core.cpp:130-140 | Frames that are already an interval apart are all kept |
| `Throttle.NoIntervalKeepsAll` | src/pipeline/raw_to_h264_pipeline.cpp:1094-1097 | Without an interval the pipeline keeps every frame |
| `Throttle.KeptAreMost` | src/core/video_server_core.cpp:130-140 | From any state and for non-decreasing timestamps no choice of frames with that spacing is longer, wrapped bounds or not |
| `Throttle.ThrottleIsOptimal` | src/core/video_server_core.cpp:130-140 | Both for a whole run |
| `Throttle.BackwardJumpIsNotOptimal` | src/core/video_server_core.cpp:134-138 | A family of runs with a timestamp that jumps back, in which fewer frames are kept than possible |
| `Throttle.BoundHoldsUnlessItWraps` | src/core/video_server_core.cpp:134-139 | For every timestamp and interval the bound holds earlier frames back, in core and pipeline, if and only if its sum does not exceed 64 bits |
| `PublishedFrames.ServersPublishTheSame` | src/core/video_server_core.cpp:130-151 | Under one configuration and the same pushes, valid or not, the core server and the managed server stepping inline publish the same outputs: all valid frames without a frame rate; with one, the kept frames, spaced exactly when no bound but the last wraps and as many as possible for non-decreasing timestamps; all valid frames if these are 10^9/fps + 1 ns apart; and frames at least 10^9/fps - 1 ns apart if no bound wraps |
| `PublishedFrames.CorePublishesKept` | src/core/video_server_core.cpp:99-153 | From any reachable state and for any pushes a core stream publishes, of the valid frames, exactly those its throttle keeps, each under the configuration in force |
| `PublishedFrames.ManagedPublishesKept` | src/webrtc/managed_video_server.cpp:1153-1170 | From any reachable state and for any pushes the managed server stepping inline publishes, of the valid frames, exactly those its due time admits |
| `CoreServer.CoreConservation` | src/core/video_server_core.cpp:99-153 | In every run pushes = received + rejected = published + dropped, received are exactly those that meet the input contract; the published outputs show frames that were pushed and valid, in the order of the pushes, each at most once |
| `CoreServer.ConfigurationStartsAfresh` | src/core/video_server_core.cpp:365-391 | In every run a refused configuration changes nothing; an accepted one raises the generation and hides the published frame, and the next valid frame is published under it whatever its timestamp |
| `CoreServer.OutputLimits` | src/core/video_server_core.cpp:365-375 | Which configurations are accepted, in numbers |
| `CoreServer.ValidationCodes` | src/core/video_server_core.cpp:221-255 | Which refusal a frame gets |
| `CoreServer.PushKeepsInv` | src/core/video_server_core.cpp:99-153 | A push keeps that balance and order, never fails the transform, and succeeds exactly on frames that meet the input contract |
| `CoreServer.Validation` | src/core/video_server_core.cpp:221-255 | Validation succeeds exactly on frames that meet the input contract |
| `CoreServer.VideoServerCore.RegisterStream` | src/core/video_server_core.cpp:62-87 | Which configurations are accepted, and the fresh stream that results |
| `CoreServer.VideoServerCore.RemoveStream` | src/core/video_server_core.cpp:89-97 | Removes the stream, or reports that it is missing |
| `CoreServer.VideoServerCore.ValidateRawFrameInput` | src/core/video_server_core.cpp:203-256 | The verdict on a frame, without effect |
| `CoreServer.VideoServerCore.NoteFrameReceived` | src/core/video_server_core.cpp:272-292 | Counts a measurable frame on a known stream |
| `CoreServer.VideoServerCore.NoteFrameDropped` | src/core/video_server_core.cpp:294-305 | Counts a drop on a known stream |
| `CoreServer.VideoServerCore.PublishTransformedFrame` | src/core/video_server_core.cpp:307-340 | Publishes and counts on a known stream |
| `CoreServer.VideoServerCore.SetStreamOutputConfig` | src/core/video_server_core.cpp:365-391 | Accepts exactly valid configurations, raises the generation, and forgets the throttle bound and the latest frame |
| `CoreServer.VideoServerCore.PushFrame` | src/core/video_server_core.cpp:99-153 | Validation, measurement, throttle, transform and publication equal the specified step on the stream |
| `FrameSlots.ManagedConservation` | src/webrtc/managed_video_server.cpp:765-834 | In every sequential run pushes = received + rejected = published + dropped + pending + taken by a failing step, received are exactly the valid ones; the published outputs show pushed, valid frames in the order of the pushes, each at most once; the pending frame is that of the newest accepted push |
| `FrameSlots.DueAfterStep` | src/webrtc/managed_video_server.cpp:1153-1170 | When the frame after one that a step took is due, under any later configuration |
| `FrameSlots.PushKeepsSlotInv` | src/webrtc/managed_video_server.cpp:765-818 | A push keeps balance and order, and a frame that meets the input contract replaces the pending one |
| `FrameSlots.ProcessKeepsSlotInv` | src/webrtc/managed_video_server.cpp:1139-1227 | A frame step keeps it and never drops the pending frame in the transform |
| `PixelFormats.ValidInputSuffices` | src/core/video_server_core.cpp:221-255 | A frame that passes validation passes the checks of storage, statistics and transform at every valid rotation |
| `PixelFormats.FormatTable` | src/core/video_pixel_format_utils.cpp:13-24 | Row sizes, largest samples and kinds of the ten formats |
| `PixelFormats.FourRotations` | src/transforms/display_transform.cpp:196-200 | The accepted rotations |
| `RawImages.PixelLayout` | src/core/raw_frame_statistics.cpp:70-88 | Where the bytes of a pixel lie |
| `RawImages.SampleLayout` | src/transforms/display_transform.cpp:249-275 | The order of the colours in a pixel and of the bytes in a grey sample |
| `RawImages.StoredFrameIsReadable` | src/core/video_pixel_format_utils.cpp:112-137 | The stored copy of a frame that passed validation covers every byte read from it if and only if its row size fits 32 bits |
| `RawImages.WrappedRowPassesValidation` | src/core/video_server_core.cpp:221-255 | A frame with a wrapped row size that passes validation and whose stored copy is too short |
| `RawImages.LastPixelDecides` | src/core/raw_frame_statistics.cpp:70-73 | All pixels of a frame can be read exactly when the last one can |
| `StoredFrames.TransformStored` | src/webrtc/managed_video_server.cpp:1173-1179 | The transform of a stored valid frame stays within the stored bytes if and only if the rotation is valid and the row size fits 32 bits; it then shows the specified picture unless the fast path wraps, where its bytes are those of the wrapped offsets |
| `StoredFrames.ShownExactly` | src/webrtc/managed_video_server.cpp:1173-1179 | Every stored copy of a valid frame is shown right if and only if the row size fits 32 bits and the frame does not take the fast path with a width beyond 2^32/3 |
| `StoredFrames.WideGreyFrame` | src/transforms/display_transform.cpp:54-57 | The narrowest grey frame that passes validation and for which the fast path wraps |
| `StoredFrames.MeasureStored` | src/core/video_server_core.cpp:272-292 | The same for its statistics |
| `StoredFrames.StoredCopiesAreReadable` | src/webrtc/managed_video_server.cpp:776-792 | In every run this decides it for the frames a stream holds or has published, from the stream's format alone |
| `RateLimiter.RequestLimiter.ConsumeRateLimit` | src/webrtc/webrtc_video_server.cpp:1342-1363 | One request on its bucket; other buckets do not change, and a zero limit or window admits everything |
| `RateLimiter.AtMostTwiceTheLimit` | src/webrtc/webrtc_video_server.cpp:1347-1363 | Over any run of a monotone clock, any half-open interval of one window span holds at most 2*limit-1 accepted requests |
| `RateLimiter.RefusedOnlyWhenFull` | src/webrtc/webrtc_video_server.cpp:1352-1363 | After any run of a monotone clock a request is refused only if the limit was accepted less than one span before it |
| `RateLimiter.OpeningsAreApart` | src/webrtc/webrtc_video_server.cpp:1352-1357 | Successive windows open at least one span apart |
| `RateLimiter.BoundIsReached` | src/webrtc/webrtc_video_server.cpp:1347-1363 | For every limit and every span of at least 2 the bound is reached, so it cannot be improved |
| `RateLimiter.BurstIsMonotone` | src/webrtc/webrtc_video_server.cpp:1347-1363 | The run that reaches it is one of a monotone clock |
| `Signaling.SlotIsSafe` | src/webrtc/signaling_server.cpp:50-140 | In every run under serialised offers recipients never exceed the cap, generations and session ids are never reused, and the queue of early candidates stays within its cap and lists those queued since the last admitted offer in order of arrival |
| `Signaling.AdmittedExactly` | src/webrtc/signaling_server.cpp:67-86 | In every run an offer with no other in flight is admitted if and only if the maximum is 1 or fewer than the maximum are active; a refused one leaves queue, generation and active recipients as they were |
| `Signaling.CandidateReachesNewest` | src/webrtc/signaling_server.cpp:233-270 | In every run a candidate for no session in particular reaches the latest active session and no other; with none active it is queued while there is room |
| `Signaling.CandidateReachesNamed` | src/webrtc/signaling_server.cpp:233-246 | In every run a candidate for a named session reaches exactly that session if it is active |
| `Signaling.QueueIsArrivals` | src/webrtc/signaling_server.cpp:67-84 | From any state and for any events the queue is what the events after the last admitted offer queued, in their order |
| `Signaling.LookupFindsLatestActive` | src/webrtc/signaling_server.cpp:333-374 | A lookup without an id finds the session of the latest accepted offer still active, and finds none only when none is |
| `Signaling.OfferReceivesQueue` | src/webrtc/signaling_server.cpp:67-140 | Whatever happens between its two regions, an accepted offer's session gets a new id and exactly the candidates queued before, in order; later ones stay queued; with one subscriber it is the only recipient left, and otherwise all active ones stay as they are |
| `Signaling.RefusedOfferLosesQueue` | src/webrtc/signaling_server.cpp:81-94 | In every run, whatever happens between its two regions, the candidates taken by an offer that its session refuses reach no session and are not queued again |
| `Signaling.EarlyCandidateIsLost` | src/webrtc/signaling_server.cpp:81-94 | The shortest run in which this happens |
| `Signaling.SessionIdInjective` | src/webrtc/signaling_server.cpp:14-17 | Different generations have different session ids |
| `Signaling.SessionIdIsNumbered` | src/webrtc/signaling_server.cpp:14-17 | A session id is "session-" followed by the generation in decimal |
| `Signaling.NewestIsUnique` | src/webrtc/signaling_server.cpp:183-188 | No two recipients share a generation, so the newest one is well defined |
| `Signaling.SignalingServer.PruneInactiveRecipients` | src/webrtc/signaling_server.cpp:20-31 | The erasing loop leaves exactly the active recipients |
| `Signaling.SignalingServer.AdmitOffer` | src/webrtc/signaling_server.cpp:67-86 | The first locked region of an offer |
| `Signaling.SignalingServer.InstallSession` | src/webrtc/signaling_server.cpp:98-132 | The second locked region and the submission of the queue |
| `Signaling.SignalingServer.SetOffer` | src/webrtc/signaling_server.cpp:50-140 | A whole offer, with its three refusals |
| `Signaling.SignalingServer.NewestSession` | src/webrtc/signaling_server.cpp:183-187 | The maximum search finds a recipient of the largest generation |
| `Signaling.SignalingServer.QueueCandidate` | src/webrtc/signaling_server.cpp:257-269 | Queues at the end below the cap and refuses at the cap |
| `Signaling.SignalingServer.AddIceCandidate` | src/webrtc/signaling_server.cpp:193-284 | To which session a candidate goes, when it is queued and when refused, and the slot afterwards |
| `Signaling.SignalingServer.RemoveStream` | src/webrtc/signaling_server.cpp:446-467 | Forgets the slot and no other |
| `Signaling.StepKeepsInv` | src/webrtc/signaling_server.cpp:50-284 | Both regions of an offer, candidates, disconnects and lookups keep the slot invariant |
| `Statistics.PercentileIsSortedElement` | src/core/raw_frame_statistics.cpp:25-38 | A percentile is the element of rank max(1, ceil(count*p/100)) of the sorted luminances, and the value after the loop is never used |
| `Statistics.RankInRange` | src/core/raw_frame_statistics.cpp:27 | That rank lies between 1 and the count while the 64-bit product does not wrap |
| `Statistics.RankIsNearest` | src/core/raw_frame_statistics.cpp:27 | The rank computed is max(1, ceil(count*p/100)) if and only if the 64-bit product does not wrap |
| `Statistics.Percentile` | src/core/raw_frame_statistics.cpp:25-38 | The loop stops at the first level at which the cumulative count reaches the rank |
| `Statistics.PercentilesAreOrdered` | src/core/raw_frame_statistics.cpp:112-131 | minimum <= p01 <= p50 <= p99 <= maximum, and dark and bright pixels never exceed the count |
| `Statistics.SquaresDominate` | src/core/raw_frame_statistics.cpp:105-118 | count * sum of squares is at least the square of the sum |
| `Statistics.VarianceClampIsIdle` | src/core/raw_frame_statistics.cpp:118 | In exact arithmetic the clamp of the variance at 0 never acts |
| `Statistics.CalculateRawFrameStatistics` | src/core/raw_frame_statistics.cpp:41-151 | Refuses exactly frames that cannot be measured, reads past the buffer exactly when a pixel of a measurable frame lies outside it, and otherwise returns a histogram and results that describe the luminances of the frame, pixel by pixel |
| `Statistics.BinsSumToCount` | src/core/raw_frame_statistics.cpp:104-112 | The bins of the histogram sum to the pixel count |
| `Statistics.AccumulateRow` | src/core/raw_frame_statistics.cpp:72-109 | The inner loop extends histogram, sums and extremes by one row that lies in the buffer |
| `Statistics.Accumulate` | src/core/raw_frame_statistics.cpp:104-108 | One pixel keeps histogram, sums and extremes in step with the list of luminances |
| `Statistics.CountBins` | src/core/raw_frame_statistics.cpp:124-131 | The bin loops count the pixels between two levels |
| `Statistics.ReadPercentile` | src/core/raw_frame_statistics.cpp:119-121 | A percentile read off the histogram is the sorted element |
| `Statistics.Summarise` | src/core/raw_frame_statistics.cpp:112-149 | Histogram, mean, variance, percentiles and counts describe the luminances |
| `Statistics.NormalizedGrayscale` | src/core/raw_frame_statistics.cpp:13-17 | Fits a byte, maps the maximum and everything above it to 255, and is the identity for 8-bit samples |
| `Statistics.GreyLevelIsNearest` | src/core/raw_frame_statistics.cpp:13-17 | A grey sample is scaled to the nearest level |
| `Statistics.LuminanceIsMean` | src/core/raw_frame_statistics.cpp:19-23 | The luminance is the mean by the weights 54, 183 and 19 of 256, rounded, with its values on the three primaries |
| `Statistics.PixelsAreMeasured` | src/core/raw_frame_statistics.cpp:75-102 | By what pixels of each kind of format are measured |
| `Statistics.LuminanceAt` | src/core/raw_frame_statistics.cpp:70-109 | The luminances of a frame are those of its pixels, row by row |
| `Statistics.MeanAndVariance` | src/core/raw_frame_statistics.cpp:117-118 | Differences from the mean cancel out, and the variance is the mean of their squares |
| `Statistics.GreyKeepsLevel` | src/core/raw_frame_statistics.cpp:19-23 | The luminance of a grey pixel is its level |
| `Statistics.SortedSplit` | src/core/raw_frame_statistics.cpp:28-36 | In a sorted list the elements up to a level are exactly its first ones |
| `Statistics.UpToIsAtMost` | src/core/raw_frame_statistics.cpp:28-36 | Bin sums of the histogram count the elements up to a level |
| `DisplayTransform.TransformClosedForm` | src/transforms/display_transform.cpp:207-344 | Every output pixel is the colour of one in-bounds source pixel, the one whose mirrored position lands there at 0, 90, 180 or 270 degrees clockwise; each coordinate is scaled by floor if and only if the size does not change or its product fits 32 bits |
| `DisplayTransform.SourcePixelIsShown` | src/transforms/display_transform.cpp:207-316 | Without a change of size every source pixel is shown where its mirrored position lands |
| `DisplayTransform.OutputSizes` | src/transforms/display_transform.cpp:207-210 | The size of the output |
| `DisplayTransform.ApplyDisplayTransform` | src/transforms/display_transform.cpp:178-345 | Refuses exactly frames that cannot be transformed, reads past the buffer exactly when a pixel of a transformable frame lies outside it, and otherwise every pixel of the output has the specified colour, except where the fast path wraps: there the bytes are those of the wrapped offsets |
| `DisplayTransform.RotationIsBijection` | src/transforms/display_transform.cpp:152-174 | Rotating and rotating back, in either order, shows every position where it was |
| `DisplayTransform.RotationsCompose` | src/transforms/display_transform.cpp:152-174 | Two rotations in a row are the rotation by the sum of their angles |
| `DisplayTransform.SourceLands` | src/transforms/display_transform.cpp:152-174 | An output position shows exactly the source position that lands there: (sx, sy) goes to (h-1-sy, sx) at 90, (w-1-sx, h-1-sy) at 180 and (sy, w-1-sx) at 270 degrees |
| `DisplayTransform.MapOutputToSource` | src/transforms/display_transform.cpp:152-174 | The source position is inside the source image |
| `DisplayTransform.MirrorFlipsSourceColumns` | src/transforms/display_transform.cpp:226-230 | Mirroring flips the output left to right at 0 and 180 degrees and top to bottom at 90 and 270 |
| `DisplayTransform.ScaledIndexIsFloor` | src/transforms/display_transform.cpp:332-335 | The resampling index is floor scaling exactly when the product fits 32 bits, and otherwise picks an earlier position |
| `DisplayTransform.FloorScaledMonotone` | src/transforms/display_transform.cpp:332-335 | Floor scaling is monotone |
| `DisplayTransform.FloorScaledInjective` | src/transforms/display_transform.cpp:332-335 | It uses no source position twice when the image shrinks |
| `DisplayTransform.FloorScaledOnto` | src/transforms/display_transform.cpp:332-335 | It uses every source position when the image grows |
| `DisplayTransform.FastPathIsGeneralPath` | src/transforms/display_transform.cpp:26-61 | Up to a width of 2^32/3 the fast path paints the picture of the general path, in exact arithmetic; beyond it, it does not unless the last column is black |
| `DisplayTransform.ColumnOffsetsFit` | src/transforms/display_transform.cpp:52-57 | The 32-bit offsets of a row are exact if and only if three times the width does not exceed 2^32 |
| `DisplayTransform.GeneralPathOnGrey` | src/transforms/display_transform.cpp:236-247 | The general path gives a grey pixel its sample |
| `DisplayTransform.FastRowTurn` | src/transforms/display_transform.cpp:54-57 | Each byte written lands on its wrapped offset and replaces what was there |
| `DisplayTransform.GreyIsExact` | src/transforms/display_transform.cpp:21-24 | Normalising an 8-bit sample and scaling it back is the identity |
| `DisplayTransform.LevelIsNearest` | src/transforms/display_transform.cpp:21-24 | Scaling to a byte goes to the nearest level |
| `DisplayTransform.LuminanceIsMean` | src/transforms/display_transform.cpp:15-19 | The display luminance is the Rec. 709 mean, rounded down, in exact arithmetic |
| `DisplayTransform.PalettePositions` | src/transforms/display_transform.cpp:280-281 | Where an intensity lies in the palette range |
| `DisplayTransform.ModesShow` | src/transforms/display_transform.cpp:282-310 | What each display mode shows |
| `DisplayTransform.PixelIsShaded` | src/transforms/display_transform.cpp:236-278 | From what a pixel of each kind of format is shaded |
| `DisplayTransform.ApplyFastGray8Passthrough` | src/transforms/display_transform.cpp:34-61 | The copying loops return, byte by byte, what the wrapped offsets of each row leave, or read past the buffer under the same condition as the general path |
| `DisplayTransform.RenderRotated` | src/transforms/display_transform.cpp:212-316 | The loops over the rotated image read every source pixel and paint every pixel with its colour |
| `DisplayTransform.Resample` | src/transforms/display_transform.cpp:326-342 | The resampling loops paint the scaled picture |
| `DisplayTransform.PutPixel` | src/transforms/display_transform.cpp:312-314 | Writing one pixel leaves all pixels before it as they were |

## Left out

- H.264 and AV1 encoding, libav and hardware encoders: an encoder is a source of arbitrary units, and `encodes` says whether it takes a frame.
- libdatachannel, ICE, DTLS, SDP and the AV1 packetiser: a track exists or not, is open or not, and its sends may throw.
- HTTP, routing, authorisation, JSON, configuration files, logging, wall-clock timing, thread affinity and status texts.
- The remaining members of the managed server: start (which registers the configured streams with the core server and sets `started`), stop, API stepping (its outcome is an input), worker threads and debug snapshots. `push_access_unit` of the core server, which only stores a unit, is left out as well.
- Counters, group ids and session generations are unbounded; their 64-bit wrap-around is not modelled. Neither are allocations that fail for lack of memory.
- Real mutexes and memory order: a locked region is one step. Inline pushes and a list of streams already collected by a step may still process a stream that has since joined a group; nothing is claimed about that.
- Signaling offers are serialised, as the single HTTP loop drives them, and no stream is removed while an offer is in flight. The submission of queued candidates to a new session is one step with its installation.
- Group runs assume that the server is up; a handle destroyed after shutdown began releases nothing, which `Shutdown` states separately. A call outlives neither its handle nor, before its entry, the server's access record.
- Fairness.NoStreamStarves: assumes distinct ids, because a repeated id in the order is swept twice in one step.
- Statistics.CalculateRawFrameStatistics: states a percentile p while p * count + 99 fits 64 bits, which is exactly while its rank is right; the standard deviation, the dynamic range and the two fractions are direct quotients or roots of what is stated.
- Throttle.KeptAreMost: assumes non-decreasing timestamps, because a greedy choice is not the longest after a jump back (`Throttle.BackwardJumpIsNotOptimal`).
- DisplayTransform.TransformClosedForm: palettes are a parameter: any function from the normalised intensity to a colour.
- A read past the end of a frame's buffer is undefined in C++; the model ends the operation there (`OutOfBounds`). The caller's own buffer behind a raw frame has no length in the source, so the core server's direct reads are covered only by the results on buffers of a given length.
- Float rounding of luminance and palettes; the fast path is compared with the general path in exact arithmetic.
- The frame path models frames without pixels: a published output stands for the transform of its frame under its configuration, which `DisplayTransform` and `StoredFrames` describe.
