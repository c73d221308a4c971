// The H.264 sender: cached codec configuration and IDR units, the gate on track state,
// the startup sequence, and the packets it hands to the track.
//
// One call of the sender is a locked decision, an unlocked send and a locked commit (or
// a locked failure mark). `Step` is the machine over these pieces: a session teardown, a
// renegotiation and any track state may fall between them, and every send may fail.
// `H264EncodedVideoSender` is the object itself; its methods are proved against the machine.
module Sender {
  import opened Bytes
  import opened AnnexB
  import opened Rtp

  const DEFAULT_PAYLOAD_TYPE: int := 102

  datatype Codec = H264 | Av1

  datatype AccessUnit = AccessUnit(bytes: seq<byte>, codec: Codec, timestampNs: nat, sequenceId: nat,
                                   keyframe: bool, codecConfig: bool, valid: bool)

  predicate Accepted(u: AccessUnit) {
    u.valid && u.codec.H264? && u.bytes != []
  }

  predicate ContainsConfig(u: AccessUnit)
    requires u.bytes != []
  {
    u.codecConfig || (DescribesType(u.bytes, 7) && DescribesType(u.bytes, 8))
  }

  predicate ContainsIdr(u: AccessUnit)
    requires u.bytes != []
  {
    DescribesType(u.bytes, 5)
  }

  predicate ContainsNonIdrSlice(u: AccessUnit)
    requires u.bytes != []
  {
    DescribesType(u.bytes, 1)
  }

  // The sender state shown to clients; the middle six are the arms of the gate.
  datatype Gate =
    | AwaitingInput | RejectedUnit | SessionInactive
    | TrackMissing | ConfigWait | KeyframeWait | TrackNotOpen | StartupIdrWait | SendingRtp
    | ClosedBeforeSend | ClosedDuringSend | SendFailed

  datatype Counters = Counters(
    delivered: nat, duplicates: nat, failed: nat,
    packetsAttempted: nat, packetsSentAfterTrackOpen: nat, startupPackets: nat,
    startupInjections: nat, firstDecodableTransitions: nat,
    packetizationFailures: nat, trackClosed: nat, sendFailures: nat,
    skippedNoTrack: nat, skippedConfigWait: nat, skippedKeyframeWait: nat, skippedNotOpen: nat, skippedStartupIdrWait: nat)

  const NO_COUNTS := Counters(0, 0, 0, 0, 0, 0, 0, 0, 0, 0, 0, 0, 0, 0, 0, 0)

  // The retained configuration and IDR units and what has been seen so far.
  datatype Cache = Cache(config: Option<AccessUnit>, idr: Option<AccessUnit>,
                         configAvailable: bool, idrAvailable: bool, configSeen: bool, keyframeSeen: bool)

  // The track as last observed.
  datatype Link = Link(ready: bool, trackExists: bool, trackOpen: bool, deliveryActive: bool)

  datatype State = State(
    active: bool, cache: Cache, link: Link, firstDecodableSent: bool, startupSent: bool,
    sequenceNumber: nat, negotiatedPayloadType: int, lastSequenceId: nat, gate: Gate, counters: Counters)

  const INITIAL := State(true, Cache(None, None, false, false, false, false), Link(false, false, false, false),
                         false, false, 0, DEFAULT_PAYLOAD_TYPE, 0, AwaitingInput, NO_COUNTS)

  // ---------------------------------------------------------------------------
  // The decision
  // ---------------------------------------------------------------------------

  // What the unlocked part of a call works from: copies taken under the lock.
  datatype Ticket = Ticket(u: AccessUnit, startupRequired: bool, firstDecodableSent: bool, configAvailable: bool,
                           config: Option<AccessUnit>, idr: Option<AccessUnit>, payloadType: byte)

  function PayloadTypeOf(negotiated: int): byte {
    (if negotiated > 0 then negotiated else DEFAULT_PAYLOAD_TYPE) % 256
  }

  function RememberUnit(c: Cache, u: AccessUnit): Cache
    requires u.bytes != []
  {
    Cache(if ContainsConfig(u) then Some(u) else c.config,
          if ContainsIdr(u) then Some(u) else c.idr,
          c.configAvailable || ContainsConfig(u),
          c.idrAvailable || ContainsIdr(u),
          c.configSeen || ContainsConfig(u),
          c.keyframeSeen || u.keyframe || ContainsIdr(u))
  }

  function StartupRequired(c: Cache, startupSent: bool, transportReady: bool): bool {
    transportReady && !startupSent && c.configSeen && c.idrAvailable
  }

  function Ready(c: Cache, present: bool): bool {
    present && c.configSeen && c.idrAvailable
  }

  function ShouldSend(c: Cache, firstDecodableSent: bool, startupSent: bool, present: bool, open: bool, idr: bool): bool {
    present && open &&
    (StartupRequired(c, startupSent, present && open) || (Ready(c, present) && idr) || firstDecodableSent)
  }

  function GateOf(c: Cache, firstDecodableSent: bool, startupSent: bool, present: bool, open: bool, idr: bool): Gate {
    if !present then TrackMissing
    else if !c.configSeen then ConfigWait
    else if !c.idrAvailable then KeyframeWait
    else if !open then TrackNotOpen
    else if !firstDecodableSent && !StartupRequired(c, startupSent, present && open) && !idr then StartupIdrWait
    else SendingRtp
  }

  function CountGate(c: Counters, g: Gate): Counters {
    match g
    case TrackMissing => c.(skippedNoTrack := c.skippedNoTrack + 1)
    case ConfigWait => c.(skippedConfigWait := c.skippedConfigWait + 1)
    case KeyframeWait => c.(skippedKeyframeWait := c.skippedKeyframeWait + 1)
    case TrackNotOpen => c.(skippedNotOpen := c.skippedNotOpen + 1)
    case StartupIdrWait => c.(skippedStartupIdrWait := c.skippedStartupIdrWait + 1)
    case _ => c
  }

  // An active session takes a unit unless it repeats the sequence id of the one before it.
  predicate Fresh(s: State, u: AccessUnit) {
    s.active && s.lastSequenceId != u.sequenceId
  }

  function Decide(s: State, u: AccessUnit, present: bool, open: bool): (State, Option<Ticket>)
    requires u.bytes != []
  {
    if !s.active then
      (s.(link := s.link.(deliveryActive := false), gate := SessionInactive), None)
    else
      var link := s.link.(trackExists := present, trackOpen := open);
      if s.lastSequenceId == u.sequenceId then
        (s.(link := link, counters := s.counters.(duplicates := s.counters.duplicates + 1)), None)
      else
        var cache := RememberUnit(s.cache, u);
        var g := GateOf(cache, s.firstDecodableSent, s.startupSent, present, open, ContainsIdr(u));
        (s.(cache := cache, link := link.(ready := Ready(cache, present)), lastSequenceId := u.sequenceId, gate := g,
            counters := CountGate(s.counters.(delivered := s.counters.delivered + 1), g)),
         if ShouldSend(cache, s.firstDecodableSent, s.startupSent, present, open, ContainsIdr(u)) then
           Some(Ticket(u, StartupRequired(cache, s.startupSent, present && open), s.firstDecodableSent,
                       cache.configAvailable, cache.config, cache.idr, PayloadTypeOf(s.negotiatedPayloadType)))
         else None)
  }

  // ---------------------------------------------------------------------------
  // What a call sends
  // ---------------------------------------------------------------------------

  datatype Plan = Plan(nals: seq<seq<byte>>, startupNals: nat, sendsStartup: bool)

  function BytesOf(u: Option<AccessUnit>): seq<byte> {
    match u case None => [] case Some(a) => a.bytes
  }

  // None is the early return for a sender that may not start yet.
  function PlanOf(t: Ticket): Option<Plan>
    requires t.u.bytes != []
  {
    if t.startupRequired && t.idr.Some? then
      var config := Split(BytesOf(t.config));
      var idr := Split(t.idr.value.bytes);
      var own :=
        if t.idr.value.sequenceId != t.u.sequenceId
           && (t.firstDecodableSent || ContainsNonIdrSlice(t.u) || (!ContainsIdr(t.u) && !ContainsConfig(t.u)))
        then Split(t.u.bytes) else [];
      Some(Plan(config + idr + own, |config| + |idr|, idr != []))
    else if t.configAvailable && ContainsIdr(t.u) && !ContainsConfig(t.u) && t.config.Some? then
      var nals := Split(t.config.value.bytes) + Split(t.u.bytes);
      Some(Plan(nals, |nals|, true))
    else if !t.firstDecodableSent then None
    else Some(Plan(Split(t.u.bytes), 0, false))
  }

  function PlanPieces(p: Plan): seq<Piece> {
    PiecesFrom(p.nals, 0, p.startupNals)
  }

  // ---------------------------------------------------------------------------
  // The locked ends of a call
  // ---------------------------------------------------------------------------

  function CommitSend(s: State, p: Plan, packets: nat, startupPackets: nat, open: bool): State {
    var c := s.counters.(packetsAttempted := s.counters.packetsAttempted + packets,
                         packetsSentAfterTrackOpen := s.counters.packetsSentAfterTrackOpen + packets);
    if p.sendsStartup then
      s.(startupSent := true, firstDecodableSent := true, link := s.link.(deliveryActive := true, trackOpen := open),
         counters := c.(firstDecodableTransitions := c.firstDecodableTransitions + (if s.firstDecodableSent then 0 else 1),
                        startupPackets := c.startupPackets + startupPackets,
                        startupInjections := c.startupInjections + 1))
    else s.(link := s.link.(deliveryActive := true, trackOpen := open), counters := c)
  }

  function CountFailure(c: Counters, g: Gate): Counters {
    if g == SendFailed then c.(packetizationFailures := c.packetizationFailures + 1, sendFailures := c.sendFailures + 1)
    else c.(packetizationFailures := c.packetizationFailures + 1, trackClosed := c.trackClosed + 1)
  }

  function MarkNotSendable(s: State, g: Gate, present: bool, open: bool): State {
    if !s.active then s.(gate := SessionInactive, link := s.link.(deliveryActive := false))
    else
      s.(link := Link(Ready(s.cache, present), present, open, false), gate := g, counters := CountFailure(s.counters, g))
  }

  function DeactivateState(s: State): State {
    s.(active := false, link := Link(false, false, false, false), gate := SessionInactive)
  }

  // ---------------------------------------------------------------------------
  // The machine
  // ---------------------------------------------------------------------------

  datatype Phase =
    | Idle
    | Checking(t: Ticket)
    | Sending(t: Ticket, plan: Plan, next: nat, startupPackets: nat)
    | Failing(reason: Gate)

  // What happens to the next packet: the track is found closed before it is made, or it is
  // made and the send returns or throws.
  datatype Fate = TrackClosed | Delivered | ThrowsClosed | ThrowsOther

  // One packet that was made for the unit admitted as number `call`; `delivered` says that
  // the send returned without failing.
  datatype Attempt = Attempt(call: nat, header: Header, payload: seq<byte>, startup: bool, delivered: bool)

  datatype Event =
    | Offer(u: AccessUnit, present: bool, open: bool)
    | Recheck(sendable: bool)
    | Transmit(fate: Fate)
    | Commit(stillOpen: bool)
    | Mark(stillExists: bool, stillOpen: bool)
    | Deactivate
    | Negotiate(payloadType: int)

  // `admitted` lists the units that were neither repeats nor offered to an inactive session;
  // `committed` lists the calls that ended in a commit and `lost` counts the failures that found the session inactive.
  datatype Run = Run(s: State, ssrc: nat, phase: Phase, admitted: seq<AccessUnit>, attempts: seq<Attempt>,
                     committed: seq<nat>, lost: nat)

  function Start(ssrc: nat): Run {
    Run(INITIAL, ssrc, Idle, [], [], [], 0)
  }

  function AttemptOf(r: Run, piece: Piece, delivered: bool): Attempt
    requires r.phase.Sending?
  {
    Attempt(|r.admitted|,
            Header(piece.marker, r.phase.t.payloadType, r.s.sequenceNumber % U16,
                   RtpTimestamp(r.phase.t.u.timestampNs), r.ssrc % U32),
            piece.payload, piece.startup, delivered)
  }

  // A packet is made and takes a sequence number, whether or not the send then fails.
  function Made(r: Run, piece: Piece, delivered: bool): Run
    requires r.phase.Sending?
  {
    r.(attempts := r.attempts + [AttemptOf(r, piece, delivered)],
       s := r.s.(sequenceNumber := (r.s.sequenceNumber + 1) % U16))
  }

  function TransmitStep(r: Run, fate: Fate): Run
    requires r.phase.Sending? && r.phase.next < |PlanPieces(r.phase.plan)|
  {
    var piece := PlanPieces(r.phase.plan)[r.phase.next];
    match fate
    case TrackClosed => r.(phase := Failing(ClosedDuringSend))
    case ThrowsClosed => Made(r, piece, false).(phase := Failing(ClosedDuringSend))
    case ThrowsOther => Made(r, piece, false).(phase := Failing(SendFailed))
    case Delivered =>
      Made(r, piece, true).(phase := r.phase.(next := r.phase.next + 1,
                                              startupPackets := r.phase.startupPackets + (if piece.startup then 1 else 0)))
  }

  function OfferStep(r: Run, u: AccessUnit, present: bool, open: bool): Run {
    if !u.valid then r
    else if !Accepted(u) then
      r.(s := r.s.(gate := RejectedUnit, counters := r.s.counters.(failed := r.s.counters.failed + 1)))
    else
      var (s', t) := Decide(r.s, u, present, open);
      r.(s := s', phase := (match t case None => Idle case Some(ticket) => Checking(ticket)),
         admitted := if Fresh(r.s, u) then r.admitted + [u] else r.admitted)
  }

  function RecheckStep(r: Run, sendable: bool): Run
    requires r.phase.Checking? && r.phase.t.u.bytes != []
  {
    if !sendable then r.(phase := Failing(ClosedBeforeSend))
    else
      match PlanOf(r.phase.t)
      case None => r.(phase := Idle)
      case Some(plan) => r.(phase := Sending(r.phase.t, plan, 0, 0))
  }

  function CommitStep(r: Run, open: bool): Run
    requires r.phase.Sending?
  {
    r.(s := CommitSend(r.s, r.phase.plan, r.phase.next, r.phase.startupPackets, open),
       phase := Idle, committed := r.committed + [|r.admitted|])
  }

  function MarkStep(r: Run, present: bool, open: bool): Run
    requires r.phase.Failing?
  {
    r.(s := MarkNotSendable(r.s, r.phase.reason, present, open), phase := Idle,
       lost := if r.s.active then r.lost else r.lost + 1)
  }

  // An event that does not fit the phase of the one producer does not happen.
  function Step(r: Run, e: Event): Run {
    match e
    case Offer(u, present, open) => if r.phase.Idle? then OfferStep(r, u, present, open) else r
    case Recheck(sendable) => if r.phase.Checking? && r.phase.t.u.bytes != [] then RecheckStep(r, sendable) else r
    case Transmit(fate) =>
      if r.phase.Sending? && r.phase.next < |PlanPieces(r.phase.plan)| then TransmitStep(r, fate) else r
    case Commit(open) =>
      if r.phase.Sending? && r.phase.next == |PlanPieces(r.phase.plan)| then CommitStep(r, open) else r
    case Mark(present, open) => if r.phase.Failing? then MarkStep(r, present, open) else r
    case Deactivate => r.(s := DeactivateState(r.s))
    case Negotiate(payloadType) => r.(s := r.s.(negotiatedPayloadType := payloadType))
  }

  function Exec(r: Run, events: seq<Event>): Run
    decreases |events|
  {
    if events == [] then r else Exec(Step(r, events[0]), events[1..])
  }

  lemma {:induction false} ExecConcat(r: Run, xs: seq<Event>, ys: seq<Event>)
    ensures Exec(r, xs + ys) == Exec(Exec(r, xs), ys)
    decreases |xs|
  {
    if xs == [] {
      assert xs + ys == ys;
    } else {
      assert (xs + ys)[1..] == xs[1..] + ys;
      ExecConcat(Step(r, xs[0]), xs[1..], ys);
    }
  }
}
