// The sender object: its fields, its locked and unlocked sections, and the loops that cut
// NAL units into packets. Every method is proved to take the steps of the machine.
module SenderObject {
  import opened Bytes
  import opened AnnexB
  import opened Rtp
  import opened Sender

  // What a call observes of the track and of the sends, in order.
  datatype Environment = Environment(present: bool, open: bool, sendable: bool, fate: nat -> Fate,
                                     presentAfter: bool, openAfter: bool)

  // The packets of a call one after the other, until one fails.
  function TransmitAll(r: Run, fate: nat -> Fate): (r': Run)
    requires r.phase.Sending? && r.phase.next <= |PlanPieces(r.phase.plan)|
    ensures r'.phase.Failing? || (r'.phase.Sending? && r'.phase.next == |PlanPieces(r'.phase.plan)|)
    decreases |PlanPieces(r.phase.plan)| - r.phase.next
  {
    if r.phase.next == |PlanPieces(r.phase.plan)| then r
    else
      var r1 := TransmitStep(r, fate(r.phase.next));
      if r1.phase.Sending? then TransmitAll(r1, fate) else r1
  }

  // The unlocked part of a call and its locked end.
  function Deliver(r: Run, env: Environment): Run
    requires r.phase.Checking? && r.phase.t.u.bytes != []
  {
    var r2 := RecheckStep(r, env.sendable);
    if r2.phase.Idle? then r2
    else
      var r3 := if r2.phase.Sending? then TransmitAll(r2, env.fate) else r2;
      if r3.phase.Failing? then MarkStep(r3, env.presentAfter, env.openAfter)
      else CommitStep(r3, env.openAfter)
  }

  // One whole call without interleaving.
  function Call(r: Run, u: AccessUnit, env: Environment): Run
    requires r.phase.Idle?
  {
    var r1 := OfferStep(r, u, env.present, env.open);
    if r1.phase.Checking? && r1.phase.t.u.bytes != [] then Deliver(r1, env) else r1
  }

  lemma OneStep(r: Run, e: Event)
    ensures Exec(r, [e]) == Step(r, e)
  {
    assert [e][1..] == [];
  }

  lemma {:induction false} TransmitAllIsRun(r: Run, fate: nat -> Fate) returns (events: seq<Event>)
    requires r.phase.Sending? && r.phase.next <= |PlanPieces(r.phase.plan)|
    ensures Exec(r, events) == TransmitAll(r, fate)
    decreases |PlanPieces(r.phase.plan)| - r.phase.next
  {
    hide TransmitStep, PlanPieces;
    events := [];
    if r.phase.next == |PlanPieces(r.phase.plan)| {
    } else {
      var e := Transmit(fate(r.phase.next));
      var r1 := Step(r, e);
      OneStep(r, e);
      TransmitKeepsPlan(r, fate(r.phase.next));
      if r1.phase.Sending? {
        var rest := TransmitAllIsRun(r1, fate);
        ExecConcat(r, [e], rest);
        events := [e] + rest;
      } else {
        events := [e];
      }
    }
  }

  lemma TransmitKeepsPlan(r: Run, fate: Fate)
    requires r.phase.Sending? && r.phase.next < |PlanPieces(r.phase.plan)|
    ensures var r1 := TransmitStep(r, fate);
            r1.phase.Sending? ==> r1.phase.plan == r.phase.plan && r1.phase.next == r.phase.next + 1
  {
    hide PlanPieces;
  }

  // A whole call is a run of the machine, so whatever holds of every run holds of the object.
  lemma CallIsRun(r: Run, u: AccessUnit, env: Environment) returns (events: seq<Event>)
    requires r.phase.Idle?
    ensures Exec(r, events) == Call(r, u, env)
  {
    hide OfferStep, RecheckStep, CommitStep, MarkStep, TransmitStep, TransmitAll, PlanPieces, Exec;
    var e1 := Offer(u, env.present, env.open);
    var r1 := Step(r, e1);
    OneStep(r, e1);
    events := [e1];
    if r1.phase.Checking? && r1.phase.t.u.bytes != [] {
      var e2 := Recheck(env.sendable);
      var r2 := Step(r1, e2);
      OneStep(r1, e2);
      ExecConcat(r, events, [e2]);
      events := events + [e2];
      RecheckPhases(r1, env.sendable);
      if !r2.phase.Idle? {
        var r3 := r2;
        if r2.phase.Sending? {
          var sends := TransmitAllIsRun(r2, env.fate);
          ExecConcat(r, events, sends);
          events := events + sends;
          r3 := TransmitAll(r2, env.fate);
        }
        var e3 := if r3.phase.Failing? then Mark(env.presentAfter, env.openAfter) else Commit(env.openAfter);
        OneStep(r3, e3);
        ExecConcat(r, events, [e3]);
        events := events + [e3];
      }
    }
  }

  lemma RecheckPhases(r: Run, sendable: bool)
    requires r.phase.Checking? && r.phase.t.u.bytes != []
    ensures var r2 := RecheckStep(r, sendable);
            r2.phase.Idle? || r2.phase.Failing? || (r2.phase.Sending? && r2.phase.next == 0)
  {
  }

  class H264EncodedVideoSender {
    const ssrc: nat
    var sessionActive: bool
    var cache: Cache
    var link: Link
    var firstDecodableFrameSent: bool
    var startupSequenceSent: bool
    var sequenceNumber: nat
    var negotiatedPayloadType: int
    var lastDeliveredSequenceId: nat
    var senderState: Gate
    var counters: Counters
    // The units admitted and the packets made so far, the committed calls and the failures found inactive.
    ghost var admitted: seq<AccessUnit>
    ghost var attempts: seq<Attempt>
    ghost var committed: seq<nat>
    ghost var lost: nat

    ghost function View(): State
      reads this
    {
      State(sessionActive, cache, link, firstDecodableFrameSent, startupSequenceSent, sequenceNumber,
            negotiatedPayloadType, lastDeliveredSequenceId, senderState, counters)
    }

    // The machine's state when the call in progress is in the given phase.
    ghost function At(phase: Phase): Run
      reads this
    {
      Run(View(), ssrc, phase, admitted, attempts, committed, lost)
    }

    constructor (ssrc: nat)
      ensures At(Idle) == Start(ssrc)
    {
      this.ssrc := ssrc;
      sessionActive := true;
      cache := Cache(None, None, false, false, false, false);
      link := Link(false, false, false, false);
      firstDecodableFrameSent, startupSequenceSent := false, false;
      sequenceNumber, negotiatedPayloadType, lastDeliveredSequenceId := 0, DEFAULT_PAYLOAD_TYPE, 0;
      senderState, counters := AwaitingInput, NO_COUNTS;
      admitted, attempts, committed, lost := [], [], [], 0;
    }

    method SetNegotiatedH264Parameters(payloadType: int)
      modifies this`negotiatedPayloadType
      ensures View() == old(View()).(negotiatedPayloadType := payloadType)
    {
      negotiatedPayloadType := payloadType;
    }

    method DeactivateSession()
      modifies this`sessionActive, this`link, this`senderState
      ensures View() == DeactivateState(old(View()))
    {
      sessionActive := false;
      link := link.(trackExists := false, trackOpen := false, ready := false, deliveryActive := false);
      senderState := SessionInactive;
    }

    // Keeps the unit for a later startup and notes what it contained.
    method RememberFresh(u: AccessUnit, d: Descriptor, present: bool)
      requires u.bytes != []
      requires (u.codecConfig || (d.hasSps && d.hasPps) <==> ContainsConfig(u)) && (d.hasIdr <==> ContainsIdr(u))
      modifies this`cache, this`link, this`lastDeliveredSequenceId, this`counters
      ensures cache == RememberUnit(old(cache), u)
      ensures link == old(link).(ready := Ready(cache, present))
      ensures lastDeliveredSequenceId == u.sequenceId
      ensures counters == old(counters).(delivered := old(counters).delivered + 1)
    {
      hide ContainsConfig, ContainsIdr;
      var containsCodecConfig := u.codecConfig || (d.hasSps && d.hasPps);
      if containsCodecConfig {
        cache := cache.(config := Some(u), configAvailable := true);
      }
      if d.hasIdr {
        cache := cache.(idr := Some(u), idrAvailable := true);
      }
      cache := cache.(configSeen := cache.configSeen || containsCodecConfig,
                      keyframeSeen := cache.keyframeSeen || u.keyframe || d.hasIdr);
      link := link.(ready := present && cache.configSeen && cache.idrAvailable);
      lastDeliveredSequenceId := u.sequenceId;
      counters := counters.(delivered := counters.delivered + 1);
    }

    // The six arms of the gate.
    method EvaluateGate(present: bool, open: bool, startupRequired: bool, idr: bool)
      requires startupRequired == StartupRequired(cache, startupSequenceSent, present && open)
      modifies this`counters, this`senderState
      ensures senderState == GateOf(cache, firstDecodableFrameSent, startupSequenceSent, present, open, idr)
      ensures counters == CountGate(old(counters), senderState)
    {
      if !present {
        counters := counters.(skippedNoTrack := counters.skippedNoTrack + 1);
        senderState := TrackMissing;
      } else if !cache.configSeen {
        counters := counters.(skippedConfigWait := counters.skippedConfigWait + 1);
        senderState := ConfigWait;
      } else if !cache.idrAvailable {
        counters := counters.(skippedKeyframeWait := counters.skippedKeyframeWait + 1);
        senderState := KeyframeWait;
      } else if !open {
        counters := counters.(skippedNotOpen := counters.skippedNotOpen + 1);
        senderState := TrackNotOpen;
      } else if !firstDecodableFrameSent && !startupRequired && !idr {
        counters := counters.(skippedStartupIdrWait := counters.skippedStartupIdrWait + 1);
        senderState := StartupIdrWait;
      } else {
        senderState := SendingRtp;
      }
    }

    // The decision for a unit that is not a repeat.
    method AdmitFresh(u: AccessUnit, d: Descriptor, present: bool, open: bool) returns (ticket: Option<Ticket>)
      requires u.bytes != []
      requires (u.codecConfig || (d.hasSps && d.hasPps) <==> ContainsConfig(u)) && (d.hasIdr <==> ContainsIdr(u))
      modifies this`cache, this`link, this`lastDeliveredSequenceId, this`counters, this`senderState
      ensures cache == RememberUnit(old(cache), u)
      ensures link == old(link).(ready := Ready(cache, present))
      ensures lastDeliveredSequenceId == u.sequenceId
      ensures senderState == GateOf(cache, firstDecodableFrameSent, startupSequenceSent, present, open, ContainsIdr(u))
      ensures counters == CountGate(old(counters).(delivered := old(counters).delivered + 1), senderState)
      ensures ticket == if ShouldSend(cache, firstDecodableFrameSent, startupSequenceSent, present, open, ContainsIdr(u)) then
                          Some(Ticket(u, StartupRequired(cache, startupSequenceSent, present && open), firstDecodableFrameSent,
                                      cache.configAvailable, cache.config, cache.idr, PayloadTypeOf(negotiatedPayloadType)))
                        else None
    {
      hide ContainsConfig, ContainsIdr, RememberUnit, CountGate, GateOf, PayloadTypeOf;
      RememberFresh(u, d, present);
      var transportReady := present && open;
      var startupRequired := transportReady && !startupSequenceSent && cache.configSeen && cache.idrAvailable;
      var shouldSend := transportReady && (startupRequired || (link.ready && d.hasIdr) || firstDecodableFrameSent);
      EvaluateGate(present, open, startupRequired, d.hasIdr);
      if !shouldSend {
        return None;
      }
      return Some(Ticket(u, startupRequired, firstDecodableFrameSent, cache.configAvailable,
                         cache.config, cache.idr, PayloadTypeOf(negotiatedPayloadType)));
    }

    // The locked decision of a call.
    method DecideLocked(u: AccessUnit, d: Descriptor, present: bool, open: bool) returns (ticket: Option<Ticket>)
      requires u.bytes != []
      requires (u.codecConfig || (d.hasSps && d.hasPps) <==> ContainsConfig(u)) && (d.hasIdr <==> ContainsIdr(u))
      modifies this`cache, this`link, this`lastDeliveredSequenceId, this`counters, this`senderState
      ensures View() == Decide(old(View()), u, present, open).0
      ensures ticket == Decide(old(View()), u, present, open).1
    {
      hide ContainsConfig, ContainsIdr, RememberUnit, CountGate, GateOf, ShouldSend, StartupRequired, PayloadTypeOf;
      if !sessionActive {
        link := link.(deliveryActive := false);
        senderState := SessionInactive;
        return None;
      }
      link := link.(trackExists := present, trackOpen := open);
      if lastDeliveredSequenceId == u.sequenceId {
        counters := counters.(duplicates := counters.duplicates + 1);
        return None;
      }
      ticket := AdmitFresh(u, d, present, open);
    }

    // Chooses the NAL units of a call.
    static method BuildPlan(t: Ticket, d: Descriptor) returns (plan: Option<Plan>)
      requires t.u.bytes != []
      requires (t.u.codecConfig || (d.hasSps && d.hasPps) <==> ContainsConfig(t.u))
      requires (d.hasIdr <==> ContainsIdr(t.u)) && (d.hasNonIdrSlice <==> ContainsNonIdrSlice(t.u))
      ensures plan == PlanOf(t)
    {
      hide ContainsConfig, ContainsIdr, ContainsNonIdrSlice, Split;
      var containsCodecConfig := t.u.codecConfig || (d.hasSps && d.hasPps);
      var nals: seq<seq<byte>> := [];
      var startupCount := 0;
      if t.startupRequired && t.idr.Some? {
        if t.config.Some? {
          var configNals := SplitAnnexBNalus(t.config.value.bytes);
          nals := nals + configNals;
          startupCount := startupCount + |configNals|;
        }
        assert nals == Split(BytesOf(t.config)) by { SplitNothing(); }
        var idrNals := SplitAnnexBNalus(t.idr.value.bytes);
        nals := nals + idrNals;
        startupCount := startupCount + |idrNals|;
        var sendsStartup := idrNals != [];
        if t.idr.value.sequenceId != t.u.sequenceId
           && (t.firstDecodableSent || d.hasNonIdrSlice || (!d.hasIdr && !containsCodecConfig)) {
          var own := SplitAnnexBNalus(t.u.bytes);
          nals := nals + own;
        } else {
          assert nals == nals + [];
        }
        return Some(Plan(nals, startupCount, sendsStartup));
      } else if t.configAvailable && d.hasIdr && !containsCodecConfig && t.config.Some? {
        var configNals := SplitAnnexBNalus(t.config.value.bytes);
        var own := SplitAnnexBNalus(t.u.bytes);
        return Some(Plan(configNals + own, |configNals| + |own|, true));
      } else if !t.firstDecodableSent {
        return None;
      } else {
        var own := SplitAnnexBNalus(t.u.bytes);
        return Some(Plan(own, 0, false));
      }
    }

    // Makes one packet and sends it; the sequence number is taken before the send can throw.
    method SendPiece(payload: seq<byte>, marker: bool, startup: bool, t: Ticket, ghost plan: Plan,
                     ghost next: nat, ghost startupPackets: nat, fate: Fate) returns (failure: Option<Gate>)
      requires fate != TrackClosed
      requires next < |PlanPieces(plan)| && PlanPieces(plan)[next] == Piece(payload, marker, startup)
      modifies this`sequenceNumber, this`attempts
      ensures At(match failure
                 case Some(g) => Failing(g)
                 case None => Sending(t, plan, next + 1, startupPackets + (if startup then 1 else 0)))
              == TransmitStep(old(At(Sending(t, plan, next, startupPackets))), fate)
      ensures failure.Some? <==> fate != Delivered
    {
      hide PlanPieces;
      var header := Header(marker, t.payloadType, sequenceNumber % U16, RtpTimestamp(t.u.timestampNs), ssrc % U32);
      var packet := MakePacket(payload, header);
      sequenceNumber := (sequenceNumber + 1) % U16;
      attempts := attempts + [Attempt(|admitted|, header, packet[12..], startup, fate == Delivered)];
      match fate {
        case ThrowsClosed => return Some(ClosedDuringSend);
        case ThrowsOther => return Some(SendFailed);
        case Delivered => return None;
      }
    }

    // The FU-A loop: one NAL unit beyond the limit, fragment by fragment.
    method SendFragments(nal: seq<byte>, isLastNal: bool, partOfStartup: bool, t: Ticket, ghost plan: Plan,
                         first: nat, startupFirst: nat, ghost after: seq<Piece>, fate: nat -> Fate)
      returns (failure: Option<Gate>, packetCount: nat, startupPacketCount: nat)
      requires |nal| > MAX_PAYLOAD
      requires first <= |PlanPieces(plan)|
      requires PlanPieces(plan)[first..] == PiecesOf(Fragments(nal, 1), isLastNal, partOfStartup) + after
      modifies this`sequenceNumber, this`attempts
      ensures packetCount <= |PlanPieces(plan)|
      ensures failure.None? ==> PlanPieces(plan)[packetCount..] == after
      ensures TransmitAll(old(At(Sending(t, plan, first, startupFirst))), fate) ==
              match failure
              case Some(g) => At(Failing(g))
              case None => TransmitAll(At(Sending(t, plan, packetCount, startupPacketCount)), fate)
    {
      hide TransmitStep, PlanPieces, Fragments, TransmitAll, FuPayload;
      packetCount, startupPacketCount, failure := first, startupFirst, None;
      ghost var goal := TransmitAll(At(Sending(t, plan, first, startupFirst)), fate);
      ghost var pieces := PlanPieces(plan);
      var offset := 1;
      while offset < |nal|
        invariant 0 < offset <= |nal| && failure.None?
        invariant packetCount <= |pieces|
        invariant pieces[packetCount..] == PiecesOf(Fragments(nal, offset), isLastNal, partOfStartup) + after
        invariant TransmitAll(At(Sending(t, plan, packetCount, startupPacketCount)), fate) == goal
      {
        var remaining := |nal| - offset;
        var fragmentSize := Min(FRAGMENT_CAPACITY, remaining);
        var end := fragmentSize == remaining;
        var payload := FuPayload(nal, offset, fragmentSize);
        FragmentTurn(nal, offset, isLastNal, partOfStartup);
        NextPieceIs(pieces, packetCount, Piece(payload, isLastNal && end, partOfStartup),
                    PiecesOf(Fragments(nal, offset + fragmentSize), isLastNal, partOfStartup), after);
        TransmitAllTurn(At(Sending(t, plan, packetCount, startupPacketCount)), fate);
        if fate(packetCount) == TrackClosed {
          failure := Some(ClosedDuringSend);
          return;
        }
        failure := SendPiece(payload, isLastNal && end, partOfStartup, t, plan, packetCount, startupPacketCount, fate(packetCount));
        if failure.Some? {
          return;
        }
        packetCount := packetCount + 1;
        startupPacketCount := startupPacketCount + (if partOfStartup then 1 else 0);
        offset := offset + fragmentSize;
      }
      NoFragments(nal, isLastNal, partOfStartup);
    }

    // The unlocked send: single NAL unit packets up to the limit, FU-A fragments beyond it.
    method SendPackets(t: Ticket, plan: Plan, fate: nat -> Fate)
      returns (failure: Option<Gate>, packetCount: nat, startupPacketCount: nat)
      modifies this`sequenceNumber, this`attempts
      ensures TransmitAll(old(At(Sending(t, plan, 0, 0))), fate) ==
              At(match failure case Some(g) => Failing(g) case None => Sending(t, plan, packetCount, startupPacketCount))
    {
      hide TransmitStep, PlanPieces, Payloads, Fragments, TransmitAll, PiecesOf;
      packetCount, startupPacketCount, failure := 0, 0, None;
      ghost var goal := TransmitAll(At(Sending(t, plan, 0, 0)), fate);
      ghost var pieces := PlanPieces(plan);
      PlanPiecesFrom(plan);
      var i := 0;
      while i < |plan.nals|
        invariant i <= |plan.nals| && failure.None?
        invariant packetCount <= |pieces| && pieces[packetCount..] == PiecesFrom(plan.nals, i, plan.startupNals)
        invariant TransmitAll(At(Sending(t, plan, packetCount, startupPacketCount)), fate) == goal
      {
        var nal := plan.nals[i];
        var isLastNal := i + 1 == |plan.nals|;
        var partOfStartup := i < plan.startupNals;
        ghost var after := PiecesFrom(plan.nals, i + 1, plan.startupNals);
        i := i + 1;
        if nal == [] {
          NoPieces(nal, isLastNal, partOfStartup);
          continue;
        }
        if |nal| <= MAX_PAYLOAD {
          OnePiece(nal, isLastNal, partOfStartup);
          NextPieceIs(pieces, packetCount, Piece(nal, isLastNal, partOfStartup), [], after);
          TransmitAllTurn(At(Sending(t, plan, packetCount, startupPacketCount)), fate);
          if fate(packetCount) == TrackClosed {
            failure := Some(ClosedDuringSend);
            return;
          }
          failure := SendPiece(nal, isLastNal, partOfStartup, t, plan, packetCount, startupPacketCount, fate(packetCount));
          if failure.Some? {
            return;
          }
          packetCount := packetCount + 1;
          startupPacketCount := startupPacketCount + (if partOfStartup then 1 else 0);
          continue;
        }
        FragmentPieces(nal, isLastNal, partOfStartup);
        failure, packetCount, startupPacketCount :=
          SendFragments(nal, isLastNal, partOfStartup, t, plan, packetCount, startupPacketCount, after, fate);
        if failure.Some? {
          return;
        }
      }
      TransmitAllDone(At(Sending(t, plan, packetCount, startupPacketCount)), fate);
    }

    method RecordFailure(reason: Gate)
      modifies this`counters
      ensures counters == CountFailure(old(counters), reason)
    {
      counters := counters.(packetizationFailures := counters.packetizationFailures + 1);
      if reason != SendFailed {
        counters := counters.(trackClosed := counters.trackClosed + 1);
      } else {
        counters := counters.(sendFailures := counters.sendFailures + 1);
      }
    }

    method MarkTrackNotSendable(reason: Gate, present: bool, open: bool)
      modifies this`link, this`counters, this`senderState, this`lost
      ensures View() == MarkNotSendable(old(View()), reason, present, open)
      ensures lost == if sessionActive then old(lost) else old(lost) + 1
    {
      hide CountFailure;
      if !sessionActive {
        senderState := SessionInactive;
        link := link.(deliveryActive := false);
        lost := lost + 1;
        return;
      }
      link := link.(trackExists := present, trackOpen := open);
      link := link.(ready := link.trackExists && cache.configSeen && cache.idrAvailable, deliveryActive := false);
      RecordFailure(reason);
      senderState := reason;
    }

    method CommitLocked(plan: Plan, packetCount: nat, startupPacketCount: nat, open: bool)
      modifies this`link, this`counters, this`firstDecodableFrameSent, this`startupSequenceSent, this`committed
      ensures View() == CommitSend(old(View()), plan, packetCount, startupPacketCount, open)
      ensures committed == old(committed) + [|admitted|]
    {
      counters := counters.(packetsAttempted := counters.packetsAttempted + packetCount,
                            packetsSentAfterTrackOpen := counters.packetsSentAfterTrackOpen + packetCount);
      if plan.sendsStartup {
        startupSequenceSent := true;
        if !firstDecodableFrameSent {
          counters := counters.(firstDecodableTransitions := counters.firstDecodableTransitions + 1);
        }
        firstDecodableFrameSent := true;
        counters := counters.(startupPackets := counters.startupPackets + startupPacketCount,
                              startupInjections := counters.startupInjections + 1);
      }
      link := link.(deliveryActive := true, trackOpen := open);
      committed := committed + [|admitted|];
    }

    // The unlocked part of a call, up to the lock that ends it.
    method DeliverTicket(t: Ticket, d: Descriptor, env: Environment)
      requires t.u.bytes != []
      requires (t.u.codecConfig || (d.hasSps && d.hasPps) <==> ContainsConfig(t.u))
      requires (d.hasIdr <==> ContainsIdr(t.u)) && (d.hasNonIdrSlice <==> ContainsNonIdrSlice(t.u))
      modifies this
      ensures At(Idle) == Deliver(old(At(Checking(t))), env)
    {
      hide PlanOf, TransmitAll, CommitSend, MarkNotSendable, ContainsConfig, ContainsIdr, ContainsNonIdrSlice;
      if !env.sendable {
        MarkTrackNotSendable(ClosedBeforeSend, env.presentAfter, env.openAfter);
        return;
      }
      var plan := BuildPlan(t, d);
      if plan.None? {
        return;
      }
      var failure, packetCount, startupPacketCount := SendPackets(t, plan.value, env.fate);
      if failure.Some? {
        MarkTrackNotSendable(failure.value, env.presentAfter, env.openAfter);
        return;
      }
      CommitLocked(plan.value, packetCount, startupPacketCount, env.openAfter);
    }

    // The locked decision of a call, with the history of admitted units brought up to date.
    method OfferLocked(u: AccessUnit, d: Descriptor, present: bool, open: bool) returns (ticket: Option<Ticket>)
      requires Accepted(u)
      requires (u.codecConfig || (d.hasSps && d.hasPps) <==> ContainsConfig(u)) && (d.hasIdr <==> ContainsIdr(u))
      modifies this`cache, this`link, this`lastDeliveredSequenceId, this`counters, this`senderState, this`admitted
      ensures At(match ticket case None => Idle case Some(t) => Checking(t)) == OfferStep(old(At(Idle)), u, present, open)
      ensures ticket.Some? ==> ticket.value.u == u
    {
      hide Decide, ContainsConfig, ContainsIdr, Fresh;
      ghost var s := View();
      admitted := if Fresh(s, u) then admitted + [u] else admitted;
      ticket := DecideLocked(u, d, present, open);
      if ticket.Some? {
        TicketUnit(s, u, present, open);
      }
    }

    // The public entry point.
    method OnEncodedAccessUnit(u: AccessUnit, env: Environment)
      modifies this
      ensures At(Idle) == Call(old(At(Idle)), u, env)
    {
      hide Decide, Deliver, ContainsConfig, ContainsIdr, ContainsNonIdrSlice, Fresh;
      if !u.valid {
        return;
      }
      if u.codec != H264 || u.bytes == [] {
        counters := counters.(failed := counters.failed + 1);
        senderState := RejectedUnit;
        return;
      }
      hide OfferStep;
      var d := InspectAccessUnit(u.bytes);
      DescriptorMeans(u, d);
      var ticket := OfferLocked(u, d, env.present, env.open);
      if ticket.Some? {
        DeliverTicket(ticket.value, d, env);
      }
    }
  }

  // ---------------------------------------------------------------------------
  // Helpers of the send loops
  // ---------------------------------------------------------------------------

  lemma SplitNothing()
    ensures Split([]) == []
  {
  }

  lemma DescriptorMeans(u: AccessUnit, d: Descriptor)
    requires u.bytes != []
    requires d.hasSps <==> DescribesType(u.bytes, 7)
    requires d.hasPps <==> DescribesType(u.bytes, 8)
    requires d.hasIdr <==> DescribesType(u.bytes, 5)
    requires d.hasNonIdrSlice <==> DescribesType(u.bytes, 1)
    ensures u.codecConfig || (d.hasSps && d.hasPps) <==> ContainsConfig(u)
    ensures d.hasIdr <==> ContainsIdr(u)
    ensures d.hasNonIdrSlice <==> ContainsNonIdrSlice(u)
  {
  }

  lemma TicketUnit(s: State, u: AccessUnit, present: bool, open: bool)
    requires u.bytes != [] && Decide(s, u, present, open).1.Some?
    ensures Decide(s, u, present, open).1.value.u == u
  {
  }

  lemma PlanPiecesFrom(p: Plan)
    ensures PlanPieces(p)[0..] == PiecesFrom(p.nals, 0, p.startupNals)
  {
  }

  lemma NoPieces(nal: seq<byte>, lastNal: bool, startup: bool)
    requires nal == []
    ensures PiecesOfNal(nal, lastNal, startup) == []
  {
  }

  lemma OnePiece(nal: seq<byte>, lastNal: bool, startup: bool)
    requires 0 < |nal| <= MAX_PAYLOAD
    ensures PiecesOfNal(nal, lastNal, startup) == [Piece(nal, lastNal, startup)]
  {
  }

  lemma FragmentPieces(nal: seq<byte>, lastNal: bool, startup: bool)
    requires |nal| > MAX_PAYLOAD
    ensures PiecesOfNal(nal, lastNal, startup) == PiecesOf(Fragments(nal, 1), lastNal, startup)
  {
  }

  lemma NoFragments(nal: seq<byte>, lastNal: bool, startup: bool)
    requires nal != []
    ensures PiecesOf(Fragments(nal, |nal|), lastNal, startup) == []
  {
  }

  lemma FragmentTurn(nal: seq<byte>, offset: nat, lastNal: bool, startup: bool)
    requires 0 < offset < |nal|
    ensures var size := FragmentSize(nal, offset);
            PiecesOf(Fragments(nal, offset), lastNal, startup) ==
            [Piece(FuPayload(nal, offset, size), lastNal && offset + size == |nal|, startup)]
            + PiecesOf(Fragments(nal, offset + size), lastNal, startup)
  {
    hide FuPayload;
    var size := FragmentSize(nal, offset);
    var rest := Fragments(nal, offset + size);
    PiecesOfHead(FuPayload(nal, offset, size), rest, lastNal, startup);
    assert rest == [] <==> offset + size == |nal|;
  }

  // If a tail of the packets begins with `p`, then `p` is the next packet.
  lemma NextPieceIs(pieces: seq<Piece>, k: nat, p: Piece, mid: seq<Piece>, after: seq<Piece>)
    requires k <= |pieces| && pieces[k..] == [p] + mid + after
    ensures k < |pieces| && pieces[k] == p && pieces[k + 1..] == mid + after
  {
    assert pieces[k..][0] == p;
    assert pieces[k + 1..] == pieces[k..][1..];
  }

  lemma TransmitAllDone(r: Run, fate: nat -> Fate)
    requires r.phase.Sending? && r.phase.next <= |PlanPieces(r.phase.plan)| && PlanPieces(r.phase.plan)[r.phase.next..] == []
    ensures TransmitAll(r, fate) == r
  {
  }

  lemma TransmitAllTurn(r: Run, fate: nat -> Fate)
    requires r.phase.Sending? && r.phase.next < |PlanPieces(r.phase.plan)|
    ensures var r1 := TransmitStep(r, fate(r.phase.next));
            && (r1.phase.Sending? ==> r1.phase.plan == r.phase.plan && r1.phase.next == r.phase.next + 1)
            && TransmitAll(r, fate) == (if r1.phase.Sending? then TransmitAll(r1, fate) else r1)
            && (fate(r.phase.next) == TrackClosed ==> r1 == r.(phase := Failing(ClosedDuringSend)))
  {
    hide PlanPieces;
    TransmitKeepsPlan(r, fate(r.phase.next));
  }
}
