// What single events of a run do to the H.264 sender's counters and flags, in terms of the track, the
// units admitted and the events so far.
module SenderEffects {
  import opened Bytes
  import opened AnnexB
  import opened Rtp
  import opened Sender
  import opened SenderSafety
  import opened SenderCounts

  // ---------------------------------------------------------------------------
  // What the kinds of units are
  // ---------------------------------------------------------------------------

  // In a unit that begins with a start code and from which the descriptor loses nothing, configuration,
  // IDR and non-IDR slices are those that the sender actually sends (types 7 and 8, 5, and 1).
  lemma KindsByContent(u: AccessUnit)
    requires u.bytes != [] && StartCodeSize(u.bytes, 0) > 0 && !LosesNal(u.bytes, 0)
    ensures ContainsConfig(u) <==> u.codecConfig || (Carries(u.bytes, 7) && Carries(u.bytes, 8))
    ensures ContainsIdr(u) <==> Carries(u.bytes, 5)
    ensures ContainsNonIdrSlice(u) <==> Carries(u.bytes, 1)
  {
    hide DescribesType, Carries, StartCodeSize;
    DescribedExactly(u.bytes, 7);
    DescribedExactly(u.bytes, 8);
    DescribedExactly(u.bytes, 5);
    DescribedExactly(u.bytes, 1);
  }

  lemma DescribedExactly(b: seq<byte>, t: nat)
    requires b != [] && t > 0 && StartCodeSize(b, 0) > 0 && !LosesNal(b, 0)
    ensures DescribesType(b, t) <==> Carries(b, t)
  {
    hide ScanSpans, SplitSpans, Carries, RecordsType;
    ScanIsSplit(b);
    CarriedTypes(b, t);
  }

  // ---------------------------------------------------------------------------
  // Offers
  // ---------------------------------------------------------------------------

  // The payload type negotiated last, at first 102.
  function LastNegotiated(events: seq<Event>): int {
    if events == [] then 102
    else
      match events[|events| - 1]
      case Negotiate(payloadType) => payloadType
      case _ => LastNegotiated(events[..|events| - 1])
  }

  lemma {:induction false} NegotiatedIsLast(ssrc: nat, events: seq<Event>)
    ensures Exec(Start(ssrc), events).s.negotiatedPayloadType == LastNegotiated(events)
  {
    hide Exec;
    if events == [] {
      NothingHappens(Start(ssrc));
    } else {
      var init, last := events[..|events| - 1], events[|events| - 1];
      assert events == init + [last];
      NegotiatedIsLast(ssrc, init);
      ExecAppend(Start(ssrc), init, last);
      OnlyNegotiationChangesIt(Exec(Start(ssrc), init), last);
    }
  }

  lemma OnlyNegotiationChangesIt(r: Run, e: Event)
    ensures Step(r, e).s.negotiatedPayloadType == if e.Negotiate? then e.payloadType else r.s.negotiatedPayloadType
  {
    hide RememberUnit, GateOf, CountGate, CountFailure, PlanOf, PlanPieces, ShouldSend, StartupRequired, PayloadTypeOf;
  }

  // What an admission changes besides the cache: one counter more next to the delivered units unless the
  // unit is to be sent, the flags about the track as observed, and a payload type from the last negotiation.
  predicate Admission(r: Run, r': Run, config: Option<AccessUnit>, idr: Option<AccessUnit>, negotiated: int, present: bool, open: bool) {
    var c := r.s.counters;
    && r'.s.link == Link(present && config.Some? && idr.Some?, present, open, r.s.link.deliveryActive)
    && (!present ==> r'.s.counters == c.(delivered := c.delivered + 1, skippedNoTrack := c.skippedNoTrack + 1))
    && (present && config.None? ==>
          r'.s.counters == c.(delivered := c.delivered + 1, skippedConfigWait := c.skippedConfigWait + 1))
    && (present && config.Some? && idr.None? ==>
          r'.s.counters == c.(delivered := c.delivered + 1, skippedKeyframeWait := c.skippedKeyframeWait + 1))
    && (present && config.Some? && idr.Some? && !open ==>
          r'.s.counters == c.(delivered := c.delivered + 1, skippedNotOpen := c.skippedNotOpen + 1))
    && (present && config.Some? && idr.Some? && open ==>
          && r'.s.counters == c.(delivered := c.delivered + 1)
          && r'.phase.Checking?
          && r'.phase.t.payloadType == (if negotiated > 0 then negotiated else 102) % 256)
  }

  // What every admission of every run does.
  lemma AdmissionExplained(ssrc: nat, events: seq<Event>, u: AccessUnit, present: bool, open: bool)
    requires Accepted(u)
    requires var r := Exec(Start(ssrc), events); r.phase.Idle? && Fresh(r.s, u)
    ensures var r, r' := Exec(Start(ssrc), events), Exec(Start(ssrc), events + [Offer(u, present, open)]);
            Admission(r, r', Latest(r'.admitted, v => IsConfig(v)), Latest(r'.admitted, v => IsIdr(v)),
                      LastNegotiated(events), present, open)
  {
    hide Inv, Exec, Start, Latest, IsConfig, IsIdr, CountGate, PayloadTypeOf, OfferStep, LastNegotiated, Accepted, Fresh;
    GateExplained(ssrc, events, u, present, open);
    Reachable(ssrc, events);
    NegotiatedIsLast(ssrc, events);
    ExecAppend(Start(ssrc), events, Offer(u, present, open));
    var r := Exec(Start(ssrc), events);
    StepKeepsInv(r, Offer(u, present, open));
    AdmissionEffect(r, u, present, open);
    PayloadTypes(LastNegotiated(events));
    GateCounters(r.s.counters.(delivered := r.s.counters.delivered + 1), Step(r, Offer(u, present, open)).s.gate);
  }

  lemma AdmissionEffect(r: Run, u: AccessUnit, present: bool, open: bool)
    requires Inv(r) && Accepted(u) && Fresh(r.s, u) && Inv(OfferStep(r, u, present, open))
    ensures var r' := OfferStep(r, u, present, open);
            var config, idr := Latest(r'.admitted, v => IsConfig(v)), Latest(r'.admitted, v => IsIdr(v));
            && r'.s.link == Link(present && config.Some? && idr.Some?, present, open, r.s.link.deliveryActive)
            && r'.s.counters == CountGate(r.s.counters.(delivered := r.s.counters.delivered + 1), r'.s.gate)
            && r'.s.negotiatedPayloadType == r.s.negotiatedPayloadType
  {
    hide StartedBefore, StartupFirst, NumberedFrom, Accounts, PhaseInv, Latest, IsConfig, IsIdr, ContainsConfig, ContainsIdr,
         CountGate, PayloadTypeOf, GateOf, ShouldSend, StartupRequired, TicketInv;
  }

  lemma PayloadTypes(negotiated: int)
    ensures PayloadTypeOf(negotiated) == (if negotiated > 0 then negotiated else 102) % 256
  {
  }

  lemma GateCounters(c: Counters, g: Gate)
    ensures var c' := CountGate(c, g);
            && (g == TrackMissing ==> c' == c.(skippedNoTrack := c.skippedNoTrack + 1))
            && (g == ConfigWait ==> c' == c.(skippedConfigWait := c.skippedConfigWait + 1))
            && (g == KeyframeWait ==> c' == c.(skippedKeyframeWait := c.skippedKeyframeWait + 1))
            && (g == TrackNotOpen ==> c' == c.(skippedNotOpen := c.skippedNotOpen + 1))
            && (g == SendingRtp ==> c' == c)
  {
  }

  // An invalid unit changes nothing; a valid one of another codec or without bytes is only counted.
  lemma RejectionExplained(r: Run, u: AccessUnit, present: bool, open: bool)
    requires r.phase.Idle? && !(u.valid && u.codec == H264 && u.bytes != [])
    ensures Step(r, Offer(u, present, open)) ==
            if !u.valid then r
            else r.(s := r.s.(gate := RejectedUnit, counters := r.s.counters.(failed := r.s.counters.failed + 1)))
  {
  }

  // A unit offered to an inactive session only clears the delivery flag, and a repeated one is only counted
  // and the track looked at.
  lemma NotAdmittedExplained(r: Run, u: AccessUnit, present: bool, open: bool)
    requires r.phase.Idle? && Accepted(u) && !Fresh(r.s, u)
    ensures Step(r, Offer(u, present, open)) ==
            if !r.s.active then r.(s := r.s.(gate := SessionInactive, link := r.s.link.(deliveryActive := false)))
            else r.(s := r.s.(link := r.s.link.(trackExists := present, trackOpen := open),
                              counters := r.s.counters.(duplicates := r.s.counters.duplicates + 1)))
  {
  }

  // ---------------------------------------------------------------------------
  // Failures
  // ---------------------------------------------------------------------------

  // What became of a call in the run `r` that fails for this reason and is marked with the track found so.
  predicate FailedCall(r: Run, r': Run, reason: Gate, present: bool, open: bool) {
    var c := r.s.counters;
    && r'.phase.Idle? && r'.committed == r.committed && r'.admitted == r.admitted && r'.s.cache == r.s.cache
    && r'.s.firstDecodableSent == r.s.firstDecodableSent
    && (if r.s.active then
          && r'.s.gate == reason && r'.lost == r.lost && r'.s.link == Link(present, present, open, false)
          && r'.s.counters == (if reason == SendFailed then
                                 c.(packetizationFailures := c.packetizationFailures + 1, sendFailures := c.sendFailures + 1)
                               else c.(packetizationFailures := c.packetizationFailures + 1, trackClosed := c.trackClosed + 1))
        else
          && r'.s.gate == SessionInactive && r'.lost == r.lost + 1 && r'.s.counters == c
          && r'.s.link == r.s.link.(deliveryActive := false))
  }

  // In every run: a track found closed before a packet makes no packet, a send that throws leaves an
  // undelivered one, and the mark that follows counts a closed track or a failed send accordingly.
  lemma SendFailureExplained(ssrc: nat, events: seq<Event>, fate: Fate, present: bool, open: bool)
    requires var r := Exec(Start(ssrc), events);
             r.phase.Sending? && r.phase.next < |PlanPieces(r.phase.plan)| && fate != Delivered
    ensures var r := Exec(Start(ssrc), events);
            var r' := Exec(Start(ssrc), events + [Transmit(fate), Mark(present, open)]);
            && FailedCall(r, r', if fate == ThrowsOther then SendFailed else ClosedDuringSend, present, open)
            && (if fate == TrackClosed then r'.attempts == r.attempts
                else |r'.attempts| == |r.attempts| + 1 && r'.attempts[..|r.attempts|] == r.attempts
                     && !r'.attempts[|r.attempts|].delivered)
  {
    hide Inv, Exec, PlanPieces, FailedCall;
    Reachable(ssrc, events);
    TwoSteps(Start(ssrc), events, Transmit(fate), Mark(present, open));
    SendFailureStep(Exec(Start(ssrc), events), fate, present, open);
  }

  lemma SendFailureStep(r: Run, fate: Fate, present: bool, open: bool)
    requires Inv(r) && r.phase.Sending? && r.phase.next < |PlanPieces(r.phase.plan)| && fate != Delivered
    ensures var r' := Step(Step(r, Transmit(fate)), Mark(present, open));
            && FailedCall(r, r', if fate == ThrowsOther then SendFailed else ClosedDuringSend, present, open)
            && (if fate == TrackClosed then r'.attempts == r.attempts
                else |r'.attempts| == |r.attempts| + 1 && r'.attempts[..|r.attempts|] == r.attempts
                     && !r'.attempts[|r.attempts|].delivered)
  {
    hide PlanPieces, PlanOf, Inv, Step, FailedCall;
    var r1 := Step(r, Transmit(fate));
    TransmitFails(r, fate);
    UnitsInFlight(r);
    MarkedCall(r, r1, present, open);
  }

  lemma UnitsInFlight(r: Run)
    requires Inv(r) && (r.phase.Sending? || r.phase.Checking?)
    ensures r.s.cache.configSeen && r.s.cache.idrAvailable
  {
    hide StartedBefore, StartupFirst, NumberedFrom, Accounts, Remembers, CallSuffix, PlanPieces, PlanOf, IsConfig, IsIdr;
  }

  lemma TransmitFails(r: Run, fate: Fate)
    requires r.phase.Sending? && r.phase.next < |PlanPieces(r.phase.plan)| && fate != Delivered
    ensures var r1 := Step(r, Transmit(fate));
            && r1.phase == Failing(if fate == ThrowsOther then SendFailed else ClosedDuringSend)
            && r1 == r.(phase := r1.phase, attempts := r1.attempts, s := r.s.(sequenceNumber := r1.s.sequenceNumber))
            && (if fate == TrackClosed then r1.attempts == r.attempts
                else |r1.attempts| == |r.attempts| + 1 && r1.attempts[..|r.attempts|] == r.attempts
                     && !r1.attempts[|r.attempts|].delivered)
  {
    hide PlanPieces;
  }

  // The mark of a call that failed between `r` and `r1`.
  lemma MarkedCall(r: Run, r1: Run, present: bool, open: bool)
    requires r1.phase.Failing? && r.s.cache.configSeen && r.s.cache.idrAvailable
    requires r1 == r.(phase := r1.phase, attempts := r1.attempts, s := r.s.(sequenceNumber := r1.s.sequenceNumber))
    requires r1.phase.reason == SendFailed || r1.phase.reason == ClosedDuringSend || r1.phase.reason == ClosedBeforeSend
    ensures var r' := Step(r1, Mark(present, open));
            FailedCall(r, r', r1.phase.reason, present, open) && r'.attempts == r1.attempts
  {
  }

  // The same for a track found closed before the first packet.
  lemma ClosedBeforeSendExplained(ssrc: nat, events: seq<Event>, present: bool, open: bool)
    requires Exec(Start(ssrc), events).phase.Checking?
    ensures var r := Exec(Start(ssrc), events);
            var r' := Exec(Start(ssrc), events + [Recheck(false), Mark(present, open)]);
            FailedCall(r, r', ClosedBeforeSend, present, open) && r'.attempts == r.attempts
  {
    hide Inv, Exec, FailedCall, PlanOf;
    Reachable(ssrc, events);
    TwoSteps(Start(ssrc), events, Recheck(false), Mark(present, open));
    CheckedTicketHasPlan(Exec(Start(ssrc), events));
    ClosedBeforeSendStep(Exec(Start(ssrc), events), present, open);
  }

  lemma ClosedBeforeSendStep(r: Run, present: bool, open: bool)
    requires Inv(r) && r.phase.Checking? && r.phase.t.u.bytes != []
    ensures var r' := Step(Step(r, Recheck(false)), Mark(present, open));
            FailedCall(r, r', ClosedBeforeSend, present, open) && r'.attempts == r.attempts
  {
    hide PlanOf, Inv, FailedCall;
    UnitsInFlight(r);
    MarkedCall(r, Step(r, Recheck(false)), present, open);
  }

  lemma TwoSteps(r: Run, events: seq<Event>, e1: Event, e2: Event)
    ensures Exec(r, events + [e1, e2]) == Step(Step(Exec(r, events), e1), e2)
  {
    hide Step;
    ExecAppend(r, events, e1);
    ExecAppend(r, events + [e1], e2);
    assert events + [e1] + [e2] == events + [e1, e2];
  }

  // ---------------------------------------------------------------------------
  // Commits
  // ---------------------------------------------------------------------------

  // The committed calls that count as a startup injection: the first, and those for an IDR unit without configuration.
  function Injections(units: seq<AccessUnit>, committed: seq<nat>): nat {
    if committed == [] then 0
    else
      var call := committed[|committed| - 1];
      Injections(units, committed[..|committed| - 1])
      + (if |committed| == 1 || (1 <= call <= |units| && IsIdr(units[call - 1]) && !IsConfig(units[call - 1])) then 1 else 0)
  }

  predicate IsKey(u: AccessUnit) {
    u.keyframe || IsIdr(u)
  }

  predicate Flagged(r: Run) {
    && r.s.counters.startupInjections == Injections(r.admitted, r.committed)
    && (r.s.firstDecodableSent <==> r.committed != [])
    && (forall c :: c in r.committed ==> 1 <= c <= |r.admitted|)
    && (r.s.cache.keyframeSeen <==> Latest(r.admitted, v => IsKey(v)).Some?)
  }

  lemma {:induction false} InjectionsStay(units: seq<AccessUnit>, u: AccessUnit, committed: seq<nat>)
    requires forall c :: c in committed ==> 1 <= c <= |units|
    ensures Injections(units + [u], committed) == Injections(units, committed)
  {
    hide IsIdr, IsConfig;
    if committed == [] {
    } else {
      var init := committed[..|committed| - 1];
      forall c | c in init
        ensures 1 <= c <= |units|
      {
        assert c in committed;
      }
      InjectionsStay(units, u, init);
      assert committed[|committed| - 1] in committed;
    }
  }

  lemma OfferKeepsFlags(r: Run, u: AccessUnit, present: bool, open: bool)
    requires Flagged(r) && r.phase.Idle?
    ensures Flagged(OfferStep(r, u, present, open))
  {
    hide Injections;
    if Accepted(u) {
      hide IsConfig, IsIdr, IsKey, Latest;
      InjectionsStay(r.admitted, u, r.committed);
      LatestAppend(r.admitted, u, v => IsKey(v));
      OfferFlags(r, u, present, open);
    }
  }

  lemma OfferFlags(r: Run, u: AccessUnit, present: bool, open: bool)
    requires Accepted(u)
    ensures var r' := OfferStep(r, u, present, open);
            && r'.s.counters.startupInjections == r.s.counters.startupInjections
            && r'.s.firstDecodableSent == r.s.firstDecodableSent && r'.committed == r.committed
            && r'.admitted == (if Fresh(r.s, u) then r.admitted + [u] else r.admitted)
            && r'.s.cache.keyframeSeen == (r.s.cache.keyframeSeen || (Fresh(r.s, u) && IsKey(u)))
  {
    hide ContainsConfig, ContainsIdr, GateOf, ShouldSend, StartupRequired, PayloadTypeOf;
  }

  lemma CommitKeepsFlags(r: Run, open: bool)
    requires Inv(r) && Flagged(r) && r.phase.Sending?
    ensures Flagged(CommitStep(r, open))
  {
    hide Inv, Injections, Latest, IsKey;
    CommitInjects(r);
    var committed := r.committed + [|r.admitted|];
    assert committed[..|r.committed|] == r.committed;
    InjectionsTurn(r.admitted, r.committed, |r.admitted|);
  }

  lemma InjectionsTurn(units: seq<AccessUnit>, committed: seq<nat>, call: nat)
    requires 1 <= call <= |units|
    ensures Injections(units, committed + [call]) == Injections(units, committed)
            + (if committed == [] || (IsIdr(units[call - 1]) && !IsConfig(units[call - 1])) then 1 else 0)
  {
    hide IsIdr, IsConfig;
    assert (committed + [call])[..|committed|] == committed;
  }

  lemma CommitInjects(r: Run)
    requires Inv(r) && r.phase.Sending?
    ensures |r.admitted| >= 1
    ensures var u := r.admitted[|r.admitted| - 1];
            r.phase.plan.sendsStartup <==> !r.s.firstDecodableSent || (IsIdr(u) && !IsConfig(u))
  {
    hide StartedBefore, StartupFirst, NumberedFrom, Accounts, Remembers, CacheInv, PlanOf, PlanPieces, CallSuffix, SendsExactly,
         ContainsConfig, ContainsIdr, IsConfig, IsIdr;
    PlanContents(r.s, r.phase.t);
    KindsOf(r.phase.t.u);
  }

  lemma StepKeepsFlags(r: Run, e: Event)
    requires Inv(r) && Flagged(r)
    ensures Flagged(Step(r, e))
  {
    hide Inv, OfferStep, CommitStep, PlanOf, PlanPieces, Injections, Latest, IsKey;
    match e
    case Offer(u, present, open) =>
      if r.phase.Idle? { OfferKeepsFlags(r, u, present, open); }
    case Commit(open) =>
      if r.phase.Sending? && r.phase.next == |PlanPieces(r.phase.plan)| { CommitKeepsFlags(r, open); }
    case _ =>
  }

  lemma {:induction false} ExecKeepsFlags(r: Run, events: seq<Event>)
    requires Inv(r) && Flagged(r)
    ensures Flagged(Exec(r, events))
    decreases |events|
  {
    hide Inv, Flagged, Step;
    if events == [] {
    } else {
      StepKeepsInv(r, events[0]);
      StepKeepsFlags(r, events[0]);
      ExecKeepsFlags(Step(r, events[0]), events[1..]);
    }
  }

  // In every run the first committed call and every committed call for an IDR unit without configuration counts as a
  // startup injection, the sender has started exactly when some call was committed, and a keyframe
  // was seen exactly when one was admitted.
  lemma InjectionsAreCounted(ssrc: nat, events: seq<Event>)
    ensures Flagged(Exec(Start(ssrc), events))
  {
    hide Exec, Inv;
    StartsWithInv(ssrc);
    ExecKeepsFlags(Start(ssrc), events);
  }

  // A commit shows delivery, the track as found then, and nothing else of the link changes.
  lemma CommitExplained(r: Run, open: bool)
    requires r.phase.Sending? && r.phase.next == |PlanPieces(r.phase.plan)|
    ensures var r' := Step(r, Commit(open));
            && r'.phase.Idle? && r'.committed == r.committed + [|r.admitted|] && r'.attempts == r.attempts
            && r'.s.link.deliveryActive && r'.s.link.trackOpen == open
            && r'.s.link.ready == r.s.link.ready && r'.s.link.trackExists == r.s.link.trackExists
            && r'.s.active == r.s.active && r'.s.gate == r.s.gate && r'.s.cache == r.s.cache
  {
    hide PlanPieces;
  }

  // A teardown clears what clients see of the track and delivery; caches, counters and the start are kept.
  lemma TeardownExplained(r: Run)
    ensures var r' := Step(r, Deactivate);
            && !r'.s.active && r'.s.gate == SessionInactive && r'.s.link == Link(false, false, false, false)
            && r'.s.cache == r.s.cache && r'.s.counters == r.s.counters && r'.s.sequenceNumber == r.s.sequenceNumber
            && r'.s.firstDecodableSent == r.s.firstDecodableSent && r'.phase == r.phase && r'.attempts == r.attempts
  {
  }
}
