// What holds of the H.264 sender in every reachable state, whatever units arrive, however
// the track behaves and whenever the session is torn down or renegotiated.
module SenderSafety {
  import opened Bytes
  import opened AnnexB
  import opened Rtp
  import opened Sender

  predicate IsConfig(u: AccessUnit) {
    Accepted(u) && ContainsConfig(u)
  }

  predicate IsIdr(u: AccessUnit) {
    Accepted(u) && ContainsIdr(u)
  }

  // ---------------------------------------------------------------------------
  // The gate
  // ---------------------------------------------------------------------------

  // The flags about the retained units mean what they say.
  predicate CacheOk(c: Cache) {
    && (c.configSeen <==> c.config.Some?)
    && (c.configAvailable <==> c.config.Some?)
    && (c.idrAvailable <==> c.idr.Some?)
    && (c.config.Some? ==> IsConfig(c.config.value))
    && (c.idr.Some? ==> IsIdr(c.idr.value))
  }

  // The unit of a kind that was admitted last.
  function Latest(units: seq<AccessUnit>, kind: AccessUnit -> bool): (u: Option<AccessUnit>)
    ensures u.Some? ==> u.value in units && kind(u.value)
  {
    if units == [] then None
    else if kind(units[|units| - 1]) then Some(units[|units| - 1])
    else Latest(units[..|units| - 1], kind)
  }

  lemma LatestAppend(units: seq<AccessUnit>, u: AccessUnit, kind: AccessUnit -> bool)
    ensures Latest(units + [u], kind) == if kind(u) then Some(u) else Latest(units, kind)
  {
    assert (units + [u])[..|units|] == units;
  }

  // The retained units are the last configuration and the last IDR unit admitted.
  predicate Remembers(r: Run) {
    && r.s.cache.config == Latest(r.admitted, u => IsConfig(u))
    && r.s.cache.idr == Latest(r.admitted, u => IsIdr(u))
    && r.s.counters.delivered == |r.admitted|
    && r.s.lastSequenceId == LastId(r.admitted)
  }

  // The sequence id remembered for the repeat test: that of the last unit admitted, at first 0.
  function LastId(units: seq<AccessUnit>): nat {
    if units == [] then 0 else units[|units| - 1].sequenceId
  }

  predicate CacheInv(s: State) {
    && CacheOk(s.cache)
    && s.startupSent == s.firstDecodableSent
    && (s.firstDecodableSent ==> s.cache.config.Some? && s.cache.idr.Some?)
  }

  predicate TicketInv(s: State, t: Ticket) {
    && Accepted(t.u)
    && t.firstDecodableSent == s.firstDecodableSent
    && t.startupRequired == !t.firstDecodableSent
    && s.cache.config.Some? && s.cache.idr.Some?
    && t.configAvailable && t.config == s.cache.config && IsConfig(t.config.value)
    && t.idr == s.cache.idr && IsIdr(t.idr.value)
    && (ContainsConfig(t.u) ==> t.config == Some(t.u))
    && (ContainsIdr(t.u) ==> t.idr == Some(t.u))
  }

  lemma RememberKeepsCache(c: Cache, u: AccessUnit)
    requires CacheOk(c) && Accepted(u)
    ensures var c' := RememberUnit(c, u);
            && CacheOk(c')
            && (c.config.Some? ==> c'.config.Some?) && (c.idr.Some? ==> c'.idr.Some?)
            && (ContainsConfig(u) ==> c'.config == Some(u)) && (ContainsIdr(u) ==> c'.idr == Some(u))
  {
    hide IsConfig, IsIdr, ContainsConfig, ContainsIdr;
    KindsOf(u);
  }

  lemma KindsOf(u: AccessUnit)
    requires Accepted(u)
    ensures IsConfig(u) <==> ContainsConfig(u)
    ensures IsIdr(u) <==> ContainsIdr(u)
  {
  }

  // The five arms of the gate that hold a unit back.
  predicate HoldsBack(g: Gate) {
    g.TrackMissing? || g.ConfigWait? || g.KeyframeWait? || g.TrackNotOpen? || g.StartupIdrWait?
  }

  // With a consistent cache the gate's last arm is taken exactly when the unit is to be sent,
  // and the arm that waits for a startup IDR is never taken.
  lemma GateIsExact(c: Cache, started: bool, present: bool, open: bool, idr: bool)
    requires CacheOk(c) && (started ==> c.config.Some? && c.idr.Some?)
    ensures var g := GateOf(c, started, started, present, open, idr);
            && (ShouldSend(c, started, started, present, open, idr) <==> g == SendingRtp)
            && (HoldsBack(g) || g == SendingRtp) && g != StartupIdrWait
            && (g == SendingRtp ==> c.config.Some? && c.idr.Some? && StartupRequired(c, started, present && open) == !started)
  {
  }

  // What a decision does to the state, arm by arm.
  lemma DecideEffect(s: State, u: AccessUnit, present: bool, open: bool)
    requires CacheInv(s) && Accepted(u)
    ensures var s', t := Decide(s, u, present, open).0, Decide(s, u, present, open).1;
            && CacheInv(s')
            && s'.firstDecodableSent == s.firstDecodableSent
            && s'.sequenceNumber == s.sequenceNumber
            && s'.active == s.active
            && (if !s.active then t.None? && s'.counters == s.counters && s'.link == s.link.(deliveryActive := false)
                else if s.lastSequenceId == u.sequenceId then
                  t.None? && s'.counters == s.counters.(duplicates := s.counters.duplicates + 1)
                else
                  && s'.counters == CountGate(s.counters.(delivered := s.counters.delivered + 1), s'.gate)
                  && (t.Some? <==> s'.gate == SendingRtp)
                  && (t.None? ==> HoldsBack(s'.gate) && s'.gate != StartupIdrWait)
                  && (t.Some? ==> TicketInv(s', t.value) && t.value.u == u))
  {
    hide DescribesType, RememberUnit, ContainsConfig, ContainsIdr, CountGate, GateOf, ShouldSend, StartupRequired, IsConfig, IsIdr;
    if s.active {
      RememberKeepsCache(s.cache, u);
      GateIsExact(RememberUnit(s.cache, u), s.startupSent, present, open, ContainsIdr(u));
    }
  }

  // A unit that passes the gate always has a plan, and the plan starts the sender if it was not started.
  lemma TicketHasPlan(s: State, t: Ticket)
    requires TicketInv(s, t)
    ensures PlanOf(t).Some?
    ensures PlanOf(t).value.sendsStartup || s.firstDecodableSent
  {
    hide DescribesType;
  }

  // ---------------------------------------------------------------------------
  // The log of attempts
  // ---------------------------------------------------------------------------

  // Every attempt belongs to the call and its send returned.
  predicate HandedOver(log: seq<Attempt>, call: nat) {
    forall i :: 0 <= i < |log| ==> log[i].delivered && log[i].call == call
  }

  function LogPayloads(log: seq<Attempt>): seq<seq<byte>> {
    seq(|log|, i requires 0 <= i < |log| => log[i].payload)
  }

  // log[a..b] is every packet of the configuration unit `c`, log[b..e] every packet of the
  // IDR unit `d`, all handed over without failure in the one call and before position `n`;
  // both units were admitted.
  predicate StartupAt(log: seq<Attempt>, units: seq<AccessUnit>, call: nat, n: nat,
                      a: nat, b: nat, e: nat, c: AccessUnit, d: AccessUnit) {
    && a <= b <= e <= n <= |log|
    && HandedOver(log[a..e], call)
    && c in units && IsConfig(c) && LogPayloads(log[a..b]) == PayloadsOf(Split(c.bytes))
    && d in units && IsIdr(d) && LogPayloads(log[b..e]) == PayloadsOf(Split(d.bytes))
  }

  // One of the calls handed over a whole startup before position `n`.
  ghost predicate StartedBefore(log: seq<Attempt>, units: seq<AccessUnit>, calls: seq<nat>, n: nat) {
    exists call: nat, a: nat, b: nat, e: nat, c: AccessUnit, d: AccessUnit ::
      call in calls && StartupAt(log, units, call, n, a, b, e, c, d)
  }

  lemma StartupAtStays(log: seq<Attempt>, more: seq<Attempt>, units: seq<AccessUnit>, units': seq<AccessUnit>, call: nat,
                       n: nat, m: nat, a: nat, b: nat, e: nat, c: AccessUnit, d: AccessUnit)
    requires StartupAt(log, units, call, n, a, b, e, c, d) && n <= m <= |log + more| && units <= units'
    ensures StartupAt(log + more, units', call, m, a, b, e, c, d)
  {
    hide IsConfig, IsIdr, PayloadsOf, Split, LogPayloads, HandedOver;
    assert (log + more)[a..b] == log[a..b] && (log + more)[b..e] == log[b..e] && (log + more)[a..e] == log[a..e];
    assert units' == units + units'[|units|..];
  }

  lemma StartedStays(log: seq<Attempt>, more: seq<Attempt>, units: seq<AccessUnit>, units': seq<AccessUnit>,
                     calls: seq<nat>, calls': seq<nat>, n: nat, m: nat)
    requires StartedBefore(log, units, calls, n) && n <= m <= |log + more| && units <= units'
    requires forall call :: call in calls ==> call in calls'
    ensures StartedBefore(log + more, units', calls', m)
  {
    hide StartupAt;
    var call: nat, a: nat, b: nat, e: nat, c: AccessUnit, d: AccessUnit :|
      call in calls && StartupAt(log, units, call, n, a, b, e, c, d);
    StartupAtStays(log, more, units, units', call, n, m, a, b, e, c, d);
  }

  // The n-th attempt has sequence number n, fits a packet, and carries the timestamp of the unit it
  // was made for and the sender's synchronisation source.
  predicate Stamped(a: Attempt, n: nat, units: seq<AccessUnit>, ssrc: nat) {
    && ValidHeader(a.header) && a.header.sequenceNumber == n % U16 && FitsLimit(a.payload) && a.header.ssrc == ssrc % U32
    && 1 <= a.call <= |units| && a.header.timestamp == RtpTimestamp(units[a.call - 1].timestampNs)
  }

  predicate NumberedFrom(log: seq<Attempt>, units: seq<AccessUnit>, ssrc: nat) {
    forall i :: 0 <= i < |log| ==> Stamped(log[i], i, units, ssrc)
  }

  // Before every packet outside a startup, the call it belongs to or a committed one has started the sender.
  ghost predicate StartupFirst(log: seq<Attempt>, units: seq<AccessUnit>, committed: seq<nat>) {
    forall i :: 0 <= i < |log| && !log[i].startup ==> StartedBefore(log, units, committed + [log[i].call], i)
  }

  // What all packets of one call share.
  datatype CallStamp = CallStamp(call: nat, payloadType: byte, ssrc: nat)

  function StampOf(r: Run): CallStamp
    requires r.phase.Sending?
  {
    CallStamp(|r.admitted|, r.phase.t.payloadType, r.ssrc % U32)
  }

  // The last `n` attempts are the first `n` packets of the plan, all handed over by the call.
  predicate CallSuffix(log: seq<Attempt>, pieces: seq<Piece>, n: nat, call: CallStamp) {
    && n <= |log| && n <= |pieces|
    && forall j :: 0 <= j < n ==> Transmitted(log[|log| - n + j], pieces[j], call)
  }

  predicate Transmitted(a: Attempt, piece: Piece, call: CallStamp) {
    && a.delivered && a.call == call.call && a.payload == piece.payload && a.startup == piece.startup
    && a.header.marker == piece.marker && a.header.payloadType == call.payloadType && a.header.ssrc == call.ssrc
  }

  // ---------------------------------------------------------------------------
  // The invariant
  // ---------------------------------------------------------------------------

  predicate IsNewest(units: seq<AccessUnit>, u: AccessUnit) {
    units != [] && units[|units| - 1] == u
  }

  predicate PhaseInv(r: Run) {
    match r.phase
    case Idle => true
    case Checking(t) => TicketInv(r.s, t) && IsNewest(r.admitted, t.u)
    case Sending(t, plan, next, startupPackets) =>
      && TicketInv(r.s, t) && IsNewest(r.admitted, t.u) && PlanOf(t) == Some(plan)
      && CallSuffix(r.attempts, PlanPieces(plan), next, StampOf(r)) && startupPackets <= next
    case Failing(g) => g.ClosedBeforeSend? || g.ClosedDuringSend? || g.SendFailed?
  }

  function Skips(c: Counters): nat {
    c.skippedNoTrack + c.skippedConfigWait + c.skippedKeyframeWait + c.skippedNotOpen + c.skippedStartupIdrWait
  }

  function InFlight(r: Run): nat {
    if r.phase.Idle? then 0 else 1
  }

  predicate Accounts(r: Run) {
    var c := r.s.counters;
    && c.delivered == Skips(c) + |r.committed| + c.packetizationFailures + r.lost + InFlight(r)
    && c.packetizationFailures == c.trackClosed + c.sendFailures
    && c.packetsAttempted == c.packetsSentAfterTrackOpen
    && c.startupPackets <= c.packetsAttempted
    && c.firstDecodableTransitions == (if r.s.firstDecodableSent then 1 else 0)
    && c.firstDecodableTransitions <= c.startupInjections <= |r.committed|
    && c.skippedStartupIdrWait == 0
    && (!r.s.active ==> !r.s.link.ready && !r.s.link.trackExists)
  }

  ghost predicate Inv(r: Run) {
    && CacheInv(r.s)
    && Remembers(r)
    && PhaseInv(r)
    && Accounts(r)
    && r.s.sequenceNumber == |r.attempts| % U16
    && NumberedFrom(r.attempts, r.admitted, r.ssrc)
    && StartupFirst(r.attempts, r.admitted, r.committed)
    && (r.s.firstDecodableSent ==> StartedBefore(r.attempts, r.admitted, r.committed, |r.attempts|))
  }

  // ---------------------------------------------------------------------------
  // Every step keeps it
  // ---------------------------------------------------------------------------

  lemma OfferKeepsInv(r: Run, u: AccessUnit, present: bool, open: bool)
    requires Inv(r) && r.phase.Idle?
    ensures Inv(OfferStep(r, u, present, open))
  {
    hide Decide, StartedBefore, StartupFirst, NumberedFrom, TicketInv;
    if Accepted(u) {
      hide CacheInv, Accounts, Remembers;
      DecideEffect(r.s, u, present, open);
      DecideAccounts(r, u, present, open);
      OfferRemembers(r, u, present, open);
      var r' := OfferStep(r, u, present, open);
      assert r.admitted <= r'.admitted;
      HistoryGrows(r.attempts, r.ssrc, r.admitted, r'.admitted, r.committed, r.committed);
    }
  }

  lemma OfferRemembers(r: Run, u: AccessUnit, present: bool, open: bool)
    requires Remembers(r) && Accepted(u)
    ensures Remembers(OfferStep(r, u, present, open))
  {
    hide ContainsConfig, ContainsIdr, IsConfig, IsIdr, GateOf, ShouldSend, StartupRequired, Latest, CountGate, PayloadTypeOf;
    KindsOf(u);
    LatestAppend(r.admitted, u, v => IsConfig(v));
    LatestAppend(r.admitted, u, v => IsIdr(v));
    CountGateKeepsDelivered(r.s.counters.(delivered := r.s.counters.delivered + 1), OfferStep(r, u, present, open).s.gate);
  }

  lemma CountGateKeepsDelivered(c: Counters, g: Gate)
    ensures CountGate(c, g).delivered == c.delivered
  {
  }

  lemma DecideAccounts(r: Run, u: AccessUnit, present: bool, open: bool)
    requires CacheInv(r.s) && Accounts(r) && r.phase.Idle? && Accepted(u)
    ensures Accounts(OfferStep(r, u, present, open))
    ensures OfferStep(r, u, present, open).s.firstDecodableSent == r.s.firstDecodableSent
    ensures OfferStep(r, u, present, open).s.sequenceNumber == r.s.sequenceNumber
  {
    hide Decide, CacheInv, TicketInv;
    DecideEffect(r.s, u, present, open);
  }

  lemma RecheckKeepsInv(r: Run, sendable: bool)
    requires Inv(r) && r.phase.Checking?
    ensures Inv(RecheckStep(r, sendable))
  {
    hide Split, DescribesType, StartedBefore, StartupFirst, NumberedFrom, PlanPieces;
    TicketHasPlan(r.s, r.phase.t);
  }

  lemma PlanShape(s: State, t: Ticket)
    requires TicketInv(s, t)
    ensures PlanOf(t).Some?
    ensures var p := PlanOf(t).value;
            && p.startupNals <= |p.nals| && p.nals != [] && (forall n :: n in p.nals ==> n != [])
            && (t.startupRequired ==>
                  p.startupNals == |Split(t.config.value.bytes)| + |Split(t.idr.value.bytes)|
                  && p.nals[..p.startupNals] == Split(t.config.value.bytes) + Split(t.idr.value.bytes))
  {
    hide DescribesType, Split;
    TicketHasPlan(s, t);
    SplitNalsNonEmpty(t.u.bytes);
    SplitNalsNonEmpty(t.config.value.bytes);
    SplitNalsNonEmpty(t.idr.value.bytes);
  }

  lemma SplitNalsNonEmpty(b: seq<byte>)
    ensures forall n :: n in Split(b) ==> n != []
  {
    forall n | n in Split(b)
      ensures n != []
    {
      var k :| 0 <= k < |Split(b)| && Split(b)[k] == n;
      SplitYieldsNoEmptyNal(b, k);
    }
  }

  // Once every packet of the first two units of a call is handed over, the log contains a startup.
  lemma HandedOverIsStartup(log: seq<Attempt>, units: seq<AccessUnit>, call: CallStamp, pieces: seq<Piece>, n: nat,
                            nals: seq<seq<byte>>, c: AccessUnit, d: AccessUnit)
    requires CallSuffix(log, pieces, n, call) && c in units && IsConfig(c) && d in units && IsIdr(d)
    requires Split(c.bytes) + Split(d.bytes) <= nals && PiecePayloads(pieces) == PayloadsOf(nals)
    requires n >= |PayloadsOf(Split(c.bytes) + Split(d.bytes))|
    ensures StartedBefore(log, units, [call.call], |log|)
  {
    hide IsConfig, IsIdr, StartedBefore, PayloadsOf, Split, PiecePayloads, CallSuffix, LogPayloads, HandedOver;
    var cs, ds := Split(c.bytes), Split(d.bytes);
    var x, y := |PayloadsOf(cs)|, |PayloadsOf(ds)|;
    PayloadsOfConcat(cs, ds);
    assert nals == cs + ds + nals[|cs| + |ds|..];
    PayloadsOfConcat(cs + ds, nals[|cs| + |ds|..]);
    assert PayloadsOf(nals)[0..x] == PayloadsOf(cs);
    assert PayloadsOf(nals)[x..x + y] == PayloadsOf(ds);
    SuffixPayloads(log, pieces, n, call, 0, x);
    SuffixPayloads(log, pieces, n, call, x, x + y);
    CallSuffixBounds(log, pieces, n, call);
    var a := |log| - n;
    StartupWitness(log, units, call.call, a, a + x, a + x + y, c, d);
  }

  lemma CallSuffixBounds(log: seq<Attempt>, pieces: seq<Piece>, n: nat, call: CallStamp)
    requires CallSuffix(log, pieces, n, call)
    ensures n <= |log| && n <= |pieces|
  {
  }

  // The retained units that a call works from were admitted.
  lemma TicketUnitsAdmitted(r: Run)
    requires Inv(r) && r.phase.Sending?
    ensures var t := r.phase.t;
            t.config.Some? && t.config.value in r.admitted && t.idr.Some? && t.idr.value in r.admitted
  {
    hide StartedBefore, StartupFirst, NumberedFrom, PlanOf, CallSuffix, IsConfig, IsIdr, PlanPieces, Accounts, ContainsConfig, ContainsIdr;
  }

  // Past the startup packets of its call, the sender has started.
  lemma StartupHandedOver(r: Run)
    requires Inv(r) && r.phase.Sending?
    requires var p := r.phase.plan; p.startupNals <= |p.nals| && r.phase.next >= |PayloadsOf(p.nals[..p.startupNals])|
    ensures StartedBefore(r.attempts, r.admitted, r.committed + [|r.admitted|], |r.attempts|)
  {
    hide DescribesType, StartedBefore, StartupFirst, NumberedFrom, PayloadsOf, Split, PlanOf, CallSuffix, IsConfig, IsIdr,
         CacheOk, Accounts, Remembers;
    var t, plan, call := r.phase.t, r.phase.plan, |r.admitted|;
    if t.startupRequired {
      PlanShape(r.s, t);
      PiecesCarryPayloads(plan.nals, 0, plan.startupNals);
      assert plan.nals[0..] == plan.nals;
      TicketUnitsAdmitted(r);
      HandedOverIsStartup(r.attempts, r.admitted, StampOf(r), PlanPieces(plan), r.phase.next, plan.nals, t.config.value, t.idr.value);
      StartedStays(r.attempts, [], r.admitted, r.admitted, [call], r.committed + [call], |r.attempts|, |r.attempts|);
    } else {
      StartedStays(r.attempts, [], r.admitted, r.admitted, r.committed, r.committed + [call], |r.attempts|, |r.attempts|);
    }
    assert r.attempts + [] == r.attempts;
  }

  lemma StartupWitness(log: seq<Attempt>, units: seq<AccessUnit>, call: nat, a: nat, b: nat, e: nat, c: AccessUnit, d: AccessUnit)
    requires StartupAt(log, units, call, |log|, a, b, e, c, d)
    ensures StartedBefore(log, units, [call], |log|)
  {
    assert call in [call];
  }

  lemma SuffixPayloads(log: seq<Attempt>, pieces: seq<Piece>, n: nat, call: CallStamp, from: nat, to: nat)
    requires CallSuffix(log, pieces, n, call) && from <= to <= n
    ensures LogPayloads(log[|log| - n + from..|log| - n + to]) == PiecePayloads(pieces)[from..to]
    ensures HandedOver(log[|log| - n..|log| - n + to], call.call)
  {
    var a := |log| - n;
    var sent := log[a..a + to];
    forall i | 0 <= i < |sent|
      ensures sent[i].delivered && sent[i].call == call.call
    {
      assert Transmitted(log[|log| - n + i], pieces[i], call);
    }
    forall i | 0 <= i < to - from
      ensures log[a + from..a + to][i].payload == PiecePayloads(pieces)[from..to][i]
    {
      assert Transmitted(log[|log| - n + (from + i)], pieces[from + i], call);
    }
  }

  lemma NumberedGrows(log: seq<Attempt>, units: seq<AccessUnit>, ssrc: nat, a: Attempt)
    requires NumberedFrom(log, units, ssrc) && Stamped(a, |log|, units, ssrc)
    ensures NumberedFrom(log + [a], units, ssrc)
  {
    hide Stamped;
  }

  lemma StartupFirstGrows(log: seq<Attempt>, units: seq<AccessUnit>, committed: seq<nat>, a: Attempt)
    requires StartupFirst(log, units, committed)
    requires a.startup || StartedBefore(log, units, committed + [a.call], |log|)
    ensures StartupFirst(log + [a], units, committed)
  {
    hide StartedBefore;
    forall i | 0 <= i < |log + [a]| && !(log + [a])[i].startup
      ensures StartedBefore(log + [a], units, committed + [(log + [a])[i].call], i)
    {
      if i < |log| {
        assert !log[i].startup;
      }
      var calls := committed + [(log + [a])[i].call];
      StartedStays(log, [a], units, units, calls, calls, i, i);
    }
  }

  // What was said of the log stays true when further units are admitted and further calls commit.
  lemma HistoryGrows(log: seq<Attempt>, ssrc: nat, units: seq<AccessUnit>, units': seq<AccessUnit>,
                     committed: seq<nat>, committed': seq<nat>)
    requires NumberedFrom(log, units, ssrc) && StartupFirst(log, units, committed) && units <= units' && committed <= committed'
    ensures NumberedFrom(log, units', ssrc) && StartupFirst(log, units', committed')
    ensures StartedBefore(log, units, committed, |log|) ==> StartedBefore(log, units', committed', |log|)
  {
    hide StartedBefore;
    assert committed' == committed + committed'[|committed|..];
    assert log + [] == log;
    forall i | 0 <= i < |log| && !log[i].startup
      ensures StartedBefore(log, units', committed' + [log[i].call], i)
    {
      StartedStays(log, [], units, units', committed + [log[i].call], committed' + [log[i].call], i, i);
    }
    forall i | 0 <= i < |log|
      ensures Stamped(log[i], i, units', ssrc)
    {
      assert Stamped(log[i], i, units, ssrc);
    }
    if StartedBefore(log, units, committed, |log|) {
      StartedStays(log, [], units, units', committed, committed', |log|, |log|);
    }
  }

  // A packet outside the startup sequence is only reached by a sender that has started.
  lemma NextPiece(r: Run)
    requires Inv(r) && r.phase.Sending? && r.phase.next < |PlanPieces(r.phase.plan)|
    ensures var piece := PlanPieces(r.phase.plan)[r.phase.next];
            FitsLimit(piece.payload) &&
            (piece.startup || StartedBefore(r.attempts, r.admitted, r.committed + [|r.admitted|], |r.attempts|))
  {
    hide DescribesType, StartedBefore, StartupFirst, NumberedFrom, PayloadsOf, Split, PlanOf, CallSuffix, IsConfig, IsIdr,
         CacheOk, FitsLimit, Accounts, Remembers;
    var plan, k := r.phase.plan, r.phase.next;
    PlanShape(r.s, r.phase.t);
    PiecesCarryPayloads(plan.nals, 0, plan.startupNals);
    assert plan.nals[0..] == plan.nals;
    assert PiecePayloads(PlanPieces(plan))[k] == PlanPieces(plan)[k].payload;
    PayloadsFit(plan.nals, k);
    StartupIsPrefix(plan.nals, 0, plan.startupNals, k);
    assert plan.nals[0..plan.startupNals] == plan.nals[..plan.startupNals];
    if !PlanPieces(plan)[k].startup {
      StartupHandedOver(r);
    }
  }

  // The log grows by one attempt that belongs to the current call.
  lemma AttemptKeepsLog(r: Run, delivered: bool)
    requires Inv(r) && r.phase.Sending? && r.phase.next < |PlanPieces(r.phase.plan)|
    ensures var r' := Made(r, PlanPieces(r.phase.plan)[r.phase.next], delivered);
            && r'.s.sequenceNumber == |r'.attempts| % U16
            && NumberedFrom(r'.attempts, r.admitted, r.ssrc)
            && StartupFirst(r'.attempts, r.admitted, r.committed)
            && (r.s.firstDecodableSent ==> StartedBefore(r'.attempts, r.admitted, r.committed, |r'.attempts|))
  {
    hide StartedBefore, StartupFirst, NumberedFrom, PlanOf, CallSuffix, CacheOk, FitsLimit, PlanPieces, IsConfig, IsIdr,
         Accounts, Remembers;
    var a := AttemptOf(r, PlanPieces(r.phase.plan)[r.phase.next], delivered);
    NextPiece(r);
    NumberedGrows(r.attempts, r.admitted, r.ssrc, a);
    StartupFirstGrows(r.attempts, r.admitted, r.committed, a);
    if r.s.firstDecodableSent {
      StartedStays(r.attempts, [a], r.admitted, r.admitted, r.committed, r.committed, |r.attempts|, |r.attempts| + 1);
    }
  }

  lemma CallSuffixGrows(log: seq<Attempt>, pieces: seq<Piece>, n: nat, call: CallStamp, a: Attempt)
    requires CallSuffix(log, pieces, n, call) && n < |pieces| && Transmitted(a, pieces[n], call)
    ensures CallSuffix(log + [a], pieces, n + 1, call)
  {
    forall j | 0 <= j < n + 1
      ensures Transmitted((log + [a])[|log + [a]| - (n + 1) + j], pieces[j], call)
    {
      if j < n {
        assert Transmitted(log[|log| - n + j], pieces[j], call);
      }
    }
  }

  lemma TransmitKeepsInv(r: Run, fate: Fate)
    requires Inv(r) && r.phase.Sending? && r.phase.next < |PlanPieces(r.phase.plan)|
    ensures Inv(TransmitStep(r, fate))
  {
    hide DescribesType, StartedBefore, StartupFirst, NumberedFrom, Split, PlanOf, CallSuffix, CacheOk, PlanPieces, IsConfig, IsIdr;
    if fate != TrackClosed {
      AttemptKeepsLog(r, fate == Delivered);
      var pieces := PlanPieces(r.phase.plan);
      if fate == Delivered {
        CallSuffixGrows(r.attempts, pieces, r.phase.next, StampOf(r), AttemptOf(r, pieces[r.phase.next], true));
      }
    }
  }

  lemma FinishedCallHasStarted(r: Run)
    requires Inv(r) && r.phase.Sending? && r.phase.next == |PlanPieces(r.phase.plan)|
    ensures StartedBefore(r.attempts, r.admitted, r.committed + [|r.admitted|], |r.attempts|)
  {
    hide DescribesType, StartedBefore, StartupFirst, NumberedFrom, Split, PlanOf, CallSuffix, CacheOk, IsConfig, IsIdr, PayloadsOf;
    var plan := r.phase.plan;
    PlanShape(r.s, r.phase.t);
    PiecesCarryPayloads(plan.nals, 0, plan.startupNals);
    assert plan.nals[0..] == plan.nals == plan.nals[..plan.startupNals] + plan.nals[plan.startupNals..];
    PayloadsOfConcat(plan.nals[..plan.startupNals], plan.nals[plan.startupNals..]);
    StartupHandedOver(r);
  }

  lemma CommitKeepsInv(r: Run, open: bool)
    requires Inv(r) && r.phase.Sending? && r.phase.next == |PlanPieces(r.phase.plan)|
    ensures Inv(CommitStep(r, open))
  {
    hide StartedBefore, StartupFirst, NumberedFrom, PlanOf, CallSuffix, CacheOk, IsConfig, IsIdr, PlanPieces;
    FinishedCallHasStarted(r);
    HistoryGrows(r.attempts, r.ssrc, r.admitted, r.admitted, r.committed, r.committed + [|r.admitted|]);
  }

  lemma MarkKeepsInv(r: Run, present: bool, open: bool)
    requires Inv(r) && r.phase.Failing?
    ensures Inv(MarkStep(r, present, open))
  {
    hide StartedBefore, StartupFirst, NumberedFrom, CacheOk;
  }

  lemma StepKeepsInv(r: Run, e: Event)
    requires Inv(r)
    ensures Inv(Step(r, e))
  {
    hide Inv, OfferStep, RecheckStep, TransmitStep, CommitStep, MarkStep;
    match e
    case Offer(u, present, open) =>
      if r.phase.Idle? { OfferKeepsInv(r, u, present, open); }
    case Recheck(sendable) =>
      if r.phase.Checking? && r.phase.t.u.bytes != [] { RecheckKeepsInv(r, sendable); }
    case Transmit(fate) =>
      if r.phase.Sending? && r.phase.next < |PlanPieces(r.phase.plan)| { TransmitKeepsInv(r, fate); }
    case Commit(open) =>
      if r.phase.Sending? && r.phase.next == |PlanPieces(r.phase.plan)| { CommitKeepsInv(r, open); }
    case Mark(present, open) =>
      if r.phase.Failing? { MarkKeepsInv(r, present, open); }
    case Deactivate => OutsideEventsKeepInv(r, 0);
    case Negotiate(payloadType) => OutsideEventsKeepInv(r, payloadType);
  }

  lemma OutsideEventsKeepInv(r: Run, payloadType: int)
    requires Inv(r)
    ensures Inv(r.(s := DeactivateState(r.s)))
    ensures Inv(r.(s := r.s.(negotiatedPayloadType := payloadType)))
  {
    hide StartedBefore, StartupFirst, NumberedFrom, CacheOk, CallSuffix, PlanPieces, PlanOf, IsConfig, IsIdr;
  }

  lemma {:induction false} ExecKeepsInv(r: Run, events: seq<Event>)
    requires Inv(r)
    ensures Inv(Exec(r, events)) && Exec(r, events).ssrc == r.ssrc
    decreases |events|
  {
    hide Inv, Step;
    if events == [] {
    } else {
      StepKeepsInv(r, events[0]);
      SourceStays(r, events[0]);
      ExecKeepsInv(Step(r, events[0]), events[1..]);
    }
  }

  lemma SourceStays(r: Run, e: Event)
    ensures Step(r, e).ssrc == r.ssrc
  {
    hide Decide, PlanOf, PlanPieces, CommitSend, MarkNotSendable;
  }

  lemma StartsWithInv(ssrc: nat)
    ensures Inv(Start(ssrc))
  {
    hide IsConfig, IsIdr, StartedBefore, Stamped, PlanPieces, PlanOf, CallSuffix, TicketInv;
  }

  lemma Reachable(ssrc: nat, events: seq<Event>)
    ensures Inv(Exec(Start(ssrc), events)) && Exec(Start(ssrc), events).ssrc == ssrc
  {
    hide Inv, Exec;
    StartsWithInv(ssrc);
    ExecKeepsInv(Start(ssrc), events);
  }

  // ---------------------------------------------------------------------------
  // Main results, for every run
  // ---------------------------------------------------------------------------

  // A packet outside a startup sequence is only ever made after one call handed over, without
  // failure, every packet of an admitted configuration unit and then every packet of an admitted
  // IDR unit; that call is the packet's own or one that has been committed.
  lemma DecoderSafeStart(ssrc: nat, events: seq<Event>, i: nat)
    requires i < |Exec(Start(ssrc), events).attempts| && !Exec(Start(ssrc), events).attempts[i].startup
    ensures var r := Exec(Start(ssrc), events);
            StartedBefore(r.attempts, r.admitted, r.committed + [r.attempts[i].call], i)
  {
    hide Exec, Start, StartedBefore, CacheInv, PhaseInv, Accounts, NumberedFrom;
    Reachable(ssrc, events);
  }

  // The n-th packet ever made carries sequence number n modulo 2^16, across calls and failures,
  // the timestamp of the unit its call was made for, the sender's source, and a payload of 1 to 1200 bytes.
  lemma PacketsAreNumbered(ssrc: nat, events: seq<Event>, i: nat)
    requires i < |Exec(Start(ssrc), events).attempts|
    ensures var r := Exec(Start(ssrc), events);
            var a := r.attempts[i];
            && ValidHeader(a.header) && a.header.sequenceNumber == i % U16 && 1 <= |a.payload| <= MAX_PAYLOAD
            && 1 <= a.call <= |r.admitted| && a.header.timestamp == RtpTimestamp(r.admitted[a.call - 1].timestampNs)
            && a.header.ssrc == ssrc % U32
  {
    hide Exec, Start, StartupFirst, CacheInv, PhaseInv, Accounts;
    Reachable(ssrc, events);
  }

  // In every reachable state the gate lets a unit through exactly when its last arm is
  // taken, never takes the arm that waits for a startup IDR, and what passes has a plan.
  lemma GateIsExactAlways(ssrc: nat, events: seq<Event>, u: AccessUnit, present: bool, open: bool)
    requires Accepted(u)
    ensures var s := Exec(Start(ssrc), events).s;
            var d := Decide(s, u, present, open);
            && s.startupSent == s.firstDecodableSent
            && (s.firstDecodableSent ==> s.cache.config.Some? && s.cache.idr.Some?)
            && (s.active && s.lastSequenceId != u.sequenceId ==>
                  (d.1.Some? <==> d.0.gate == SendingRtp) && d.0.gate != StartupIdrWait)
            && (d.1.Some? ==> d.1.value.u == u && PlanOf(d.1.value).Some?)
  {
    hide Exec, Start, StartupFirst, StartedBefore, PhaseInv, Accounts, NumberedFrom, PlanOf, TicketInv, CacheOk;
    Reachable(ssrc, events);
    var s := Exec(Start(ssrc), events).s;
    DecideEffect(s, u, present, open);
    var d := Decide(s, u, present, open);
    if d.1.Some? {
      TicketHasPlan(d.0, d.1.value);
      TicketIsForUnit(s, u, present, open);
    }
  }

  lemma TicketIsForUnit(s: State, u: AccessUnit, present: bool, open: bool)
    requires u.bytes != [] && Decide(s, u, present, open).1.Some?
    ensures Decide(s, u, present, open).1.value.u == u
  {
  }

  // The verdict on the next unit, in terms of nothing but the track and the units admitted so
  // far, this one included. What passes works from the newest configuration and IDR units.
  lemma GateExplained(ssrc: nat, events: seq<Event>, u: AccessUnit, present: bool, open: bool)
    requires Accepted(u)
    requires var r := Exec(Start(ssrc), events); r.phase.Idle? && Fresh(r.s, u)
    ensures var r := Exec(Start(ssrc), events + [Offer(u, present, open)]);
            var config := Latest(r.admitted, v => IsConfig(v));
            var idr := Latest(r.admitted, v => IsIdr(v));
            && r.admitted == Exec(Start(ssrc), events).admitted + [u]
            && r.s.gate == (if !present then TrackMissing
                            else if config.None? then ConfigWait
                            else if idr.None? then KeyframeWait
                            else if !open then TrackNotOpen
                            else SendingRtp)
            && (r.phase.Checking? <==> r.s.gate == SendingRtp)
            && (r.phase.Idle? <==> r.s.gate != SendingRtp)
            && (r.phase.Checking? ==> r.phase.t.u == u && r.phase.t.config == config && r.phase.t.idr == idr
                                      && r.phase.t.payloadType == PayloadTypeOf(r.s.negotiatedPayloadType))
  {
    hide Inv, Exec, Start, Latest, IsConfig, IsIdr;
    Reachable(ssrc, events);
    var r, e := Exec(Start(ssrc), events), Offer(u, present, open);
    ExecAppend(Start(ssrc), events, e);
    StepKeepsInv(r, e);
    OfferVerdict(r, u, present, open);
  }

  lemma {:induction false} ExecAppend(r: Run, events: seq<Event>, e: Event)
    ensures Exec(r, events + [e]) == Step(Exec(r, events), e)
    decreases |events|
  {
    hide Step;
    if events == [] {
      assert [] + [e] == [e] && [e][1..] == [];
    } else {
      assert (events + [e])[1..] == events[1..] + [e];
      ExecAppend(Step(r, events[0]), events[1..], e);
    }
  }

  lemma OfferVerdict(r: Run, u: AccessUnit, present: bool, open: bool)
    requires Inv(r) && Accepted(u) && r.phase.Idle? && Fresh(r.s, u)
    requires Inv(OfferStep(r, u, present, open))
    ensures var r' := OfferStep(r, u, present, open);
            var config := Latest(r'.admitted, v => IsConfig(v));
            var idr := Latest(r'.admitted, v => IsIdr(v));
            && r'.admitted == r.admitted + [u]
            && r'.s.gate == (if !present then TrackMissing
                             else if config.None? then ConfigWait
                             else if idr.None? then KeyframeWait
                             else if !open then TrackNotOpen
                             else SendingRtp)
            && (r'.phase.Checking? <==> r'.s.gate == SendingRtp)
            && (r'.phase.Idle? <==> r'.s.gate != SendingRtp)
            && (r'.phase.Checking? ==> r'.phase.t.u == u && r'.phase.t.config == config && r'.phase.t.idr == idr
                                       && r'.phase.t.payloadType == PayloadTypeOf(r'.s.negotiatedPayloadType))
  {
    hide StartedBefore, StartupFirst, NumberedFrom, Accounts, Latest, IsConfig, IsIdr, ContainsConfig, ContainsIdr,
         CountGate, PayloadTypeOf, PlanOf, PlanPieces, CallSuffix;
    DecideEffect(r.s, u, present, open);
  }

  // In every run a unit offered to an active session is admitted exactly when its sequence id differs from
  // that of the last admitted unit. Before the first one that id counts as 0, so a first unit with id 0
  // is taken for a repeat and never sent.
  lemma RepeatsAreDropped(ssrc: nat, events: seq<Event>, u: AccessUnit, present: bool, open: bool)
    requires Accepted(u)
    requires var r := Exec(Start(ssrc), events); r.phase.Idle? && r.s.active
    ensures var r, r' := Exec(Start(ssrc), events), Exec(Start(ssrc), events + [Offer(u, present, open)]);
            if u.sequenceId == LastId(r.admitted) then
              && r'.phase.Idle? && r'.admitted == r.admitted && r'.attempts == r.attempts
              && r'.s.cache == r.s.cache
              && r'.s.counters == r.s.counters.(duplicates := r.s.counters.duplicates + 1)
            else r'.admitted == r.admitted + [u]
  {
    hide Exec, Start, StartupFirst, StartedBefore, PhaseInv, Accounts, NumberedFrom, CacheInv, Latest, Accepted;
    Reachable(ssrc, events);
    ExecAppend(Start(ssrc), events, Offer(u, present, open));
    OfferRepeat(Exec(Start(ssrc), events), u, present, open);
  }

  lemma OfferRepeat(r: Run, u: AccessUnit, present: bool, open: bool)
    requires Accepted(u) && r.s.active
    ensures var r' := OfferStep(r, u, present, open);
            if u.sequenceId == r.s.lastSequenceId then
              && r'.phase.Idle? && r'.admitted == r.admitted && r'.attempts == r.attempts
              && r'.s.cache == r.s.cache
              && r'.s.counters == r.s.counters.(duplicates := r.s.counters.duplicates + 1)
            else r'.admitted == r.admitted + [u]
  {
    hide RememberUnit, ContainsConfig, ContainsIdr, CountGate, GateOf, ShouldSend, StartupRequired, PayloadTypeOf;
  }

  // The unit left out of its own call: neither configuration nor IDR, it arrives at an
  // unstarted sender under the sequence id of the retained IDR unit.
  predicate TakenForTheIdr(t: Ticket)
    requires t.u.bytes != []
  {
    !t.firstDecodableSent && !ContainsConfig(t.u) && !ContainsIdr(t.u) && t.idr.Some? && t.idr.value.sequenceId == t.u.sequenceId
  }

  // What a call for `u` sends when `c` and `d` are the newest configuration and IDR units, `u` included,
  // and how many of these NAL units count as startup. A started sender sends the unit, behind the
  // configuration if it is an IDR unit that carries none. An unstarted one sends configuration and IDR
  // unit, and then the unit unless it is one of them or passes for the IDR unit; a configuration
  // unit is sent again only if it also holds a non-IDR slice.
  predicate SendsExactly(nals: seq<seq<byte>>, startupNals: nat, u: AccessUnit, c: AccessUnit, d: AccessUnit, started: bool)
    requires u.bytes != []
  {
    var own, config, idr := Split(u.bytes), Split(c.bytes), Split(d.bytes);
    && (started && ContainsIdr(u) && !ContainsConfig(u) ==> nals == config + own && startupNals == |config| + |own|)
    && (started && (!ContainsIdr(u) || ContainsConfig(u)) ==> nals == own && startupNals == 0)
    && (!started && ContainsIdr(u) && !ContainsConfig(u) ==> nals == config + own && startupNals == |config| + |own|)
    && (!started && ContainsIdr(u) && ContainsConfig(u) ==> nals == own + own && startupNals == |own| + |own|)
    && (!started && !ContainsIdr(u) && ContainsConfig(u) ==>
          nals == own + idr + (if ContainsNonIdrSlice(u) && d.sequenceId != u.sequenceId then own else [])
          && startupNals == |own| + |idr|)
    && (!started && !ContainsIdr(u) && !ContainsConfig(u) ==>
          nals == config + idr + (if d.sequenceId != u.sequenceId then own else [])
          && startupNals == |config| + |idr|)
  }

  // The exact contents of every call.
  lemma PlanContents(s: State, t: Ticket)
    requires TicketInv(s, t)
    ensures PlanOf(t).Some? && t.config.Some? && t.idr.Some?
    ensures var p := PlanOf(t).value;
            && SendsExactly(p.nals, p.startupNals, t.u, t.config.value, t.idr.value, t.firstDecodableSent)
            && (p.sendsStartup <==> !t.firstDecodableSent || (ContainsIdr(t.u) && !ContainsConfig(t.u)))
            && (TakenForTheIdr(t) ==> p.nals == Split(t.config.value.bytes) + Split(t.idr.value.bytes))
  {
    hide Split, IsConfig, IsIdr, ContainsConfig, ContainsIdr, ContainsNonIdrSlice;
    var config, idr := Split(t.config.value.bytes), Split(t.idr.value.bytes);
    assert config + idr + [] == config + idr;
    SomethingToSplit(t.idr.value);
  }

  lemma SomethingToSplit(d: AccessUnit)
    requires IsIdr(d)
    ensures Split(d.bytes) != []
  {
  }

  // The packets of the call in progress.
  function CallLog(r: Run): seq<Attempt>
    requires r.phase.Sending? && r.phase.next <= |r.attempts|
  {
    r.attempts[|r.attempts| - r.phase.next..]
  }

  // In every run, the packets of a completed call were all handed over, exactly the last of them is marked,
  // they share payload type and source, their numbers follow each other, and a receiver that reads
  // the headers and depacketises the payloads gets the headers and exactly the NAL units that the newest
  // configuration, the newest IDR unit and the unit itself call for, in as many packets as these take.
  lemma CompletedCallArrives(ssrc: nat, events: seq<Event>)
    requires var r := Exec(Start(ssrc), events); r.phase.Sending? && r.phase.next == |PlanPieces(r.phase.plan)|
    ensures var r := Exec(Start(ssrc), events);
            && r.phase.next <= |r.attempts|
            && HandedOver(CallLog(r), |r.admitted|)
            && (Depacketise(LogPayloads(CallLog(r))) == Some(r.phase.plan.nals) <==> AllCarriable(r.phase.plan.nals))
            && (forall j :: 0 <= j < r.phase.next ==> HeaderArrives(CallLog(r)[j], j, r, ssrc))
            && r.admitted != [] && r.admitted[|r.admitted| - 1] == r.phase.t.u
            && TicketInv(r.s, r.phase.t) && PlanOf(r.phase.t) == Some(r.phase.plan)
            && r.phase.next == PacketTotal(r.phase.plan.nals)
            && var config := Latest(r.admitted, v => IsConfig(v));
               var idr := Latest(r.admitted, v => IsIdr(v));
               config.Some? && idr.Some?
               && SendsExactly(r.phase.plan.nals, r.phase.plan.startupNals, r.phase.t.u, config.value, idr.value, r.s.firstDecodableSent)
  {
    hide Exec, Start, StartedBefore, StartupFirst, NumberedFrom, Accounts, CacheInv, Remembers, PlanOf, TicketInv, CallSuffix,
         Depacketise, PayloadsOf, LogPayloads, HandedOver, Carriable, PlanPieces, HeaderArrives, AllCarriable,
         SendsExactly, PacketTotal, Latest, FromCall;
    Reachable(ssrc, events);
    var r := Exec(Start(ssrc), events);
    var plan, pieces, n := r.phase.plan, PlanPieces(r.phase.plan), r.phase.next;
    CallSuffixBounds(r.attempts, pieces, n, StampOf(r));
    SuffixPayloads(r.attempts, pieces, n, StampOf(r), 0, n);
    assert r.attempts[|r.attempts| - n..|r.attempts|] == CallLog(r);
    assert PiecePayloads(pieces)[0..n] == PiecePayloads(pieces);
    PlanPayloads(plan);
    CallCut(plan.nals);
    CarriableReturns(plan.nals);
    CallContents(r);
    forall j | 0 <= j < n
      ensures HeaderArrives(CallLog(r)[j], j, r, ssrc)
    {
      HeaderOfPiece(r, ssrc, j);
    }
  }

  lemma CallContents(r: Run)
    requires Inv(r) && r.phase.Sending?
    ensures var config := Latest(r.admitted, v => IsConfig(v));
            var idr := Latest(r.admitted, v => IsIdr(v));
            && config.Some? && idr.Some? && r.phase.t.u.bytes != []
            && SendsExactly(r.phase.plan.nals, r.phase.plan.startupNals, r.phase.t.u, config.value, idr.value, r.s.firstDecodableSent)
  {
    hide StartedBefore, StartupFirst, NumberedFrom, Accounts, CacheInv, PlanOf, PlanPieces, CallSuffix, Latest, SendsExactly,
         IsConfig, IsIdr, ContainsConfig, ContainsIdr;
    PlanContents(r.s, r.phase.t);
  }

  // The j-th packet of a completed call: its header, and what a receiver reads of it.
  predicate HeaderArrives(a: Attempt, j: nat, r: Run, ssrc: nat)
    requires r.phase.Sending? && r.phase.next <= |r.attempts|
  {
    && ValidHeader(a.header)
    && (a.header.marker <==> j + 1 == r.phase.next)
    && (a.startup <==> j < PacketTotal(r.phase.plan.nals[..Min(|r.phase.plan.nals|, r.phase.plan.startupNals)]))
    && a.header.payloadType == r.phase.t.payloadType && a.header.ssrc == ssrc % U32
    && a.header.sequenceNumber == (|r.attempts| - r.phase.next + j) % U16
    && a.header.timestamp == RtpTimestamp(r.phase.t.u.timestampNs)
    && (ParsePacket(MakePacket(a.payload, a.header)) == Some((a.header, a.payload)) <==> r.phase.t.payloadType < 128)
  }

  lemma HeaderOfPiece(r: Run, ssrc: nat, j: nat)
    requires Inv(r) && r.ssrc == ssrc && r.phase.Sending? && r.phase.next == |PlanPieces(r.phase.plan)| && j < r.phase.next <= |r.attempts|
    ensures HeaderArrives(CallLog(r)[j], j, r, ssrc)
  {
    hide StartedBefore, StartupFirst, Accounts, CacheInv, Remembers, PlanOf, TicketInv, PlanPieces, MakePacket, ParsePacket, FitsLimit,
         PacketTotal;
    var a := |r.attempts| - r.phase.next + j;
    assert Transmitted(r.attempts[a], PlanPieces(r.phase.plan)[j], StampOf(r));
    assert Stamped(r.attempts[a], a, r.admitted, ssrc);
    TicketIsAccepted(r.s, r.phase.t);
    CallMarksLastPacket(r.s, r.phase.t, j);
    PlanShape(r.s, r.phase.t);
    StartupPieces(r.phase.plan, j);
    HeaderRoundTrip(r.attempts[a].payload, r.attempts[a].header);
  }

  lemma StartupPieces(p: Plan, k: nat)
    requires p.startupNals <= |p.nals| && k < |PlanPieces(p)|
    ensures PlanPieces(p)[k].startup <==> k < PacketTotal(p.nals[..p.startupNals])
  {
    hide PayloadsOf, PacketTotal, FromCall;
    StartupIsPrefix(p.nals, 0, p.startupNals, k);
    assert p.nals[0..p.startupNals] == p.nals[..p.startupNals];
    CallCut(p.nals[..p.startupNals]);
  }

  lemma TicketIsAccepted(s: State, t: Ticket)
    requires TicketInv(s, t)
    ensures t.u.bytes != []
  {
  }

  lemma CarriableReturns(nals: seq<seq<byte>>)
    ensures Depacketise(PayloadsOf(nals)) == Some(nals) <==> AllCarriable(nals)
  {
    hide Depacketise, PayloadsOf, Carriable;
    PacketiseRoundTrip(nals);
  }

  lemma PlanPayloads(p: Plan)
    ensures PiecePayloads(PlanPieces(p)) == PayloadsOf(p.nals)
  {
    hide PayloadsOf;
    PiecesCarryPayloads(p.nals, 0, p.startupNals);
    assert p.nals[0..] == p.nals;
  }

  // What a step does to the delivery flag of an inactive session: only a commit raises it.
  lemma DeliveryFlagOfInactive(r: Run, e: Event)
    requires !r.s.active
    ensures var r' := Step(r, e);
            && !r'.s.active
            && (r'.s.link.deliveryActive <==>
                  match e
                  case Commit(_) =>
                    (r.phase.Sending? && r.phase.next == |PlanPieces(r.phase.plan)|) || r.s.link.deliveryActive
                  case Deactivate => false
                  case Mark(_, _) => !r.phase.Failing? && r.s.link.deliveryActive
                  case Offer(u, _, _) => !(r.phase.Idle? && Accepted(u)) && r.s.link.deliveryActive
                  case _ => r.s.link.deliveryActive)
  {
    hide PlanOf, PlanPieces, RememberUnit, GateOf, CountGate, CountFailure;
  }

  // A session torn down between calls, or when its call has already failed, makes no packet and
  // raises no delivery flag whatever follows.
  lemma {:induction false} TeardownBetweenCallsHolds(r: Run, events: seq<Event>)
    requires !r.s.active && (r.phase.Idle? || r.phase.Failing?)
    ensures var r' := Exec(r, events);
            !r'.s.active && (r'.phase.Idle? || r'.phase.Failing?) && r'.attempts == r.attempts
            && (r'.s.link.deliveryActive ==> r.s.link.deliveryActive)
    decreases |events|
  {
    hide Step;
    if events == [] {
    } else {
      DeliveryFlagOfInactive(r, events[0]);
      EndedInactiveStep(r, events[0]);
      TeardownBetweenCallsHolds(Step(r, events[0]), events[1..]);
    }
  }

  lemma EndedInactiveStep(r: Run, e: Event)
    requires !r.s.active && (r.phase.Idle? || r.phase.Failing?)
    ensures var r' := Step(r, e); (r'.phase.Idle? || r'.phase.Failing?) && r'.attempts == r.attempts
  {
  }

  // A call that is sending can always be completed by sends that succeed and a commit.
  lemma {:induction false} SendsCanFinish(r: Run) returns (events: seq<Event>)
    requires r.phase.Sending? && r.phase.next <= |PlanPieces(r.phase.plan)|
    ensures var r' := Exec(r, events);
            r'.s.active == r.s.active && r'.phase.Idle? && r'.s.link.deliveryActive
    decreases |PlanPieces(r.phase.plan)| - r.phase.next
  {
    hide PlanPieces;
    if r.phase.next == |PlanPieces(r.phase.plan)| {
      events := [Commit(true)];
      assert events[1..] == [];
    } else {
      var rest := SendsCanFinish(Step(r, Transmit(Delivered)));
      events := [Transmit(Delivered)] + rest;
      assert events[1..] == rest;
    }
  }

  // The first unit of a session with an open track passes the gate if it carries both kinds.
  lemma FirstUnitPasses(ssrc: nat, u: AccessUnit)
    requires IsConfig(u) && IsIdr(u) && u.sequenceId != 0
    ensures var r := Step(Start(ssrc), Offer(u, true, true));
            r.phase.Checking? && r.phase.t.u.bytes != [] && PlanOf(r.phase.t).Some?
  {
    assert Accepted(u);
    hide IsConfig, IsIdr, Inv, PlanOf, Latest, OfferStep, Accepted;
    StartsWithInv(ssrc);
    StepKeepsInv(Start(ssrc), Offer(u, true, true));
    OfferVerdict(Start(ssrc), u, true, true);
    LatestAppend([], u, v => IsConfig(v));
    LatestAppend([], u, v => IsIdr(v));
    assert [] + [u] == [u];
    CheckedTicketHasPlan(Step(Start(ssrc), Offer(u, true, true)));
  }

  lemma TeardownWhileSending(r: Run)
    requires r.phase.Checking? && r.phase.t.u.bytes != [] && PlanOf(r.phase.t).Some?
    ensures var r' := Step(Step(r, Recheck(true)), Deactivate);
            r'.phase.Sending? && r'.phase.next == 0 && !r'.s.active
  {
    hide PlanOf;
  }

  // In every run a teardown keeps delivery down for good if and only if it falls between calls or after
  // the failure of one; a call that is still to send can overtake it.
  lemma TeardownHoldsExactly(ssrc: nat, events: seq<Event>)
    ensures var r := Step(Exec(Start(ssrc), events), Deactivate);
            (forall more: seq<Event> :: !Exec(r, more).s.link.deliveryActive) <==> r.phase.Idle? || r.phase.Failing?
  {
    hide Exec, Step, Start, Inv, PlanOf, PlanPieces;
    Reachable(ssrc, events);
    var r0 := Exec(Start(ssrc), events);
    var r := Step(r0, Deactivate);
    StepKeepsInv(r0, Deactivate);
    AfterDeactivate(r0);
    if r.phase.Idle? || r.phase.Failing? {
      forall more: seq<Event>
        ensures !Exec(r, more).s.link.deliveryActive
      {
        TeardownBetweenCallsHolds(r, more);
      }
    } else {
      var more := TeardownLoses(r);
      assert Exec(r, more).s.link.deliveryActive;
    }
  }

  lemma AfterDeactivate(r: Run)
    ensures var r' := Step(r, Deactivate); !r'.s.active && !r'.s.link.deliveryActive && r'.phase == r.phase
  {
  }

  // A call that has its decision or is sending can still reach its commit.
  lemma TeardownLoses(r: Run) returns (more: seq<Event>)
    requires Inv(r) && (r.phase.Checking? || r.phase.Sending?)
    ensures Exec(r, more).s.link.deliveryActive
  {
    hide Exec, Inv, PlanOf, PlanPieces;
    if r.phase.Checking? {
      CheckedTicketHasPlan(r);
      var rest := SendsCanFinish(Step(r, Recheck(true)));
      ExecAppend(r, [], Recheck(true));
      NothingHappens(r);
      assert [] + [Recheck(true)] == [Recheck(true)];
      ExecConcat(r, [Recheck(true)], rest);
      more := [Recheck(true)] + rest;
    } else {
      SendingIsInRange(r);
      more := SendsCanFinish(r);
    }
  }

  lemma NothingHappens(r: Run)
    ensures Exec(r, []) == r
  {
  }

  lemma SendingIsInRange(r: Run)
    requires Inv(r) && r.phase.Sending?
    ensures r.phase.next <= |PlanPieces(r.phase.plan)|
  {
    hide CacheInv, Remembers, Accounts, NumberedFrom, StartupFirst, StartedBefore, PlanOf, PlanPieces, TicketInv;
  }

  lemma ThreeSteps(r: Run, e1: Event, e2: Event, e3: Event)
    ensures Exec(r, [e1, e2, e3]) == Step(Step(Step(r, e1), e2), e3)
  {
    hide Step;
    ExecAppend(r, [], e1);
    ExecAppend(r, [e1], e2);
    ExecAppend(r, [e1, e2], e3);
    assert [] + [e1] == [e1] && [e1] + [e2] == [e1, e2] && [e1, e2] + [e3] == [e1, e2, e3];
  }

  // So a teardown in the middle of a call is overtaken by its commit: with every unit that carries
  // configuration and IDR, a new session can end inactive with the delivery flag raised.
  lemma TeardownIsOvertaken(ssrc: nat, u: AccessUnit) returns (events: seq<Event>)
    requires IsConfig(u) && IsIdr(u) && u.sequenceId != 0
    ensures var r := Exec(Start(ssrc), events); !r.s.active && r.phase.Idle? && r.s.link.deliveryActive
  {
    hide IsConfig, IsIdr, PlanPieces, PlanOf, Exec, Step, Start;
    var prefix := [Offer(u, true, true), Recheck(true), Deactivate];
    ThreeSteps(Start(ssrc), prefix[0], prefix[1], prefix[2]);
    FirstUnitPasses(ssrc, u);
    TeardownWhileSending(Step(Start(ssrc), prefix[0]));
    var rest := SendsCanFinish(Exec(Start(ssrc), prefix));
    ExecConcat(Start(ssrc), prefix, rest);
    events := prefix + rest;
  }

  lemma CheckedTicketHasPlan(r: Run)
    requires Inv(r) && r.phase.Checking?
    ensures r.phase.t.u.bytes != [] && PlanOf(r.phase.t).Some?
  {
    hide StartedBefore, StartupFirst, NumberedFrom, Accounts, Remembers, CacheInv, PlanOf;
    TicketHasPlan(r.s, r.phase.t);
  }

  // A unit of this kind, so that such a run exists.
  lemma StartupUnitExists()
    ensures var u := AccessUnit([0, 0, 1, 0x65], H264, 0, 1, true, true, true); IsConfig(u) && IsIdr(u) && u.sequenceId != 0
  {
    hide DescribesType;
    LoneIdrIsDescribed([0, 0, 1, 0x65]);
  }

  // Of the packets of one call exactly the last is marked.
  lemma CallMarksLastPacket(s: State, t: Ticket, k: nat)
    requires TicketInv(s, t) && t.u.bytes != [] && PlanOf(t).Some? && k < |PlanPieces(PlanOf(t).value)|
    ensures PlanPieces(PlanOf(t).value)[k].marker <==> k + 1 == |PlanPieces(PlanOf(t).value)|
  {
    hide PlanOf, TicketInv;
    PlanShape(s, t);
    var p := PlanOf(t).value;
    OnlyLastIsMarked(p.nals, 0, p.startupNals, k);
  }

  predicate AllCarriable(nals: seq<seq<byte>>) {
    forall n :: n in nals ==> Carriable(n)
  }

  // The startup behind a packet of any run: a receiver of its packets rebuilds the NAL units of both
  // units if it can carry them, and one of these is an IDR slice unless only the first byte of the IDR
  // unit said so. It never is when that unit begins with a start code.
  lemma StartupReachesReceiver(ssrc: nat, events: seq<Event>, i: nat)
    returns (call: nat, a: nat, b: nat, e: nat, c: AccessUnit, d: AccessUnit)
    requires i < |Exec(Start(ssrc), events).attempts| && !Exec(Start(ssrc), events).attempts[i].startup
    ensures var r := Exec(Start(ssrc), events);
            && call in r.committed + [r.attempts[i].call] && StartupAt(r.attempts, r.admitted, call, i, a, b, e, c, d)
            && (Depacketise(LogPayloads(r.attempts[a..e])) == Some(Split(c.bytes) + Split(d.bytes)) <==>
                  AllCarriable(Split(c.bytes) + Split(d.bytes)))
            && (Carries(d.bytes, 5) <==> !OnlyFirstByteSays(d.bytes, 5))
            && (StartCodeSize(d.bytes, 0) > 0 ==> Carries(d.bytes, 5))
  {
    hide Exec, Split, StartupAt, Depacketise, AllCarriable, LogPayloads, Carries, OnlyFirstByteSays, StartCodeSize;
    DecoderSafeStart(ssrc, events, i);
    var r := Exec(Start(ssrc), events);
    call, a, b, e, c, d :| call in r.committed + [r.attempts[i].call] && StartupAt(r.attempts, r.admitted, call, i, a, b, e, c, d);
    StartupIsReceived(r.attempts, r.admitted, call, i, a, b, e, c, d);
  }

  lemma StartupIsReceived(log: seq<Attempt>, units: seq<AccessUnit>, call: nat, n: nat,
                          a: nat, b: nat, e: nat, c: AccessUnit, d: AccessUnit)
    requires StartupAt(log, units, call, n, a, b, e, c, d)
    ensures a <= e <= |log| && d.bytes != []
    ensures Depacketise(LogPayloads(log[a..e])) == Some(Split(c.bytes) + Split(d.bytes)) <==>
            AllCarriable(Split(c.bytes) + Split(d.bytes))
    ensures Carries(d.bytes, 5) <==> !OnlyFirstByteSays(d.bytes, 5)
    ensures StartCodeSize(d.bytes, 0) > 0 ==> Carries(d.bytes, 5)
  {
    hide Split, Depacketise, PayloadsOf, Carriable, AllCarriable, Carries, OnlyFirstByteSays, StartCodeSize, DescribesType;
    assert log[a..e] == log[a..b] + log[b..e];
    assert LogPayloads(log[a..e]) == LogPayloads(log[a..b]) + LogPayloads(log[b..e]);
    PayloadsOfConcat(Split(c.bytes), Split(d.bytes));
    CarriableReturns(Split(c.bytes) + Split(d.bytes));
    DescribedButNotCarried(d.bytes, 5);
    if StartCodeSize(d.bytes, 0) > 0 {
      DescribedIsCarried(d.bytes, 5);
    }
  }
}
