// The counters of the H.264 sender, tied to the units it admitted and the packets it made.
module SenderCounts {
  import opened Bytes
  import opened AnnexB
  import opened Rtp
  import opened Sender
  import opened SenderSafety

  // The packets in the log that belong to one of the calls, or only those of startup sequences.
  function Packets(log: seq<Attempt>, calls: seq<nat>, startupOnly: bool): nat {
    if log == [] then 0
    else
      var last := log[|log| - 1];
      Packets(log[..|log| - 1], calls, startupOnly) + (if last.call in calls && (startupOnly ==> last.startup) then 1 else 0)
  }

  // The startup packets among the last `n` of the log.
  function StartupTail(log: seq<Attempt>, n: nat): nat
    requires n <= |log|
  {
    if n == 0 then 0
    else StartupTail(log[..|log| - 1], n - 1) + (if log[|log| - 1].startup then 1 else 0)
  }

  // The last `n` packets of the log are those of the call, and no other call has its number.
  predicate OnlyTail(log: seq<Attempt>, n: nat, call: nat) {
    && n <= |log|
    && (forall i :: 0 <= i < |log| - n ==> log[i].call != call)
    && (forall i :: |log| - n <= i < |log| ==> log[i].call == call)
  }

  // No number beyond that of the newest unit is in use.
  predicate NumbersUsed(r: Run) {
    && (forall i :: 0 <= i < |r.attempts| ==> r.attempts[i].call <= |r.admitted|)
    && (forall c :: c in r.committed ==> c <= |r.admitted|)
  }

  // Where the call in progress stands in the log.
  predicate CallInLog(r: Run) {
    match r.phase
    case Idle => true
    case Failing(_) => |r.admitted| !in r.committed
    case Checking(_) => |r.admitted| !in r.committed && OnlyTail(r.attempts, 0, |r.admitted|)
    case Sending(_, _, next, startupPackets) =>
      && |r.admitted| !in r.committed && OnlyTail(r.attempts, next, |r.admitted|)
      && startupPackets == StartupTail(r.attempts, next)
  }

  // The counters are those of the packets of committed calls.
  predicate Counts(r: Run) {
    && r.s.counters.packetsAttempted == Packets(r.attempts, r.committed, false)
    && r.s.counters.startupPackets == Packets(r.attempts, r.committed, true)
  }

  predicate Counted(r: Run) {
    NumbersUsed(r) && CallInLog(r) && Counts(r)
  }

  // ---------------------------------------------------------------------------
  // Counting
  // ---------------------------------------------------------------------------

  lemma PacketsAppend(log: seq<Attempt>, a: Attempt, calls: seq<nat>, startupOnly: bool)
    ensures Packets(log + [a], calls, startupOnly) ==
            Packets(log, calls, startupOnly) + (if a.call in calls && (startupOnly ==> a.startup) then 1 else 0)
  {
    assert (log + [a])[..|log|] == log;
  }

  lemma StartupTailAppend(log: seq<Attempt>, n: nat, a: Attempt)
    requires n <= |log|
    ensures StartupTail(log + [a], n + 1) == StartupTail(log, n) + (if a.startup then 1 else 0)
  {
    assert (log + [a])[..|log|] == log;
  }

  // Committing a call adds exactly its own packets.
  lemma {:induction false} CommitAddsItsPackets(log: seq<Attempt>, calls: seq<nat>, call: nat, n: nat)
    requires call !in calls && OnlyTail(log, n, call)
    ensures Packets(log, calls + [call], false) == Packets(log, calls, false) + n
    ensures Packets(log, calls + [call], true) == Packets(log, calls, true) + StartupTail(log, n)
    decreases |log|
  {
    if log == [] {
    } else {
      var init, last := log[..|log| - 1], log[|log| - 1];
      assert log == init + [last];
      if n == 0 {
        assert last.call != call;
        CommitAddsItsPackets(init, calls, call, 0);
      } else {
        assert last.call == call;
        CommitAddsItsPackets(init, calls, call, n - 1);
      }
    }
  }

  // A call that counts no startup made no startup packet.
  lemma {:induction false} NoStartupInTail(log: seq<Attempt>, n: nat)
    requires n <= |log| && forall i :: |log| - n <= i < |log| ==> !log[i].startup
    ensures StartupTail(log, n) == 0
  {
    if n == 0 {
    } else {
      NoStartupInTail(log[..|log| - 1], n - 1);
    }
  }

  // ---------------------------------------------------------------------------
  // Every step keeps the counters right
  // ---------------------------------------------------------------------------

  lemma OfferKeepsCounts(r: Run, u: AccessUnit, present: bool, open: bool)
    requires Inv(r) && Counted(r) && r.phase.Idle?
    ensures Counted(OfferStep(r, u, present, open))
  {
    hide Inv, Packets;
    if Accepted(u) {
      DecisionKeepsPacketCounters(r, u, present, open);
      OnlyOffersAdmit(r, u, present, open);
    }
  }

  lemma DecisionKeepsPacketCounters(r: Run, u: AccessUnit, present: bool, open: bool)
    requires Accepted(u)
    ensures var r' := OfferStep(r, u, present, open);
            && r'.s.counters.packetsAttempted == r.s.counters.packetsAttempted
            && r'.s.counters.startupPackets == r.s.counters.startupPackets
  {
    hide RememberUnit, ContainsConfig, ContainsIdr, GateOf, ShouldSend, StartupRequired, PayloadTypeOf;
  }

  lemma OnlyOffersAdmit(r: Run, u: AccessUnit, present: bool, open: bool)
    requires Accepted(u)
    ensures var r' := OfferStep(r, u, present, open);
            && r'.attempts == r.attempts && r'.committed == r.committed
            && (r'.phase.Idle? || (r'.phase.Checking? && |r'.admitted| == |r.admitted| + 1))
            && |r'.admitted| >= |r.admitted|
  {
    hide RememberUnit, ContainsConfig, ContainsIdr, GateOf, StartupRequired, PayloadTypeOf, CountGate;
  }

  lemma RecheckKeepsCounts(r: Run, sendable: bool)
    requires Counted(r) && r.phase.Checking? && r.phase.t.u.bytes != []
    ensures Counted(RecheckStep(r, sendable))
  {
    hide PlanOf, Packets;
  }

  lemma TransmitKeepsCounts(r: Run, fate: Fate)
    requires Counted(r) && r.phase.Sending? && r.phase.next < |PlanPieces(r.phase.plan)|
    ensures Counted(TransmitStep(r, fate))
  {
    hide PlanPieces, Packets, StartupTail;
    if fate != TrackClosed {
      var a := AttemptOf(r, PlanPieces(r.phase.plan)[r.phase.next], fate == Delivered);
      PacketsAppend(r.attempts, a, r.committed, false);
      PacketsAppend(r.attempts, a, r.committed, true);
      StartupTailAppend(r.attempts, r.phase.next, a);
    }
  }

  lemma CommitKeepsCounts(r: Run, open: bool)
    requires Inv(r) && Counted(r) && r.phase.Sending? && r.phase.next == |PlanPieces(r.phase.plan)|
    ensures Counted(CommitStep(r, open))
  {
    hide PlanPieces, Packets, StartupTail, Inv;
    CommitAddsItsPackets(r.attempts, r.committed, |r.admitted|, r.phase.next);
    if !r.phase.plan.sendsStartup {
      NoStartupCounted(r);
    }
  }

  lemma NoStartupCounted(r: Run)
    requires Inv(r) && r.phase.Sending? && r.phase.next == |PlanPieces(r.phase.plan)| && !r.phase.plan.sendsStartup
    ensures r.phase.next <= |r.attempts| && StartupTail(r.attempts, r.phase.next) == 0
  {
    hide StartupTail, PlanPieces, StartedBefore, StartupFirst, NumberedFrom, Accounts, Remembers, CacheInv;
    PlanWithoutStartup(r.s, r.phase.t);
    forall i | |r.attempts| - r.phase.next <= i < |r.attempts|
      ensures !r.attempts[i].startup
    {
      var j := i - (|r.attempts| - r.phase.next);
      assert Transmitted(r.attempts[|r.attempts| - r.phase.next + j], PlanPieces(r.phase.plan)[j], StampOf(r));
      NoStartupPiece(r.phase.plan, j);
    }
    NoStartupInTail(r.attempts, r.phase.next);
  }

  lemma PlanWithoutStartup(s: State, t: Ticket)
    requires TicketInv(s, t) && PlanOf(t).Some? && !PlanOf(t).value.sendsStartup
    ensures PlanOf(t).value.startupNals == 0
  {
    hide Split, DescribesType, IsConfig, IsIdr;
    IdrUnitSplits(s, t);
  }

  lemma IdrUnitSplits(s: State, t: Ticket)
    requires TicketInv(s, t)
    ensures t.idr.Some? && Split(t.idr.value.bytes) != []
  {
  }

  lemma NoStartupPiece(p: Plan, k: nat)
    requires p.startupNals == 0 && k < |PlanPieces(p)|
    ensures !PlanPieces(p)[k].startup
  {
    hide PayloadsOf;
    StartupIsPrefix(p.nals, 0, 0, k);
    assert p.nals[0..0] == [];
    PayloadsOfNothing();
  }

  lemma PayloadsOfNothing()
    ensures PayloadsOf([]) == []
  {
  }

  lemma MarkKeepsCounts(r: Run, present: bool, open: bool)
    requires Counted(r) && r.phase.Failing?
    ensures Counted(MarkStep(r, present, open))
  {
    hide Packets;
  }

  lemma OutsideEventsKeepCounts(r: Run, payloadType: int)
    requires Counted(r)
    ensures Counted(r.(s := DeactivateState(r.s)))
    ensures Counted(r.(s := r.s.(negotiatedPayloadType := payloadType)))
  {
    hide Packets;
  }

  lemma StepKeepsCounts(r: Run, e: Event)
    requires Inv(r) && Counted(r)
    ensures Counted(Step(r, e))
  {
    hide Inv, Counted, OfferStep, RecheckStep, TransmitStep, CommitStep, MarkStep;
    match e
    case Offer(u, present, open) =>
      if r.phase.Idle? { OfferKeepsCounts(r, u, present, open); }
    case Recheck(sendable) =>
      if r.phase.Checking? && r.phase.t.u.bytes != [] { RecheckKeepsCounts(r, sendable); }
    case Transmit(fate) =>
      if r.phase.Sending? && r.phase.next < |PlanPieces(r.phase.plan)| { TransmitKeepsCounts(r, fate); }
    case Commit(open) =>
      if r.phase.Sending? && r.phase.next == |PlanPieces(r.phase.plan)| { CommitKeepsCounts(r, open); }
    case Mark(present, open) =>
      if r.phase.Failing? { MarkKeepsCounts(r, present, open); }
    case Deactivate => OutsideEventsKeepCounts(r, 0);
    case Negotiate(payloadType) => OutsideEventsKeepCounts(r, payloadType);
  }

  lemma {:induction false} ExecKeepsCounts(r: Run, events: seq<Event>)
    requires Inv(r) && Counted(r)
    ensures Counted(Exec(r, events))
    decreases |events|
  {
    hide Inv, Counted, Step;
    if events == [] {
    } else {
      StepKeepsInv(r, events[0]);
      StepKeepsCounts(r, events[0]);
      ExecKeepsCounts(Step(r, events[0]), events[1..]);
    }
  }

  // ---------------------------------------------------------------------------
  // The accounts of every run
  // ---------------------------------------------------------------------------

  // Every delivered unit is accounted for: skipped, committed, failed, lost to a teardown, or in flight. The
  // packet counters are exactly the packets that committed calls made, and the startup packets among them.
  lemma SenderAccounting(ssrc: nat, events: seq<Event>)
    ensures var r := Exec(Start(ssrc), events);
            var c := r.s.counters;
            && c.delivered == |r.admitted| == Skips(c) + |r.committed| + c.packetizationFailures + r.lost + InFlight(r)
            && c.packetizationFailures == c.trackClosed + c.sendFailures
            && c.packetsAttempted == c.packetsSentAfterTrackOpen == Packets(r.attempts, r.committed, false)
            && c.startupPackets == Packets(r.attempts, r.committed, true)
            && c.startupPackets <= c.packetsAttempted
            && c.firstDecodableTransitions == (if r.s.firstDecodableSent then 1 else 0)
            && c.firstDecodableTransitions <= c.startupInjections <= |r.committed|
            && c.skippedStartupIdrWait == 0
  {
    hide Exec, StartupFirst, StartedBefore, PhaseInv, CacheInv, NumberedFrom, Packets, Latest, CallInLog, NumbersUsed;
    Reachable(ssrc, events);
    StartsWithInv(ssrc);
    StartsCounted(ssrc);
    ExecKeepsCounts(Start(ssrc), events);
  }

  lemma StartsCounted(ssrc: nat)
    ensures Counted(Start(ssrc))
  {
  }
}
