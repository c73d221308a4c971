// Signaling slots: the recipients of one stream, the ids they are given, the subscriber cap
// and the queue of candidates that arrive before an offer.
module Signaling {
  import opened Bytes

  // ---------------------------------------------------------------------------
  // Session ids
  // ---------------------------------------------------------------------------

  function Digit(d: nat): char
    requires d < 10
  {
    ['0', '1', '2', '3', '4', '5', '6', '7', '8', '9'][d]
  }

  function Decimal(n: nat): (s: string)
    ensures s != ""
  {
    if n < 10 then [Digit(n)] else Decimal(n / 10) + [Digit(n % 10)]
  }

  function SessionId(generation: nat): string {
    "session-" + Decimal(generation)
  }

  lemma {:induction false} DecimalInjective(a: nat, b: nat)
    ensures Decimal(a) == Decimal(b) ==> a == b
    decreases a
  {
    if Decimal(a) == Decimal(b) {
      var da, db := Decimal(a), Decimal(b);
      assert da[|da| - 1] == db[|db| - 1];
      DigitInjective(a % 10, b % 10);
      if a >= 10 && b >= 10 {
        assert Decimal(a / 10) == da[..|da| - 1] && Decimal(b / 10) == db[..|db| - 1];
        DecimalInjective(a / 10, b / 10);
      }
    }
  }

  lemma DigitInjective(a: nat, b: nat)
    requires a < 10 && b < 10
    ensures Digit(a) == Digit(b) ==> a == b
  {
  }

  lemma SessionIdInjective(a: nat, b: nat)
    ensures SessionId(a) == SessionId(b) ==> a == b
  {
    if SessionId(a) == SessionId(b) {
      assert SessionId(a)[8..] == Decimal(a) && SessionId(b)[8..] == Decimal(b);
      DecimalInjective(a, b);
    }
  }

  // ---------------------------------------------------------------------------
  // Slots
  // ---------------------------------------------------------------------------

  // One recipient; `offered` lists the remote candidates submitted to its session, in order.
  datatype Recipient = Recipient(generation: nat, active: bool, offered: seq<string>)

  type Sessions = map<string, Recipient>

  datatype Slot = Slot(pending: seq<string>, nextGeneration: nat, sessions: Sessions)

  const EMPTY_SLOT := Slot([], 0, map[])

  function Pruned(sessions: Sessions): (r: Sessions)
    ensures |r| <= |sessions|
  {
    var r := map id | id in sessions && sessions[id].active :: sessions[id];
    SubsetSize(r.Keys, sessions.Keys);
    r
  }

  lemma SubsetSize(a: set<string>, b: set<string>)
    requires a <= b
    ensures |a| <= |b|
    decreases |a|
  {
    if a != {} {
      var x :| x in a;
      SubsetSize(a - {x}, b - {x});
    }
  }

  predicate IsNewest(sessions: Sessions, id: string) {
    id in sessions && forall other :: other in sessions ==> sessions[other].generation <= sessions[id].generation
  }

  // What an admitted offer carries from its first locked region to its second.
  datatype Offer = Offer(generation: nat, taken: seq<string>)

  // The first locked region of an offer: prune, check the cap, take a generation and the queue.
  function BeginOffer(slot: Slot, maxSubscribers: nat): (Slot, Option<Offer>) {
    var s := slot.(sessions := Pruned(slot.sessions));
    if maxSubscribers != 1 && |s.sessions| >= maxSubscribers then (s, None)
    else
      (s.(nextGeneration := s.nextGeneration + 1, pending := []), Some(Offer(s.nextGeneration + 1, s.pending)))
  }

  // The second one, and the submission of the queued candidates to the new session.
  function FinishOffer(slot: Slot, maxSubscribers: nat, offer: Offer, active: bool): Slot {
    var kept := if maxSubscribers == 1 then map[] else Pruned(slot.sessions);
    slot.(sessions := kept[SessionId(offer.generation) := Recipient(offer.generation, active, offer.taken)])
  }

  function Submitted(sessions: Sessions, id: string, candidate: string): Sessions
    requires id in sessions
  {
    sessions[id := sessions[id].(offered := sessions[id].offered + [candidate])]
  }

  datatype CandidateResult = Queued | Applied(id: string) | Refused

  // ---------------------------------------------------------------------------
  // The signaling server
  // ---------------------------------------------------------------------------

  class SignalingServer {
    const maxPendingCandidates: nat
    var slots: map<string, Slot>

    constructor (maxPendingCandidates: nat)
      ensures slots == map[] && this.maxPendingCandidates == maxPendingCandidates
    {
      this.maxPendingCandidates := maxPendingCandidates;
      slots := map[];
    }

    ghost function SlotOf(stream: string): Slot
      reads this
    {
      if stream in slots then slots[stream] else EMPTY_SLOT
    }

    // The iterator loop that erases inactive recipients.
    method PruneInactiveRecipients(slot: Slot) returns (r: Slot)
      ensures r == slot.(sessions := Pruned(slot.sessions))
    {
      var sessions := slot.sessions;
      var left := sessions.Keys;
      while left != {}
        invariant left <= slot.sessions.Keys
        invariant forall id :: id in sessions <==> id in slot.sessions && (id in left || slot.sessions[id].active)
        invariant forall id :: id in sessions ==> sessions[id] == slot.sessions[id]
        decreases |left|
      {
        var id :| id in left;
        if !sessions[id].active {
          sessions := sessions - {id};
        }
        left := left - {id};
      }
      r := slot.(sessions := sessions);
      assert sessions == Pruned(slot.sessions);
    }

    method AdmitOffer(stream: string, maxSubscribers: nat) returns (offer: Option<Offer>)
      modifies this
      ensures offer == BeginOffer(old(SlotOf(stream)), maxSubscribers).1
      ensures slots == old(slots)[stream := BeginOffer(old(SlotOf(stream)), maxSubscribers).0]
    {
      var slot := if stream in slots then slots[stream] else EMPTY_SLOT;
      slot := PruneInactiveRecipients(slot);
      slots := slots[stream := slot];
      var replacesSingle := maxSubscribers == 1;
      if !replacesSingle && |slot.sessions| >= maxSubscribers {
        return None;
      }
      var generation := slot.nextGeneration + 1;
      var taken := slot.pending;
      slots := slots[stream := slot.(nextGeneration := generation, pending := [])];
      return Some(Offer(generation, taken));
    }

    method InstallSession(stream: string, maxSubscribers: nat, offer: Offer, active: bool)
      modifies this
      ensures slots == old(slots)[stream := FinishOffer(old(SlotOf(stream)), maxSubscribers, offer, active)]
    {
      var slot := if stream in slots then slots[stream] else EMPTY_SLOT;
      slot := PruneInactiveRecipients(slot);
      if maxSubscribers == 1 {
        slot := slot.(sessions := map[]);
      }
      var id := SessionId(offer.generation);
      slot := slot.(sessions := slot.sessions[id := Recipient(offer.generation, active, [])]);
      var i := 0;
      while i < |offer.taken|
        invariant i <= |offer.taken|
        invariant slot == FinishOffer(old(SlotOf(stream)), maxSubscribers, offer.(taken := offer.taken[..i]), active)
      {
        assert offer.taken[..i + 1] == offer.taken[..i] + [offer.taken[i]];
        slot := slot.(sessions := Submitted(slot.sessions, id, offer.taken[i]));
        i := i + 1;
      }
      assert offer.taken[..i] == offer.taken;
      slots := slots[stream := slot];
    }

    // A whole offer; `applied` and `active` are what the peer connection makes of it.
    method SetOffer(stream: string, streamExists: bool, maxSubscribers: nat, applied: bool, active: bool) returns (id: Option<string>)
      modifies this
      ensures !streamExists ==> id.None? && slots == old(slots)
      ensures streamExists ==>
                var b := BeginOffer(old(SlotOf(stream)), maxSubscribers);
                if b.1.Some? && applied then
                  id == Some(SessionId(b.1.value.generation))
                  && slots == old(slots)[stream := FinishOffer(b.0, maxSubscribers, b.1.value, active)]
                else id == None && slots == old(slots)[stream := b.0]
    {
      hide BeginOffer, FinishOffer;
      if !streamExists {
        return None;
      }
      var offer := AdmitOffer(stream, maxSubscribers);
      if offer.None? || !applied {
        return None;
      }
      InstallSession(stream, maxSubscribers, offer.value, active);
      return Some(SessionId(offer.value.generation));
    }

    // The recipient with the largest generation.
    static method NewestSession(sessions: Sessions) returns (id: string)
      requires sessions != map[]
      ensures IsNewest(sessions, id)
    {
      id :| id in sessions;
      var left := sessions.Keys - {id};
      while left != {}
        invariant left <= sessions.Keys && id in sessions
        invariant forall other :: other in sessions && other !in left ==> sessions[other].generation <= sessions[id].generation
        decreases |left|
      {
        var other :| other in left;
        if sessions[id].generation < sessions[other].generation {
          id := other;
        }
        left := left - {other};
      }
    }

    method QueueCandidate(stream: string, candidate: string) returns (r: CandidateResult)
      requires stream in slots
      modifies this
      ensures r == if |old(slots)[stream].pending| < maxPendingCandidates then Queued else Refused
      ensures slots == if r.Queued? then
                         old(slots)[stream := old(slots)[stream].(pending := old(slots)[stream].pending + [candidate])]
                       else old(slots)
    {
      if |slots[stream].pending| >= maxPendingCandidates {
        return Refused;
      }
      slots := slots[stream := slots[stream].(pending := slots[stream].pending + [candidate])];
      return Queued;
    }

    // A candidate goes to the named session, to the newest active one, or into the queue.
    method AddIceCandidate(stream: string, candidate: string, sessionId: Option<string>, streamExists: bool) returns (r: CandidateResult)
      modifies this
      ensures stream in old(slots) ==>
                var s := old(slots)[stream].(sessions := Pruned(old(slots)[stream].sessions));
                && (r.Applied? <==> if sessionId.Some? then sessionId.value in s.sessions else s.sessions != map[])
                && (r.Queued? <==> sessionId.None? && s.sessions == map[] && |s.pending| < maxPendingCandidates)
                && (r.Applied? ==> (if sessionId.Some? then r.id == sessionId.value else IsNewest(s.sessions, r.id))
                                   && r.id in s.sessions
                                   && slots == old(slots)[stream := s.(sessions := Submitted(s.sessions, r.id, candidate))])
                && (r.Queued? ==> slots == old(slots)[stream := s.(pending := s.pending + [candidate])])
                && (r.Refused? ==> slots == old(slots)[stream := s])
      ensures stream !in old(slots) ==>
                && !r.Applied?
                && (r.Queued? <==> streamExists && sessionId.None? && maxPendingCandidates > 0)
                && slots == (if !streamExists || sessionId.Some? then old(slots)
                             else old(slots)[stream := EMPTY_SLOT.(pending := if r.Queued? then [candidate] else [])])
    {
      if stream !in slots {
        if !streamExists || sessionId.Some? {
          return Refused;
        }
        slots := slots[stream := EMPTY_SLOT];
        r := QueueCandidate(stream, candidate);
        assert EMPTY_SLOT.pending + [candidate] == [candidate] && EMPTY_SLOT.(pending := []) == EMPTY_SLOT;
        assert slots == old(slots)[stream := EMPTY_SLOT.(pending := if r.Queued? then [candidate] else [])];
        return;
      }
      var slot := PruneInactiveRecipients(slots[stream]);
      slots := slots[stream := slot];
      var id;
      if sessionId.Some? {
        id := sessionId.value;
        if id !in slot.sessions {
          return Refused;
        }
      } else if slot.sessions != map[] {
        id := NewestSession(slot.sessions);
      } else {
        r := QueueCandidate(stream, candidate);
        return;
      }
      slots := slots[stream := slot.(sessions := Submitted(slot.sessions, id, candidate))];
      return Applied(id);
    }

    method RemoveStream(stream: string)
      modifies this
      ensures slots == old(slots) - {stream}
    {
      slots := slots - {stream};
    }
  }

  // ---------------------------------------------------------------------------
  // Runs of one slot under serialised offers
  // ---------------------------------------------------------------------------

  datatype Event =
    | Begin                                  // an offer's first locked region
    | Install(active: bool)                  // its second one
    | Abandon                                // its session refused the offer
    | Candidate(candidate: string, sessionId: Option<string>)
    | Inactivate(id: string)                 // a peer disconnects
    | Lookup                                 // any reader, which prunes

  // `inFlight` is the admitted offer between its two regions, `accepted` the generations of the
  // installed sessions, `alive` those still active.
  datatype Run = Run(slot: Slot, max: nat, cap: nat, inFlight: Option<Offer>, accepted: seq<nat>, alive: set<nat>)

  function Start(max: nat, cap: nat): Run {
    Run(EMPTY_SLOT, max, cap, None, [], {})
  }

  function Generations(sessions: Sessions): set<nat> {
    set id | id in sessions && sessions[id].active :: sessions[id].generation
  }

  predicate CanStep(r: Run, e: Event) {
    match e
    case Begin => r.inFlight.None?
    case Install(_) => r.inFlight.Some?
    case Abandon => r.inFlight.Some?
    case Candidate(_, _) => true
    case Inactivate(id) => id in r.slot.sessions
    case Lookup => true
  }

  ghost function Newest(sessions: Sessions): (id: string)
    requires sessions != map[]
    ensures IsNewest(sessions, id)
  {
    NewestExists(sessions);
    var id :| IsNewest(sessions, id);
    id
  }

  lemma NewestExists(sessions: Sessions)
    requires sessions != map[]
    ensures exists id :: IsNewest(sessions, id)
    decreases |sessions|
  {
    var id :| id in sessions;
    var rest := sessions - {id};
    if rest == map[] {
      assert forall other :: other in sessions && other != id ==> other in rest;
      assert IsNewest(sessions, id);
    } else {
      NewestExists(rest);
      var best :| IsNewest(rest, best);
      assert forall other :: other in sessions ==> other == id || other in rest;
      if sessions[best].generation < sessions[id].generation {
        assert IsNewest(sessions, id);
      } else {
        assert IsNewest(sessions, best);
      }
    }
  }

  ghost function CandidateStep(r: Run, candidate: string, sessionId: Option<string>): Run {
    var s := r.slot.(sessions := Pruned(r.slot.sessions));
    if sessionId.Some? then
      if sessionId.value in s.sessions then r.(slot := s.(sessions := Submitted(s.sessions, sessionId.value, candidate)))
      else r.(slot := s)
    else if s.sessions != map[] then r.(slot := s.(sessions := Submitted(s.sessions, Newest(s.sessions), candidate)))
    else if |s.pending| < r.cap then r.(slot := s.(pending := s.pending + [candidate]))
    else r.(slot := s)
  }

  ghost function Step(r: Run, e: Event): Run {
    if !CanStep(r, e) then r
    else
      match e
      case Begin =>
        var (slot', offer) := BeginOffer(r.slot, r.max);
        r.(slot := slot', inFlight := offer)
      case Install(active) =>
        var g := r.inFlight.value.generation;
        r.(slot := FinishOffer(r.slot, r.max, r.inFlight.value, active), inFlight := None,
           accepted := r.accepted + [g],
           alive := (if r.max == 1 then {} else r.alive) + (if active then {g} else {}))
      case Abandon => r.(inFlight := None)
      case Candidate(candidate, sessionId) => CandidateStep(r, candidate, sessionId)
      case Inactivate(id) =>
        r.(slot := r.slot.(sessions := r.slot.sessions[id := r.slot.sessions[id].(active := false)]),
           alive := r.alive - {r.slot.sessions[id].generation})
      case Lookup => r.(slot := r.slot.(sessions := Pruned(r.slot.sessions)))
  }

  ghost function Exec(r: Run, events: seq<Event>): Run
    decreases |events|
  {
    if events == [] then r else Exec(Step(r, events[0]), events[1..])
  }

  // ---------------------------------------------------------------------------
  // The queue of early candidates, read off the events
  // ---------------------------------------------------------------------------

  // A candidate for no session in particular that finds no active recipient and room in the queue.
  predicate Queues(r: Run, e: Event) {
    e.Candidate? && e.sessionId.None? && Pruned(r.slot.sessions) == map[] && |r.slot.pending| < r.cap
  }

  // An offer that is admitted, and so takes the queue.
  predicate Takes(r: Run, e: Event) {
    e.Begin? && CanStep(r, e) && BeginOffer(r.slot, r.max).1.Some?
  }

  // The candidates that the events queue, in order of arrival.
  ghost function Arrivals(r: Run, events: seq<Event>): seq<string>
    decreases |events|
  {
    if events == [] then []
    else (if Queues(r, events[0]) then [events[0].candidate] else []) + Arrivals(Step(r, events[0]), events[1..])
  }

  // How many of the events lie before the end of the last admitted offer's first region.
  ghost function UpToLastTake(r: Run, events: seq<Event>): (k: nat)
    ensures k <= |events|
    decreases |events|
  {
    if events == [] then 0
    else
      var k := UpToLastTake(Step(r, events[0]), events[1..]);
      if k > 0 then k + 1 else if Takes(r, events[0]) then 1 else 0
  }

  // What one event does to the queue.
  lemma QueueAfterStep(r: Run, e: Event)
    ensures Step(r, e).slot.pending ==
            if Takes(r, e) then [] else if Queues(r, e) then r.slot.pending + [e.candidate] else r.slot.pending
  {
    hide Pruned, SessionId, Generations, Submitted;
  }

  // The queue holds the candidates queued since the last admitted offer, in order of arrival.
  lemma {:induction false} QueueIsArrivals(r: Run, events: seq<Event>)
    ensures var k := UpToLastTake(r, events);
            Exec(r, events).slot.pending ==
            (if k == 0 then r.slot.pending else []) + Arrivals(Exec(r, events[..k]), events[k..])
    decreases |events|
  {
    hide Step, Takes, Queues;
    if events == [] {
    } else {
      var r', rest := Step(r, events[0]), events[1..];
      var k := UpToLastTake(r', rest);
      QueueIsArrivals(r', rest);
      QueueAfterStep(r, events[0]);
      if k > 0 {
        assert events[..k + 1][1..] == rest[..k] && events[k + 1..] == rest[k..];
      } else {
        assert events[..0] == [] && events[0..] == events && rest[..0] == [] && rest[0..] == rest;
        assert events[..1][1..] == [];
      }
    }
  }

  // Every recipient is filed under the id of its own generation, which was handed out before.
  ghost predicate Filed(sessions: Sessions, bound: nat) {
    forall id :: id in sessions ==> id == SessionId(sessions[id].generation) && 0 < sessions[id].generation <= bound
  }

  // Generations handed out and finished with, not counting the offer in flight.
  function Settled(r: Run): int {
    r.slot.nextGeneration - (if r.inFlight.Some? then 1 else 0)
  }

  ghost predicate Inv(r: Run) {
    && Settled(r) >= 0
    && Filed(r.slot.sessions, Settled(r))
    && (r.inFlight.Some? ==> r.inFlight.value.generation == r.slot.nextGeneration)
    && |r.slot.sessions| <= r.max
    && (r.inFlight.Some? && r.max != 1 ==> |r.slot.sessions| < r.max)
    && Generations(r.slot.sessions) == r.alive
    && (forall k :: 0 <= k < |r.accepted| ==> 0 < r.accepted[k] <= Settled(r))
    && (forall k :: 0 < k < |r.accepted| ==> r.accepted[k - 1] < r.accepted[k])
    && |r.slot.pending| <= r.cap
  }

  // No two recipients share a generation, so the machine's newest recipient is the one that the
  // server object picks.
  lemma NewestIsUnique(sessions: Sessions, bound: nat, id: string)
    requires Filed(sessions, bound) && IsNewest(sessions, id)
    ensures id == Newest(sessions)
  {
    hide SessionId;
    var other := Newest(sessions);
    assert sessions[id].generation == sessions[other].generation;
  }

  lemma PrunedKeeps(sessions: Sessions, bound: nat)
    requires Filed(sessions, bound)
    ensures Filed(Pruned(sessions), bound) && Generations(Pruned(sessions)) == Generations(sessions)
  {
    hide SessionId;
    var p := Pruned(sessions);
    forall g | g in Generations(sessions)
      ensures g in Generations(p)
    {
      var k :| k in sessions && sessions[k].active && sessions[k].generation == g;
      assert k in p && p[k] == sessions[k];
    }
    forall g | g in Generations(p)
      ensures g in Generations(sessions)
    {
      var k :| k in p && p[k].active && p[k].generation == g;
      assert p[k] == sessions[k];
    }
  }

  // A new recipient adds its own generation, when it is active.
  lemma GenerationsGrow(sessions: Sessions, id: string, rec: Recipient)
    requires id !in sessions
    ensures Generations(sessions[id := rec]) == Generations(sessions) + (if rec.active then {rec.generation} else {})
  {
    var s' := sessions[id := rec];
    forall g
      ensures g in Generations(s') <==> g in Generations(sessions) || (rec.active && g == rec.generation)
    {
      GenerationGrows(sessions, id, rec, g);
    }
  }

  lemma GenerationGrows(sessions: Sessions, id: string, rec: Recipient, g: nat)
    requires id !in sessions
    ensures g in Generations(sessions[id := rec]) <==> g in Generations(sessions) || (rec.active && g == rec.generation)
  {
    var s' := sessions[id := rec];
    if g in Generations(sessions) {
      var k :| k in sessions && sessions[k].active && sessions[k].generation == g;
      assert s'[k] == sessions[k];
    } else {
      assert s'[id] == rec;
    }
  }

  lemma OneMore(sessions: Sessions, id: string, rec: Recipient)
    requires id !in sessions
    ensures |sessions[id := rec]| == |sessions| + 1
  {
    var s' := sessions[id := rec];
    assert s'.Keys == sessions.Keys + {id};
    assert |s'| == |s'.Keys| && |sessions| == |sessions.Keys|;
  }

  lemma SubmittedKeeps(sessions: Sessions, id: string, candidate: string, bound: nat)
    requires Filed(sessions, bound) && id in sessions
    ensures Filed(Submitted(sessions, id, candidate), bound)
    ensures Generations(Submitted(sessions, id, candidate)) == Generations(sessions)
    ensures |Submitted(sessions, id, candidate)| == |sessions|
  {
    hide SessionId;
    var s' := Submitted(sessions, id, candidate);
    assert s'.Keys == sessions.Keys;
    assert |s'.Keys| == |s'| && |sessions.Keys| == |sessions|;
    forall g | g in Generations(sessions)
      ensures g in Generations(s')
    {
      var k :| k in sessions && sessions[k].active && sessions[k].generation == g;
      assert s'[k].active && s'[k].generation == g;
    }
  }

  lemma InstalledKeeps(sessions: Sessions, offer: Offer, active: bool)
    requires offer.generation > 0 && Filed(sessions, offer.generation - 1)
    ensures var s' := sessions[SessionId(offer.generation) := Recipient(offer.generation, active, offer.taken)];
            && Filed(s', offer.generation)
            && Generations(s') == Generations(sessions) + (if active then {offer.generation} else {})
            && |s'| == |sessions| + 1
  {
    hide Generations, SessionId;
    var id := SessionId(offer.generation);
    if id in sessions {
      SessionIdInjective(offer.generation, sessions[id].generation);
    }
    GenerationsGrow(sessions, id, Recipient(offer.generation, active, offer.taken));
    OneMore(sessions, id, Recipient(offer.generation, active, offer.taken));
  }

  lemma InactivatedKeeps(sessions: Sessions, id: string, bound: nat)
    requires Filed(sessions, bound) && id in sessions
    ensures var s' := sessions[id := sessions[id].(active := false)];
            && Filed(s', bound) && |s'| == |sessions|
            && Generations(s') == Generations(sessions) - {sessions[id].generation}
  {
    var s' := sessions[id := sessions[id].(active := false)];
    assert s'.Keys == sessions.Keys;
    assert |s'| == |s'.Keys| && |sessions| == |sessions.Keys|;
    forall g | g in Generations(sessions) && g != sessions[id].generation
      ensures g in Generations(s')
    {
      var k :| k in sessions && sessions[k].active && sessions[k].generation == g;
      assert s'[k] == sessions[k];
    }
    forall g | g in Generations(s')
      ensures g in Generations(sessions) && g != sessions[id].generation
    {
      var k :| k in s' && s'[k].active && s'[k].generation == g;
      assert k != id && s'[k] == sessions[k];
      SessionIdInjective(g, sessions[id].generation);
    }
  }

  lemma InstallKeepsInv(r: Run, active: bool)
    requires Inv(r) && r.inFlight.Some?
    ensures Inv(Step(r, Install(active)))
  {
    hide Pruned, Generations, Filed, SessionId;
    PrunedKeeps(r.slot.sessions, Settled(r));
    NothingFiled(r.inFlight.value.generation - 1);
    InstalledKeeps(if r.max == 1 then map[] else Pruned(r.slot.sessions), r.inFlight.value, active);
  }

  lemma CandidateKeepsInv(r: Run, candidate: string, sessionId: Option<string>)
    requires Inv(r)
    ensures Inv(CandidateStep(r, candidate, sessionId))
  {
    hide Pruned, Generations, Filed, SessionId, Submitted;
    PrunedKeeps(r.slot.sessions, Settled(r));
    var s := Pruned(r.slot.sessions);
    if sessionId.Some? && sessionId.value in s {
      SubmittedKeeps(s, sessionId.value, candidate, Settled(r));
    } else if sessionId.None? && s != map[] {
      SubmittedKeeps(s, Newest(s), candidate, Settled(r));
    }
  }

  lemma StepKeepsInv(r: Run, e: Event)
    requires Inv(r)
    ensures Inv(Step(r, e))
  {
    hide Pruned, Generations, Filed, SessionId, Submitted, CandidateStep, FinishOffer;
    if CanStep(r, e) {
      PrunedKeeps(r.slot.sessions, Settled(r));
      match e {
        case Begin =>
        case Install(active) => InstallKeepsInv(r, active);
        case Abandon => FiledGrows(r.slot.sessions, Settled(r), r.slot.nextGeneration);
        case Candidate(candidate, sessionId) => CandidateKeepsInv(r, candidate, sessionId);
        case Inactivate(id) => InactivatedKeeps(r.slot.sessions, id, Settled(r));
        case Lookup =>
      }
    }
  }

  lemma NothingFiled(bound: nat)
    ensures Filed(map[], bound) && Generations(map[]) == {}
  {
  }

  lemma FiledGrows(sessions: Sessions, a: nat, b: nat)
    requires Filed(sessions, a) && a <= b
    ensures Filed(sessions, b)
  {
  }

  lemma {:induction false} ExecKeepsInv(r: Run, events: seq<Event>)
    requires Inv(r)
    ensures Inv(Exec(r, events)) && Exec(r, events).max == r.max && Exec(r, events).cap == r.cap
    decreases |events|
  {
    hide Inv;
    if events == [] {
    } else {
      StepKeepsInv(r, events[0]);
      LimitsStay(r, events[0]);
      ExecKeepsInv(Step(r, events[0]), events[1..]);
    }
  }

  lemma LimitsStay(r: Run, e: Event)
    ensures Step(r, e).max == r.max && Step(r, e).cap == r.cap
  {
  }

  lemma Reachable(max: nat, cap: nat, events: seq<Event>)
    ensures var r := Exec(Start(max, cap), events); Inv(r) && r.max == max && r.cap == cap
  {
    assert Generations(map[]) == {};
    ExecKeepsInv(Start(max, cap), events);
  }

  // Recipients never exceed the cap, generations and session ids are never reused, and the queue of
  // early candidates stays within its own cap and holds those queued since the last admitted
  // offer, in order of arrival.
  lemma SlotIsSafe(max: nat, cap: nat, events: seq<Event>)
    ensures var r := Exec(Start(max, cap), events);
            && |r.slot.sessions| <= max
            && (forall i, j :: 0 <= i < j < |r.accepted| ==>
                  r.accepted[i] < r.accepted[j] && SessionId(r.accepted[i]) != SessionId(r.accepted[j]))
            && |r.slot.pending| <= cap
            && var k := UpToLastTake(Start(max, cap), events);
               r.slot.pending == Arrivals(Exec(Start(max, cap), events[..k]), events[k..])
  {
    hide Exec, SessionId, Generations, Filed, Arrivals, UpToLastTake;
    Reachable(max, cap, events);
    QueueIsArrivals(Start(max, cap), events);
    var r := Exec(Start(max, cap), events);
    forall i, j | 0 <= i < j < |r.accepted|
      ensures r.accepted[i] < r.accepted[j] && SessionId(r.accepted[i]) != SessionId(r.accepted[j])
    {
      AcceptedIncrease(r.accepted, i, j);
      SessionIdInjective(r.accepted[i], r.accepted[j]);
    }
  }

  lemma {:induction false} AcceptedIncrease(accepted: seq<nat>, i: nat, j: nat)
    requires i < j < |accepted| && forall k :: 0 < k < |accepted| ==> accepted[k - 1] < accepted[k]
    ensures accepted[i] < accepted[j]
    decreases j - i
  {
    if i + 1 == j {
    } else {
      AcceptedIncrease(accepted, i, j - 1);
    }
  }

  // An id-less lookup finds the session of the latest accepted offer that is still active, if any is.
  lemma LookupFindsLatestActive(max: nat, cap: nat, events: seq<Event>)
    ensures var r := Exec(Start(max, cap), events);
            var found := Pruned(r.slot.sessions);
            && (found == map[] <==> r.alive == {})
            && (found != map[] ==>
                  found[Newest(found)].generation in r.alive && found[Newest(found)].active
                  && forall g :: g in r.alive ==> g <= found[Newest(found)].generation)
  {
    hide Exec, SessionId;
    Reachable(max, cap, events);
    var r := Exec(Start(max, cap), events);
    var found := Pruned(r.slot.sessions);
    PrunedKeeps(r.slot.sessions, Settled(r));
    if found != map[] {
      var id := Newest(found);
      assert found[id].generation in Generations(found);
      forall g | g in r.alive
        ensures g <= found[id].generation
      {
        var k :| k in found && found[k].active && found[k].generation == g;
      }
    } else {
      assert Generations(found) == {};
    }
  }

  predicate OutsideOffers(events: seq<Event>) {
    forall e :: e in events ==> !e.Begin? && !e.Install? && !e.Abandon?
  }

  // While an offer is in flight, events outside offers leave it alone and only add to the queue.
  lemma {:induction false} OfferStaysInFlight(r: Run, events: seq<Event>)
    requires r.inFlight.Some? && OutsideOffers(events)
    ensures var r' := Exec(r, events);
            r'.inFlight == r.inFlight && r'.max == r.max && r'.slot.nextGeneration == r.slot.nextGeneration
    ensures Exec(r, events).slot.pending == r.slot.pending + Arrivals(r, events)
    decreases |events|
  {
    hide Queues, Takes;
    if events == [] {
    } else {
      QueueAfterStep(r, events[0]);
      BetweenRegions(r, events[0]);
      hide Step;
      OfferStaysInFlight(Step(r, events[0]), events[1..]);
    }
  }

  lemma BetweenRegions(r: Run, e: Event)
    requires r.inFlight.Some? && !e.Begin? && !e.Install? && !e.Abandon?
    ensures var r' := Step(r, e);
            r'.inFlight == r.inFlight && r'.max == r.max && r'.slot.nextGeneration == r.slot.nextGeneration && !Takes(r, e)
  {
  }

  // Whatever happens between the two regions of an accepted offer, its session receives exactly the candidates
  // queued before, in order of arrival, under an id that no recipient has; later ones stay queued.
  // With one subscriber it is the only recipient left.
  lemma OfferReceivesQueue(max: nat, cap: nat, events: seq<Event>, between: seq<Event>, active: bool)
    requires Takes(Exec(Start(max, cap), events), Begin) && OutsideOffers(between)
    ensures var r := Exec(Start(max, cap), events);
            var r1 := Exec(Step(r, Begin), between);
            var done := Step(r1, Install(active));
            var id := SessionId(r.slot.nextGeneration + 1);
            && id in done.slot.sessions && done.slot.sessions[id] == Recipient(r.slot.nextGeneration + 1, active, r.slot.pending)
            && id !in r1.slot.sessions
            && done.slot.pending == Arrivals(Step(r, Begin), between)
            && (max == 1 ==> done.slot.sessions.Keys == {id})
            && (max != 1 ==> forall other :: other in r1.slot.sessions && r1.slot.sessions[other].active ==>
                  other in done.slot.sessions && done.slot.sessions[other] == r1.slot.sessions[other])
            && done.slot.nextGeneration == r.slot.nextGeneration + 1 && done.accepted == r1.accepted + [r.slot.nextGeneration + 1]
  {
    hide Exec, Arrivals, Inv, Step, Takes, SessionId;
    Reachable(max, cap, events);
    var r := Exec(Start(max, cap), events);
    var r0 := Step(r, Begin);
    StepKeepsInv(r, Begin);
    BeginTakes(r);
    ExecKeepsInv(r0, between);
    OfferStaysInFlight(r0, between);
    InstallFresh(Exec(r0, between), active);
  }

  lemma BeginTakes(r: Run)
    requires Takes(r, Begin)
    ensures var r' := Step(r, Begin);
            && r'.inFlight == Some(Offer(r.slot.nextGeneration + 1, r.slot.pending))
            && r'.slot.pending == [] && r'.max == r.max && r'.slot.nextGeneration == r.slot.nextGeneration + 1
  {
    hide Pruned;
  }

  lemma InstallFresh(r: Run, active: bool)
    requires Inv(r) && r.inFlight.Some?
    ensures var done := Step(r, Install(active));
            var id := SessionId(r.inFlight.value.generation);
            && id in done.slot.sessions && done.slot.sessions[id] == Recipient(r.inFlight.value.generation, active, r.inFlight.value.taken)
            && id !in r.slot.sessions
            && done.slot.pending == r.slot.pending
            && (r.max == 1 ==> done.slot.sessions.Keys == {id})
            && (r.max != 1 ==> forall other :: other in r.slot.sessions && r.slot.sessions[other].active ==>
                  other in done.slot.sessions && done.slot.sessions[other] == r.slot.sessions[other])
            && done.slot.nextGeneration == r.slot.nextGeneration && done.accepted == r.accepted + [r.inFlight.value.generation]
  {
    hide SessionId, Generations, Pruned;
    PrunedAreActive(r.slot.sessions);
    var id := SessionId(r.inFlight.value.generation);
    if id in r.slot.sessions {
      SessionIdInjective(r.inFlight.value.generation, r.slot.sessions[id].generation);
    }
  }

  // Whatever happens between its two regions, an admitted offer that its session refuses loses the
  // candidates it took: no session is given them, and the queue holds only those that came later.
  lemma RefusedOfferLosesQueue(max: nat, cap: nat, events: seq<Event>, between: seq<Event>)
    requires Takes(Exec(Start(max, cap), events), Begin) && OutsideOffers(between)
    ensures var r := Exec(Start(max, cap), events);
            var r1 := Exec(Step(r, Begin), between);
            var done := Step(r1, Abandon);
            && r1.inFlight == Some(Offer(r.slot.nextGeneration + 1, r.slot.pending)) && done.inFlight.None?
            && done.slot.sessions == r1.slot.sessions && done.accepted == r.accepted
            && done.slot.pending == Arrivals(Step(r, Begin), between)
  {
    hide Exec, Arrivals, Takes, SessionId;
    var r := Exec(Start(max, cap), events);
    BeginTakes(r);
    OfferStaysInFlight(Step(r, Begin), between);
    AcceptedStays(Step(r, Begin), between);
    AbandonDrops(Exec(Step(r, Begin), between));
  }

  lemma AbandonDrops(r: Run)
    requires r.inFlight.Some?
    ensures Step(r, Abandon) == r.(inFlight := None)
  {
  }

  lemma {:induction false} AcceptedStays(r: Run, events: seq<Event>)
    requires OutsideOffers(events)
    ensures Exec(r, events).accepted == r.accepted
    decreases |events|
  {
    if events == [] {
    } else {
      AcceptedStaysStep(r, events[0]);
      hide Step;
      AcceptedStays(Step(r, events[0]), events[1..]);
    }
  }

  lemma AcceptedStaysStep(r: Run, e: Event)
    requires !e.Begin? && !e.Install? && !e.Abandon?
    ensures Step(r, e).accepted == r.accepted
  {
  }

  // The shortest such run: a candidate arrives, is queued, is taken by an offer that is refused, and is gone.
  lemma EarlyCandidateIsLost(max: nat, cap: nat, candidate: string)
    requires max > 0 && cap > 0
    ensures var queued := Exec(Start(max, cap), [Candidate(candidate, None)]);
            var done := Exec(Start(max, cap), [Candidate(candidate, None), Begin, Abandon]);
            && queued.slot.pending == [candidate]
            && done.slot.pending == [] && done.slot.sessions == map[] && done.accepted == [] && done.inFlight.None?
  {
    hide Exec, Step;
    var r := Start(max, cap);
    OneEvent(r, Candidate(candidate, None));
    ThreeEvents(r, Candidate(candidate, None), Begin, Abandon);
    FirstCandidateQueues(max, cap, candidate);
    var r1 := Step(r, Candidate(candidate, None));
    FirstOfferTakes(r1);
    AbandonDrops(Step(r1, Begin));
  }

  lemma FirstCandidateQueues(max: nat, cap: nat, candidate: string)
    requires cap > 0
    ensures var r := Step(Start(max, cap), Candidate(candidate, None));
            r == Start(max, cap).(slot := EMPTY_SLOT.(pending := [candidate]))
  {
    NoRecipients();
  }

  lemma FirstOfferTakes(r: Run)
    requires r.inFlight.None? && r.slot.sessions == map[] && r.max > 0
    ensures var r' := Step(r, Begin);
            && r'.inFlight.Some? && r'.slot.pending == [] && r'.slot.sessions == map[] && r'.accepted == r.accepted
  {
    NoRecipients();
  }

  lemma OneEvent(r: Run, e: Event)
    ensures Exec(r, [e]) == Step(r, e)
  {
    hide Step;
    assert [e][1..] == [];
  }

  lemma ThreeEvents(r: Run, e1: Event, e2: Event, e3: Event)
    ensures Exec(r, [e1, e2, e3]) == Step(Step(Step(r, e1), e2), e3)
  {
    hide Step;
    assert [e1, e2, e3][1..] == [e2, e3] && [e2, e3][1..] == [e3];
    OneEvent(Step(Step(r, e1), e2), e3);
    assert Exec(Step(r, e1), [e2, e3]) == Exec(Step(Step(r, e1), e2), [e3]);
  }

  lemma NoRecipients()
    ensures Pruned(map[]) == map[]
  {
  }

  // ---------------------------------------------------------------------------
  // Admission and routing in every run
  // ---------------------------------------------------------------------------

  // After a prune there is one recipient for each accepted offer that is still active.
  lemma RecipientsAreAlive(r: Run)
    requires Inv(r)
    ensures |Pruned(r.slot.sessions)| == |r.alive|
    ensures Pruned(r.slot.sessions) == map[] <==> r.alive == {}
  {
    hide SessionId, Pruned;
    var p := Pruned(r.slot.sessions);
    PrunedKeeps(r.slot.sessions, Settled(r));
    PrunedAreActive(r.slot.sessions);
    GenerationsCount(p, Settled(r));
  }

  lemma PrunedAreActive(sessions: Sessions)
    ensures forall id :: id in Pruned(sessions) ==> Pruned(sessions)[id].active
    ensures forall id :: id in sessions && sessions[id].active ==> id in Pruned(sessions) && Pruned(sessions)[id] == sessions[id]
    ensures forall id :: id in Pruned(sessions) ==> id in sessions && Pruned(sessions)[id] == sessions[id]
  {
  }

  // Active recipients have as many generations as there are of them.
  lemma {:induction false} GenerationsCount(sessions: Sessions, bound: nat)
    requires Filed(sessions, bound) && forall id :: id in sessions ==> sessions[id].active
    ensures |Generations(sessions)| == |sessions|
    ensures Generations(sessions) == {} <==> sessions == map[]
    decreases |sessions|
  {
    hide SessionId;
    if sessions == map[] {
      assert Generations(sessions) == {};
    } else {
      var id :| id in sessions;
      var rest := sessions - {id};
      OneLess(sessions, id);
      GenerationsCount(rest, bound);
      GenerationsWithout(sessions, id, bound);
    }
  }

  lemma OneLess(sessions: Sessions, id: string)
    requires id in sessions
    ensures |sessions - {id}| == |sessions| - 1
  {
    var rest := sessions - {id};
    assert rest.Keys == sessions.Keys - {id};
    assert |rest| == |rest.Keys| && |sessions| == |sessions.Keys|;
  }

  lemma GenerationsWithout(sessions: Sessions, id: string, bound: nat)
    requires Filed(sessions, bound) && id in sessions && forall k :: k in sessions ==> sessions[k].active
    ensures var g := sessions[id].generation;
            g in Generations(sessions) && g !in Generations(sessions - {id})
            && Generations(sessions) == Generations(sessions - {id}) + {g}
  {
    var rest, g := sessions - {id}, sessions[id].generation;
    hide SessionId;
    forall k | k in rest
      ensures rest[k].generation != g
    {
      assert k in sessions && k == SessionId(sessions[k].generation) && id == SessionId(g);
    }
    forall h | h in Generations(sessions)
      ensures h in Generations(rest) || h == g
    {
      var k :| k in sessions && sessions[k].active && sessions[k].generation == h;
      assert k == id || (k in rest && rest[k] == sessions[k]);
    }
    forall h | h in Generations(rest)
      ensures h in Generations(sessions)
    {
      var k :| k in rest && rest[k].active && rest[k].generation == h;
      assert sessions[k] == rest[k];
    }
  }

  // In every run an offer that meets no other one in flight is admitted if and only if there is room: with one
  // subscriber always, and otherwise when fewer than the maximum are active. A refused one leaves
  // queue, generation and active recipients as they were.
  lemma AdmittedExactly(max: nat, cap: nat, events: seq<Event>)
    requires Exec(Start(max, cap), events).inFlight.None?
    ensures var r := Exec(Start(max, cap), events);
            var r' := Step(r, Begin);
            && (r'.inFlight.Some? <==> max == 1 || |r.alive| < max)
            && (Takes(r, Begin) <==> max == 1 || |r.alive| < max)
            && (r'.inFlight.None? ==>
                  && r'.slot.pending == r.slot.pending && r'.slot.nextGeneration == r.slot.nextGeneration
                  && r'.alive == r.alive && r'.accepted == r.accepted
                  && forall id :: id in r.slot.sessions && r.slot.sessions[id].active ==>
                       id in r'.slot.sessions && r'.slot.sessions[id] == r.slot.sessions[id])
  {
    hide Exec, Pruned, Inv, SessionId;
    Reachable(max, cap, events);
    RecipientsAreAlive(Exec(Start(max, cap), events));
    PrunedAreActive(Exec(Start(max, cap), events).slot.sessions);
  }

  // In every run a candidate for no session in particular reaches the session of the latest active offer and no
  // other; with none active it is queued behind the others while the queue has room, and is lost otherwise.
  lemma CandidateReachesNewest(max: nat, cap: nat, events: seq<Event>, candidate: string)
    ensures var r := Exec(Start(max, cap), events);
            var r' := Step(r, Candidate(candidate, None));
            && (r.alive == {} ==>
                  && r'.slot.sessions == map[]
                  && r'.slot.pending == if |r.slot.pending| < cap then r.slot.pending + [candidate] else r.slot.pending)
            && (r.alive != {} ==>
                  && r'.slot.pending == r.slot.pending && r'.slot.sessions.Keys == Pruned(r.slot.sessions).Keys
                  && forall id :: id in r'.slot.sessions ==>
                       var was := r.slot.sessions[id];
                       r'.slot.sessions[id] ==
                       if forall g :: g in r.alive ==> g <= was.generation then was.(offered := was.offered + [candidate]) else was)
  {
    hide Exec, Pruned, Inv, SessionId, Generations;
    Reachable(max, cap, events);
    var r := Exec(Start(max, cap), events);
    RecipientsAreAlive(r);
    PrunedAreActive(r.slot.sessions);
    if r.alive != {} {
      NewestIsLatest(r);
    }
  }

  // The newest recipient is the only one whose generation no active one exceeds.
  lemma NewestIsLatest(r: Run)
    requires Inv(r) && Pruned(r.slot.sessions) != map[]
    ensures var p := Pruned(r.slot.sessions);
            forall id :: id in p ==> ((forall g :: g in r.alive ==> g <= p[id].generation) <==> id == Newest(p))
  {
    hide SessionId, Pruned;
    var p := Pruned(r.slot.sessions);
    PrunedKeeps(r.slot.sessions, Settled(r));
    PrunedAreActive(r.slot.sessions);
    var newest := Newest(p);
    assert p[newest].generation in Generations(p);
    forall g | g in r.alive
      ensures g <= p[newest].generation
    {
      var k :| k in p && p[k].active && p[k].generation == g;
    }
    forall id | id in p && forall g :: g in r.alive ==> g <= p[id].generation
      ensures id == newest
    {
      assert p[id].generation == p[newest].generation;
    }
  }

  // A candidate for a named session reaches exactly that session if it is active, and nothing otherwise.
  lemma CandidateReachesNamed(max: nat, cap: nat, events: seq<Event>, candidate: string, name: string)
    ensures var r := Exec(Start(max, cap), events);
            var r' := Step(r, Candidate(candidate, Some(name)));
            && r'.slot.pending == r.slot.pending && r'.slot.sessions.Keys == Pruned(r.slot.sessions).Keys
            && forall id :: id in r'.slot.sessions ==>
                 var was := r.slot.sessions[id];
                 was.active && r'.slot.sessions[id] == if id == name then was.(offered := was.offered + [candidate]) else was
  {
    hide Exec, Pruned, Inv, SessionId, Generations;
    var r := Exec(Start(max, cap), events);
    PrunedAreActive(r.slot.sessions);
    assert Step(r, Candidate(candidate, Some(name))).slot.sessions.Keys == Pruned(r.slot.sessions).Keys;
  }

  // ---------------------------------------------------------------------------
  // What session ids look like
  // ---------------------------------------------------------------------------

  // The number that a string of digits stands for.
  function ValueOf(s: string): int {
    if s == "" then 0 else ValueOf(s[..|s| - 1]) * 10 + (s[|s| - 1] as int - '0' as int)
  }

  lemma {:induction false} DecimalIsNumber(n: nat)
    ensures ValueOf(Decimal(n)) == n && (n > 0 ==> Decimal(n)[0] != '0')
    ensures forall i :: 0 <= i < |Decimal(n)| ==> '0' <= Decimal(n)[i] <= '9'
    decreases n
  {
    if n < 10 {
      assert [Digit(n)][..0] == "";
      assert ValueOf("") == 0;
    } else {
      DecimalIsNumber(n / 10);
      var s := Decimal(n);
      assert s[..|s| - 1] == Decimal(n / 10);
    }
  }

  // A session id is "session-" and the generation in decimal.
  lemma SessionIdIsNumbered(generation: nat)
    ensures SessionId(generation) == "session-" + SessionId(generation)[8..]
    ensures ValueOf(SessionId(generation)[8..]) == generation
  {
    DecimalIsNumber(generation);
    assert SessionId(generation)[8..] == Decimal(generation);
  }
}
