// The shutdown protocol between group handles and the server's destructor: the access
// record they share, one step per locked region, and what holds in every interleaving.
module Shutdown {
  import opened Bytes

  // ---------------------------------------------------------------------------
  // The shared access record
  // ---------------------------------------------------------------------------

  datatype Access = Access(hasOwner: bool, shuttingDown: bool, activeCalls: int)

  predicate Open(a: Access) {
    a.hasOwner && !a.shuttingDown
  }

  // The four locked regions, each one step on the record.
  function AfterEntry(a: Access): Access {
    if Open(a) then a.(activeCalls := a.activeCalls + 1) else a
  }

  function AfterExit(a: Access): Access {
    a.(activeCalls := a.activeCalls - 1)
  }

  function AfterBegin(a: Access): Access {
    a.(shuttingDown := true)
  }

  function AfterEvaluation(a: Access): Access {
    if a.activeCalls == 0 then a.(hasOwner := false) else a
  }

  class ManagedServerAccess {
    var hasOwner: bool
    var shuttingDown: bool
    var activeCalls: int

    ghost function View(): Access
      reads this
    {
      Access(hasOwner, shuttingDown, activeCalls)
    }

    constructor ()
      ensures View() == Access(true, false, 0)
    {
      hasOwner, shuttingDown, activeCalls := true, false, 0;
    }

    // The locked entry of a handle call: refused once the server is stopping.
    method EnterCall() returns (entered: bool)
      modifies this
      ensures entered == Open(old(View()))
      ensures View() == AfterEntry(old(View()))
    {
      if !hasOwner || shuttingDown {
        return false;
      }
      activeCalls := activeCalls + 1;
      return true;
    }

    method LeaveCall()
      modifies this
      ensures View() == AfterExit(old(View()))
    {
      activeCalls := activeCalls - 1;
    }

    // The destructor's first locked region.
    method BeginShutdown()
      modifies this
      ensures View() == AfterBegin(old(View()))
    {
      shuttingDown := true;
    }

    // The destructor's wait condition; when it holds the owner is withdrawn in the same region.
    method TryFinish() returns (done: bool)
      modifies this
      ensures done == (old(activeCalls) == 0)
      ensures View() == AfterEvaluation(old(View()))
    {
      if activeCalls != 0 {
        return false;
      }
      hasOwner := false;
      return true;
    }
  }

  // ---------------------------------------------------------------------------
  // The protocol
  // ---------------------------------------------------------------------------

  // A call that got past its handle's stepping flag: `Claimed` holds the flag, `Entered` is counted
  // as active, `Leaving` has been counted off or was refused but still holds the flag.
  datatype CallPc = Claimed | Entered | Leaving

  datatype Call = Call(handle: nat, pc: CallPc)

  // The destructor: not begun, evaluating its wait condition, asleep in the wait, past it.
  datatype DestructorPc = NotBegun | Evaluating | Asleep | Finished

  // `stepping` holds the flag of every living group handle, `calls` the calls in flight, `released` the
  // handles whose group was released when they went away.
  datatype Run = Run(access: Access, stepping: map<nat, bool>, calls: map<nat, Call>, destructor: DestructorPc,
                     released: seq<nat>)

  datatype Event =
    | Create(h: nat)          // a group is formed
    | Destroy(h: nat)         // its handle goes away, releasing the group when the server is up
    | Claim(c: nat, h: nat)   // a call tries to take the stepping flag
    | Enter(c: nat)           // the locked entry
    | Leave(c: nat)           // the locked exit, which notifies the destructor
    | Unclaim(c: nat)         // the stepping flag is cleared
    | Begin                   // the destructor sets shutting_down
    | Evaluate                // it evaluates the wait condition, and sleeps or withdraws the owner
    | Spurious                // it wakes without a notification

  function Start(): Run {
    Run(Access(true, false, 0), map[], map[], NotBegun, [])
  }

  predicate AtPc(r: Run, c: nat, pc: CallPc) {
    c in r.calls && r.calls[c].pc == pc
  }

  function Move(r: Run, c: nat, pc: CallPc): Run
    requires c in r.calls
  {
    r.(calls := r.calls[c := r.calls[c].(pc := pc)])
  }

  // A caller keeps its handle for the time of a call, and forms no group on a server being destroyed.
  predicate CanStep(r: Run, e: Event) {
    match e
    case Create(h) => h !in r.stepping && r.destructor.NotBegun?
    case Destroy(h) => h in r.stepping && !r.stepping[h]
    case Claim(c, h) => h in r.stepping && c !in r.calls
    case Enter(c) => AtPc(r, c, Claimed)
    case Leave(c) => AtPc(r, c, Entered)
    case Unclaim(c) => AtPc(r, c, Leaving)
    case Begin => r.destructor.NotBegun?
    case Evaluate => r.destructor.Evaluating?
    case Spurious => r.destructor.Asleep?
  }

  function Step(r: Run, e: Event): Run {
    if !CanStep(r, e) then r
    else
      match e
      case Create(h) => r.(stepping := r.stepping[h := false])
      case Destroy(h) =>
        r.(stepping := r.stepping - {h}, released := if Open(r.access) then r.released + [h] else r.released)
      case Claim(c, h) =>
        if r.stepping[h] then r else r.(stepping := r.stepping[h := true], calls := r.calls[c := Call(h, Claimed)])
      case Enter(c) => Move(r, c, if Open(r.access) then Entered else Leaving).(access := AfterEntry(r.access))
      case Leave(c) =>
        Move(r, c, Leaving).(access := AfterExit(r.access),
                             destructor := if r.destructor.Asleep? then Evaluating else r.destructor)
      case Unclaim(c) => r.(stepping := r.stepping[r.calls[c].handle := false], calls := r.calls - {c})
      case Begin => r.(access := AfterBegin(r.access), destructor := Evaluating)
      case Evaluate =>
        r.(access := AfterEvaluation(r.access), destructor := if r.access.activeCalls == 0 then Finished else Asleep)
      case Spurious => r.(destructor := Evaluating)
  }

  function Exec(r: Run, events: seq<Event>): Run
    decreases |events|
  {
    if events == [] then r else Exec(Step(r, events[0]), events[1..])
  }

  // The calls between their entry and their exit.
  function ActiveCalls(r: Run): set<nat> {
    set c | c in r.calls && r.calls[c].pc.Entered?
  }

  // A handle's flag is set exactly while one call is in flight on it.
  ghost predicate OneCallEach(r: Run) {
    && (forall c :: c in r.calls ==> r.calls[c].handle in r.stepping && r.stepping[r.calls[c].handle])
    && (forall c, d :: c in r.calls && d in r.calls && r.calls[c].handle == r.calls[d].handle ==> c == d)
    && FlagsHaveCalls(r)
  }

  ghost predicate FlagsHaveCalls(r: Run) {
    forall h :: h in r.stepping && r.stepping[h] ==> exists c :: c in r.calls && r.calls[c].handle == h
  }

  predicate AccessInv(r: Run) {
    && r.access.activeCalls == |ActiveCalls(r)|
    && (r.access.shuttingDown <==> !r.destructor.NotBegun?)
    && (r.access.hasOwner <==> !r.destructor.Finished?)
    && (r.destructor.Finished? ==> ActiveCalls(r) == {})
    && (r.destructor.Asleep? ==> ActiveCalls(r) != {})
  }

  ghost predicate Inv(r: Run) {
    AccessInv(r) && OneCallEach(r)
  }

  // Only entries and exits change which calls are active.
  lemma ActiveAfter(r: Run, e: Event)
    requires CanStep(r, e)
    ensures var active := ActiveCalls(Step(r, e));
            match e
            case Enter(c) => c !in ActiveCalls(r) && active == if Open(r.access) then ActiveCalls(r) + {c} else ActiveCalls(r)
            case Leave(c) => c in ActiveCalls(r) && active == ActiveCalls(r) - {c}
            case _ => active == ActiveCalls(r)
  {
    var r' := Step(r, e);
    if e.Enter? || e.Leave? {
      assert forall g :: g in r'.calls <==> g in r.calls;
      assert forall g :: g in r.calls && g != e.c ==> r'.calls[g] == r.calls[g];
    } else {
      assert ActiveCalls(r') == ActiveCalls(r);
    }
  }

  lemma FlagsKeepCalls(r: Run, e: Event)
    requires FlagsHaveCalls(r)
    ensures FlagsHaveCalls(Step(r, e))
  {
    hide AfterEntry, AfterExit, AfterEvaluation, Open;
    var r' := Step(r, e);
    forall h | h in r'.stepping && r'.stepping[h]
      ensures exists c :: c in r'.calls && r'.calls[c].handle == h
    {
      if CanStep(r, e) && e.Claim? && e.h == h && !r.stepping[h] {
        assert e.c in r'.calls;
      } else {
        var c :| c in r.calls && r.calls[c].handle == h;
        assert c in r'.calls;
      }
    }
  }

  lemma FlagsFollowCalls(r: Run, e: Event)
    requires OneCallEach(r)
    ensures OneCallEach(Step(r, e))
  {
    hide FlagsHaveCalls, AfterEntry, AfterExit, AfterEvaluation, Open;
    FlagsKeepCalls(r, e);
  }

  lemma AccessFollows(r: Run, e: Event)
    requires AccessInv(r)
    ensures AccessInv(Step(r, e))
  {
    hide ActiveCalls;
    if CanStep(r, e) {
      ActiveAfter(r, e);
    }
  }

  lemma StepKeepsInv(r: Run, e: Event)
    requires Inv(r)
    ensures Inv(Step(r, e))
  {
    hide AccessInv, OneCallEach, Step;
    AccessFollows(r, e);
    FlagsFollowCalls(r, e);
  }

  lemma {:induction false} ExecKeepsInv(r: Run, events: seq<Event>)
    requires Inv(r)
    ensures Inv(Exec(r, events))
    decreases |events|
  {
    hide Inv, Step;
    if events == [] {
    } else {
      StepKeepsInv(r, events[0]);
      ExecKeepsInv(Step(r, events[0]), events[1..]);
    }
  }

  lemma StartsWithInv()
    ensures Inv(Start())
  {
    assert ActiveCalls(Start()) == {};
  }

  // In every reachable state the counter is the number of calls between entry and exit, the owner
  // is present while any is, no handle has two calls in flight, and a call is turned away exactly
  // when another is in flight on its handle.
  lemma ShutdownIsSafe(events: seq<Event>, e: Event)
    ensures var r := Exec(Start(), events);
            && r.access.activeCalls == |ActiveCalls(r)|
            && (ActiveCalls(r) != {} ==> r.access.hasOwner)
            && (r.destructor.Finished? ==> !r.access.hasOwner && r.access.activeCalls == 0)
            && (forall c, d :: c in r.calls && d in r.calls && r.calls[c].handle == r.calls[d].handle ==> c == d)
            && (e.Claim? && CanStep(r, e) ==>
                  (e.c !in Step(r, e).calls <==> exists d :: d in r.calls && r.calls[d].handle == e.h))
  {
    hide Exec, ActiveCalls;
    StartsWithInv();
    ExecKeepsInv(Start(), events);
  }

  // Until shutdown begins nobody is turned away: in every run a call that holds its handle's flag becomes
  // active when it enters, a free handle is claimed, and the group of a handle that goes away is released.
  lemma EverythingWorksBeforeBegin(events: seq<Event>, c: nat, h: nat)
    requires Exec(Start(), events).destructor.NotBegun?
    ensures var r := Exec(Start(), events);
            && (AtPc(r, c, Claimed) ==>
                  Step(r, Enter(c)).access.activeCalls == r.access.activeCalls + 1 && c in ActiveCalls(Step(r, Enter(c))))
            && (h in r.stepping && !r.stepping[h] ==> Step(r, Destroy(h)).released == r.released + [h])
            && (h in r.stepping && !r.stepping[h] && c !in r.calls ==> AtPc(Step(r, Claim(c, h)), c, Claimed))
  {
    hide Exec, OneCallEach;
    StartsWithInv();
    ExecKeepsInv(Start(), events);
  }

  // Once shutdown has begun no call becomes active and no group is released any more, in any continuation.
  lemma NothingStartsAfterBegin(events: seq<Event>, more: seq<Event>)
    requires !Exec(Start(), events).destructor.NotBegun?
    ensures var r, r' := Exec(Start(), events), Exec(Start(), events + more);
            ActiveCalls(r') <= ActiveCalls(r) && r'.released == r.released && !Open(r'.access)
  {
    hide Exec, ActiveCalls, OneCallEach;
    StartsWithInv();
    ExecKeepsInv(Start(), events);
    ExecConcat(Start(), events, more);
    OnlyLeaves(Exec(Start(), events), more);
  }

  lemma {:induction false} OnlyLeaves(r: Run, events: seq<Event>)
    requires Inv(r) && !r.destructor.NotBegun?
    ensures var r' := Exec(r, events);
            ActiveCalls(r') <= ActiveCalls(r) && r'.released == r.released && !Open(r'.access)
    decreases |events|
  {
    hide ActiveCalls, OneCallEach, Step, CanStep;
    if events == [] {
    } else {
      var e := events[0];
      StepKeepsInv(r, e);
      BegunStays(r, e);
      OnlyLeavesStep(r, e);
      OnlyLeaves(Step(r, e), events[1..]);
    }
  }

  lemma OnlyLeavesStep(r: Run, e: Event)
    requires !Open(r.access)
    ensures ActiveCalls(Step(r, e)) <= ActiveCalls(r) && Step(r, e).released == r.released
  {
    hide ActiveCalls;
    if CanStep(r, e) {
      ActiveAfter(r, e);
    }
  }

  // ---------------------------------------------------------------------------
  // The destructor's wait ends
  // ---------------------------------------------------------------------------

  // How much is left before the wait can end: two for each active call, one for an unevaluated condition.
  function Remaining(r: Run): nat
    requires Inv(r)
  {
    2 * |ActiveCalls(r)| + (if r.destructor.Evaluating? then 1 else 0)
  }

  // Once shutdown has begun no event makes the remainder grow, except that a spurious wakeup
  // re-evaluates the condition; every exit of a call and every evaluation makes it shrink.
  lemma WaitShrinks(r: Run, e: Event)
    requires Inv(r) && !r.destructor.NotBegun? && CanStep(r, e)
    ensures Inv(Step(r, e))
    ensures e != Spurious ==> Remaining(Step(r, e)) <= Remaining(r)
    ensures e == Spurious ==> Remaining(Step(r, e)) == Remaining(r) + 1
    ensures e.Leave? || e.Evaluate? ==> Remaining(Step(r, e)) < Remaining(r)
  {
    hide Inv;
    StepKeepsInv(r, e);
    InvMeans(r);
    InvMeans(Step(r, e));
  }

  lemma InvMeans(r: Run)
    requires Inv(r)
    ensures r.access.activeCalls == |ActiveCalls(r)|
    ensures !r.destructor.NotBegun? ==> r.access.shuttingDown
    ensures r.destructor.Finished? ==> r.access.activeCalls == 0
  {
  }

  // The exits and evaluations that take place in a run.
  function Work(r: Run, events: seq<Event>): nat
    decreases |events|
  {
    if events == [] then 0
    else (if CanStep(r, events[0]) && (events[0].Leave? || events[0].Evaluate?) then 1 else 0) + Work(Step(r, events[0]), events[1..])
  }

  // The wakeups without a notification in a run.
  function Wakeups(r: Run, events: seq<Event>): nat
    decreases |events|
  {
    if events == [] then 0
    else (if CanStep(r, events[0]) && events[0].Spurious? then 1 else 0) + Wakeups(Step(r, events[0]), events[1..])
  }

  lemma BegunStays(r: Run, e: Event)
    requires !r.destructor.NotBegun?
    ensures !Step(r, e).destructor.NotBegun?
  {
  }

  // Once shutdown has begun only so much is left to do, whatever the schedule.
  lemma {:induction false} WaitIsBounded(r: Run, events: seq<Event>)
    requires Inv(r) && !r.destructor.NotBegun?
    ensures Inv(Exec(r, events))
    ensures Work(r, events) + Remaining(Exec(r, events)) <= Remaining(r) + Wakeups(r, events)
    decreases |events|
  {
    hide Inv, Step, Remaining, CanStep;
    if events == [] {
    } else {
      StepKeepsInv(r, events[0]);
      BegunStays(r, events[0]);
      if CanStep(r, events[0]) {
        WaitShrinks(r, events[0]);
      } else {
        StuckStep(r, events[0]);
      }
      WaitIsBounded(Step(r, events[0]), events[1..]);
    }
  }

  lemma StuckStep(r: Run, e: Event)
    requires !CanStep(r, e)
    ensures Step(r, e) == r
  {
  }

  // Until the destructor is past its wait there is always something left that can take place: the
  // evaluation of its condition, or the exit of an active call.
  lemma WaitIsNeverStuck(events: seq<Event>)
    ensures var r := Exec(Start(), events);
            r.destructor.Evaluating? || r.destructor.Asleep? ==>
              CanStep(r, Evaluate) || exists c :: c in r.calls && CanStep(r, Leave(c))
  {
    hide Exec;
    if Exec(Start(), events).destructor.Asleep? {
      var c := NoLostWakeup(events);
      assert CanStep(Exec(Start(), events), Leave(c));
    }
  }

  // The destructor never sleeps without someone to wake it: while it is asleep some call
  // is active, and that call's exit puts the destructor back to evaluating its condition.
  lemma NoLostWakeup(events: seq<Event>) returns (c: nat)
    requires Exec(Start(), events).destructor.Asleep?
    ensures var r := Exec(Start(), events);
            AtPc(r, c, Entered) && Step(r, Leave(c)).destructor.Evaluating?
  {
    hide Exec, OneCallEach;
    StartsWithInv();
    ExecKeepsInv(Start(), events);
    var r := Exec(Start(), events);
    c :| c in ActiveCalls(r);
  }

  // When the last call leaves, the next evaluation withdraws the owner.
  lemma LastExitLetsTheDestructorFinish(events: seq<Event>, c: nat)
    requires var r := Exec(Start(), events); r.destructor.Asleep? && ActiveCalls(r) == {c}
    ensures var r := Exec(Start(), events + [Leave(c), Evaluate]); r.destructor.Finished? && !r.access.hasOwner
  {
    hide Inv, Step;
    StartsWithInv();
    ExecKeepsInv(Start(), events);
    var r := Exec(Start(), events);
    ExecConcat(Start(), events, [Leave(c), Evaluate]);
    LastExit(r, c);
    assert [Leave(c), Evaluate][1..] == [Evaluate];
    assert [Evaluate][1..] == [];
  }

  lemma LastExit(r: Run, c: nat)
    requires Inv(r) && r.destructor.Asleep? && ActiveCalls(r) == {c}
    ensures var r2 := Step(Step(r, Leave(c)), Evaluate); r2.destructor.Finished? && !r2.access.hasOwner
  {
    hide OneCallEach;
    assert c in ActiveCalls(r);
  }

  lemma {:induction false} ExecConcat(r: Run, xs: seq<Event>, ys: seq<Event>)
    ensures Exec(r, xs + ys) == Exec(Exec(r, xs), ys)
    decreases |xs|
  {
    if xs == [] {
      assert xs + ys == ys;
    } else {
      assert (xs + ys)[1..] == xs[1..] + ys;
      ExecConcat(Step(r, xs[0]), xs[1..], ys);
    }
  }
}
