// Starvation freedom of the managed server itself: positions become streams, and a visited
// stream whose frame is due gives its frame up.
module Fairness {
  import opened Bytes
  import opened PixelFormats
  import Core = CoreServer
  import opened FrameSlots
  import opened Scheduler
  import opened ManagedServer
  import Groups = StreamGroups

  // The server when a step begins. Between steps frames may arrive, configurations and
  // other streams may change.
  datatype Snapshot = Snapshot(slots: Slots, core: Streams, order: seq<string>, encodes: string -> bool)

  // The swept streams are `ids`, and the stream at position `i` is due and accepted by its encoder.
  ghost predicate Steady(snap: Snapshot, ids: seq<string>, i: nat) {
    && Swept(snap, ids) && i < |ids|
    && ids[i] in snap.core && Due(snap.slots[ids[i]], snap.core[ids[i]]) && snap.encodes(ids[i])
  }

  predicate Swept(snap: Snapshot, ids: seq<string>) {
    Groups.Distinct(ids) && Unowned(snap.slots, snap.order) == ids && snap.order != []
  }

  // The stream at position `j` fails if the step gets to it.
  predicate Fails(snap: Snapshot, ids: seq<string>, j: nat) {
    StepOutcome(snap.slots, snap.core, ids, snap.encodes, j) == Failed
  }

  function CallOf(snap: Snapshot, ids: seq<string>): StepCall {
    StepCall(Outcomes(snap.slots, snap.core, ids, snap.encodes), |snap.order|)
  }

  // The step leaves the slot of the stream at position `i` empty.
  predicate TakesFrame(snap: Snapshot, ids: seq<string>, cap: nat, index: nat, i: nat)
    requires i < |ids|
  {
    var slots' := SweepStreams(snap.slots, snap.core, ids, index % |ids|, cap, snap.encodes, 0, 0, index % |ids|).0;
    ids[i] in slots' && slots'[ids[i]].pending.None?
  }

  // One of the steps, each starting from the index that the one before it left, takes the frame.
  predicate EventuallyTaken(snaps: seq<Snapshot>, ids: seq<string>, cap: nat, index: nat, i: nat)
    requires i < |ids|
    decreases |snaps|
  {
    snaps != [] && snaps[0].order != [] &&
    (TakesFrame(snaps[0], ids, cap, index, i)
     || EventuallyTaken(snaps[1..], ids, cap, IndexAfter(|ids|, cap, CallOf(snaps[0], ids), index), i))
  }

  // No stream between the start and position `i` fails.
  ghost predicate NoneFailsBeforeStream(snap: Snapshot, ids: seq<string>, start: nat, i: nat)
    requires i < |ids| && start < |ids|
  {
    NoneFailsBefore(|ids|, Outcomes(snap.slots, snap.core, ids, snap.encodes), start, i)
  }

  lemma StepTouchesOne(slots: Slots, core: Streams, id: string, encodes: bool, other: string)
    requires id != other
    ensures var (slots1, core1, _) := StreamStep(slots, core, id, encodes);
            && (other in slots1 <==> other in slots) && (other in slots ==> slots1[other] == slots[other])
            && (other in core1 <==> other in core) && (other in core ==> core1[other] == core[other])
  {
    hide Processed;
  }

  // What a sweep has already passed it leaves alone.
  lemma {:induction false} SweepLeavesPassed(slots: Slots, core: Streams, ids: seq<string>, start: nat, cap: nat, encodes: string -> bool,
                                             offset: nat, progressed: nat, cursor: nat, i: nat)
    requires start < |ids| && i < |ids| && offset <= |ids| && Groups.Distinct(ids) && Distance(i, start, |ids|) < offset
    requires ids[i] in slots && slots[ids[i]].pending.None?
    ensures var slots' := SweepStreams(slots, core, ids, start, cap, encodes, offset, progressed, cursor).0;
            ids[i] in slots' && slots'[ids[i]].pending.None?
    decreases |ids| - offset
  {
    hide StreamStep, SweepStreams;
    SweepTurn(slots, core, ids, start, cap, encodes, offset, progressed, cursor);
    if offset == |ids| || (cap > 0 && progressed >= cap) {
    } else {
      WrapIsModulo(start + offset, |ids|);
      var index := (start + offset) % |ids|;
      assert index != i;
      StepTouchesOne(slots, core, ids[index], encodes(ids[index]), ids[i]);
      var (slots1, core1, result) := StreamStep(slots, core, ids[index], encodes(ids[index]));
      match result
      case Failed =>
      case Progressed =>
        SweepLeavesPassed(slots1, core1, ids, start, cap, encodes, offset + 1, progressed + 1, (index + 1) % |ids|, i);
      case Idle => SweepLeavesPassed(slots1, core1, ids, start, cap, encodes, offset + 1, progressed, cursor, i);
    }
  }

  // A due stream that a sweep visits ends with an empty slot.
  lemma {:induction false} SweepTakesVisited(slots: Slots, core: Streams, ids: seq<string>, start: nat, cap: nat, encodes: string -> bool,
                                             offset: nat, progressed: nat, cursor: nat, i: nat)
    requires start < |ids| && i < |ids| && offset <= |ids| && Groups.Distinct(ids) && Distance(i, start, |ids|) >= offset
    requires ids[i] in slots && ids[i] in core && Due(slots[ids[i]], core[ids[i]]) && encodes(ids[i])
    requires Distance(i, start, |ids|) < SweepStreams(slots, core, ids, start, cap, encodes, offset, progressed, cursor).2.visited
    ensures var slots' := SweepStreams(slots, core, ids, start, cap, encodes, offset, progressed, cursor).0;
            ids[i] in slots' && slots'[ids[i]].pending.None?
    decreases |ids| - offset
  {
    hide StreamStep, SweepStreams, Due;
    SweepTurn(slots, core, ids, start, cap, encodes, offset, progressed, cursor);
    if offset == |ids| || (cap > 0 && progressed >= cap) {
    } else {
      WrapIsModulo(start + offset, |ids|);
      var index := (start + offset) % |ids|;
      assert Distance(index, start, |ids|) == offset;
      var (slots1, core1, result) := StreamStep(slots, core, ids[index], encodes(ids[index]));
      if index == i {
        DueStreamProgresses(slots, core, ids[i], true);
        SweepLeavesPassed(slots1, core1, ids, start, cap, encodes, offset + 1, progressed + 1, (index + 1) % |ids|, i);
      } else {
        assert Distance(i, start, |ids|) != offset;
        StepTouchesOne(slots, core, ids[index], encodes(ids[index]), ids[i]);
        match result
        case Failed =>
        case Progressed =>
          SweepTakesVisited(slots1, core1, ids, start, cap, encodes, offset + 1, progressed + 1, (index + 1) % |ids|, i);
        case Idle => SweepTakesVisited(slots1, core1, ids, start, cap, encodes, offset + 1, progressed, cursor, i);
      }
    }
  }

  lemma VisitTakesFrame(snap: Snapshot, ids: seq<string>, cap: nat, index: nat, i: nat)
    requires Steady(snap, ids, i)
    requires Distance(i, index % |ids|, |ids|) < SweepOf(|ids|, cap, CallOf(snap, ids), index).visited
    ensures TakesFrame(snap, ids, cap, index, i)
  {
    hide StreamStep, Due, Distance;
    StepIsSweep(snap.slots, snap.core, ids, cap, snap.encodes, index, |snap.order|);
    assert ids[i] in Unowned(snap.slots, snap.order);
    SweepTakesVisited(snap.slots, snap.core, ids, index % |ids|, cap, snap.encodes, 0, 0, index % |ids|, i);
  }

  // While the swept streams stay the same and none before it fails, a stream whose frame stays due
  // has it taken within ceil(n / cap) steps, or in the next step when there is no cap.
  lemma NoStreamStarves(snaps: seq<Snapshot>, ids: seq<string>, cap: nat, index: nat, i: nat)
    requires i < |ids| && EnoughCalls(|ids|, cap, |snaps|)
    requires forall s :: s in snaps ==> Steady(s, ids, i) && NoneFailsBeforeStream(s, ids, index % |ids|, i)
    ensures EventuallyTaken(snaps, ids, cap, index, i)
  {
    hide Distance;
    if cap > 0 {
      CeilingCovers(|ids|, cap, |snaps|);
    }
    TakenWhenClose(snaps, ids, cap, index, i);
  }

  lemma {:induction false} TakenWhenClose(snaps: seq<Snapshot>, ids: seq<string>, cap: nat, index: nat, i: nat)
    requires i < |ids|
    requires forall s :: s in snaps ==> Steady(s, ids, i) && NoneFailsBeforeStream(s, ids, index % |ids|, i)
    requires if cap == 0 then |snaps| >= 1 else Distance(i, index % |ids|, |ids|) < |snaps| * cap
    ensures EventuallyTaken(snaps, ids, cap, index, i)
    decreases |snaps|
  {
    hide SweepOf, IndexAfter, Distance, TakesFrame, Outcomes, Due, Groups.Distinct;
    assert snaps != [];
    var snap := snaps[0];
    var call := CallOf(snap, ids);
    if Distance(i, index % |ids|, |ids|) < SweepOf(|ids|, cap, call, index).visited {
      VisitTakesFrame(snap, ids, cap, index, i);
    } else {
      SkippingBringsCloser(|ids|, cap, call, index, i);
      assert (|snaps| - 1) * cap == |snaps| * cap - cap;
      TakenWhenClose(snaps[1..], ids, cap, IndexAfter(|ids|, cap, call, index), i);
    }
  }

  // What a sweep does not get to it leaves alone.
  lemma {:induction false} SweepLeavesUnvisited(slots: Slots, core: Streams, ids: seq<string>, start: nat, cap: nat, encodes: string -> bool,
                                                offset: nat, progressed: nat, cursor: nat, i: nat)
    requires start < |ids| && i < |ids| && offset <= |ids| && Groups.Distinct(ids) && ids[i] in slots
    requires offset <= Distance(i, start, |ids|)
    requires SweepStreams(slots, core, ids, start, cap, encodes, offset, progressed, cursor).2.visited <= Distance(i, start, |ids|)
    ensures var slots' := SweepStreams(slots, core, ids, start, cap, encodes, offset, progressed, cursor).0;
            ids[i] in slots' && slots'[ids[i]] == slots[ids[i]]
    decreases |ids| - offset
  {
    hide StreamStep, SweepStreams;
    SweepTurn(slots, core, ids, start, cap, encodes, offset, progressed, cursor);
    if offset == |ids| || (cap > 0 && progressed >= cap) {
    } else {
      WrapIsModulo(start + offset, |ids|);
      var index := (start + offset) % |ids|;
      assert Distance(index, start, |ids|) == offset;
      var (slots1, core1, result) := StreamStep(slots, core, ids[index], encodes(ids[index]));
      VisitedAdvances(slots, core, ids, start, cap, encodes, offset, progressed, cursor);
      assert index != i;
      StepTouchesOne(slots, core, ids[index], encodes(ids[index]), ids[i]);
      match result
      case Failed =>
      case Progressed =>
        SweepLeavesUnvisited(slots1, core1, ids, start, cap, encodes, offset + 1, progressed + 1, (index + 1) % |ids|, i);
      case Idle => SweepLeavesUnvisited(slots1, core1, ids, start, cap, encodes, offset + 1, progressed, cursor, i);
    }
  }

  // A sweep that goes on visits at least the next stream.
  lemma {:induction false} VisitedAdvances(slots: Slots, core: Streams, ids: seq<string>, start: nat, cap: nat, encodes: string -> bool,
                                           offset: nat, progressed: nat, cursor: nat)
    requires start < |ids| && offset <= |ids|
    ensures var visited := SweepStreams(slots, core, ids, start, cap, encodes, offset, progressed, cursor).2.visited;
            visited >= offset && (offset < |ids| && !(cap > 0 && progressed >= cap) ==> visited >= offset + 1)
    decreases |ids| - offset
  {
    hide StreamStep, SweepStreams;
    SweepTurn(slots, core, ids, start, cap, encodes, offset, progressed, cursor);
    if offset == |ids| || (cap > 0 && progressed >= cap) {
    } else {
      var index := (start + offset) % |ids|;
      var (slots1, core1, result) := StreamStep(slots, core, ids[index], encodes(ids[index]));
      match result
      case Failed =>
      case Progressed =>
        VisitedAdvances(slots1, core1, ids, start, cap, encodes, offset + 1, progressed + 1, (index + 1) % |ids|);
      case Idle => VisitedAdvances(slots1, core1, ids, start, cap, encodes, offset + 1, progressed, cursor);
    }
  }

  // A stream that fails on every step keeps the frame of every stream behind it waiting, for any
  // number of steps.
  lemma {:induction false} FailingStreamStarves(snaps: seq<Snapshot>, ids: seq<string>, cap: nat, index: nat, f: nat, i: nat)
    requires f < |ids| && i < |ids| && Distance(f, index % |ids|, |ids|) < Distance(i, index % |ids|, |ids|)
    requires forall s :: s in snaps ==> Steady(s, ids, i) && Fails(s, ids, f)
    ensures !EventuallyTaken(snaps, ids, cap, index, i)
    decreases |snaps|
  {
    hide SweepOf, IndexAfter, Distance, StepOutcome, Groups.Distinct;
    if snaps == [] {
    } else {
      var snap := snaps[0];
      var call := CallOf(snap, ids);
      assert Fails(snap, ids, f);
      FailureBlocks(|ids|, cap, call, index, f, i);
      SkipLeavesFrame(snap, ids, cap, index, i);
      FailingStreamStarves(snaps[1..], ids, cap, IndexAfter(|ids|, cap, call, index), f, i);
    }
  }

  lemma SkipLeavesFrame(snap: Snapshot, ids: seq<string>, cap: nat, index: nat, i: nat)
    requires Steady(snap, ids, i)
    requires SweepOf(|ids|, cap, CallOf(snap, ids), index).visited <= Distance(i, index % |ids|, |ids|)
    ensures !TakesFrame(snap, ids, cap, index, i)
  {
    hide StreamStep, Distance, Groups.Distinct, SweepOf, SweepStreams;
    StepIsSweep(snap.slots, snap.core, ids, cap, snap.encodes, index, |snap.order|);
    assert ids[i] in Unowned(snap.slots, snap.order);
    SweepLeavesUnvisited(snap.slots, snap.core, ids, index % |ids|, cap, snap.encodes, 0, 0, index % |ids|, i);
  }

  // When the same streams fail on every step, enough steps take the frame of a due stream exactly
  // when no failing stream comes before it.
  lemma TakenExactly(snaps: seq<Snapshot>, ids: seq<string>, cap: nat, index: nat, i: nat)
    requires i < |ids| && EnoughCalls(|ids|, cap, |snaps|) && snaps != []
    requires forall s :: s in snaps ==>
               Steady(s, ids, i) && forall j: nat :: j < |ids| ==> (Fails(s, ids, j) <==> Fails(snaps[0], ids, j))
    ensures EventuallyTaken(snaps, ids, cap, index, i) <==> NoneFailsBeforeStream(snaps[0], ids, index % |ids|, i)
  {
    hide Distance, Steady, EventuallyTaken, StepOutcome;
    var start := index % |ids|;
    if NoneFailsBeforeStream(snaps[0], ids, start, i) {
      forall s | s in snaps
        ensures NoneFailsBeforeStream(s, ids, start, i)
      {
        forall j: nat | j < |ids| && Distance(j, start, |ids|) < Distance(i, start, |ids|)
          ensures Outcomes(s.slots, s.core, ids, s.encodes)(j) != Failed
        {
          assert Outcomes(snaps[0].slots, snaps[0].core, ids, snaps[0].encodes)(j) != Failed;
          assert Fails(s, ids, j) <==> Fails(snaps[0], ids, j);
        }
      }
      NoStreamStarves(snaps, ids, cap, index, i);
    } else {
      var f: nat :| f < |ids| && Distance(f, start, |ids|) < Distance(i, start, |ids|)
                    && Outcomes(snaps[0].slots, snaps[0].core, ids, snaps[0].encodes)(f) == Failed;
      assert Fails(snaps[0], ids, f);
      FailingStreamStarves(snaps, ids, cap, index, f, i);
    }
  }

  // ---------------------------------------------------------------------------
  // A run of the server in which this happens
  // ---------------------------------------------------------------------------

  // Streams `a` and `b` in this order each hold a frame, and the encoder of `a` refuses frames.
  predicate Refusing(snap: Snapshot, a: string, b: string, f: Frame) {
    && a != b && snap.order == [a, b] && a in snap.slots && b in snap.slots && a in snap.core && b in snap.core
    && snap.slots[a].owner == 0 && snap.slots[b].owner == 0
    && snap.slots[a].pending == Some(f) && ValidInput(f, snap.core[a].format) && Fits(f)
    && snap.core[a].output.fps <= 0.0 && ValidRotation(snap.core[a].output.rotation) && !snap.encodes(a)
    && Due(snap.slots[b], snap.core[b]) && snap.encodes(b)
  }

  // Two newly registered streams after one push each; the encoder of the first refuses frames.
  function PushedOnce(a: string, b: string, f: Frame, format: StreamFormat): Snapshot {
    var (m, s, _) := PushedToSlot(Slot(None, 0, true, 0), Core.NewStream(format), f);
    Snapshot(map[a := m, b := m], map[a := s, b := s], [a, b], id => id != a)
  }

  lemma PushedOnceRefuses(a: string, b: string, f: Frame, format: StreamFormat)
    requires a != b && ValidInput(f, format) && Fits(f)
    ensures Refusing(PushedOnce(a, b, f, format), a, b, f)
  {
    hide MinRowBytes, Measurable, StorageSize;
    ValidInputSuffices(f, format, 0);
  }

  // The server after one step and one more push of the frame to `a`.
  function NextRound(snap: Snapshot, a: string, b: string, f: Frame, cap: nat): Snapshot
    requires Refusing(snap, a, b, f)
  {
    var (slots, core, _) := SweepStreams(snap.slots, snap.core, [a, b], 0, cap, snap.encodes, 0, 0, 0);
    if a in slots && a in core then
      var (m, s, _) := PushedToSlot(slots[a], core[a], f);
      snap.(slots := slots[a := m], core := core[a := s])
    else snap
  }

  lemma RefusingRound(snap: Snapshot, a: string, b: string, f: Frame, cap: nat)
    requires Refusing(snap, a, b, f)
    ensures Refusing(NextRound(snap, a, b, f, cap), a, b, f)
    ensures Steady(snap, [a, b], 1) && Fails(snap, [a, b], 0)
    ensures IndexAfter(2, cap, CallOf(snap, [a, b]), 0) == 0
  {
    hide MinRowBytes, Measurable, StorageSize, Transformable;
    ValidInputSuffices(f, snap.core[a].format, snap.core[a].output.rotation);
    UnownedPair(snap, a, b);
  }

  lemma UnownedPair(snap: Snapshot, a: string, b: string)
    requires a in snap.slots && b in snap.slots && snap.order == [a, b] && snap.slots[a].owner == 0 && snap.slots[b].owner == 0
    ensures Unowned(snap.slots, snap.order) == [a, b]
  {
    assert [a, b][..1] == [a] && [a][..0] == [];
    assert Unowned(snap.slots, [a]) == [a];
  }

  // The snapshots at the beginning of `k` rounds.
  function Rounds(snap: Snapshot, a: string, b: string, f: Frame, cap: nat, k: nat): seq<Snapshot>
    requires Refusing(snap, a, b, f)
    decreases k
  {
    if k == 0 then []
    else
      RefusingRound(snap, a, b, f, cap);
      [snap] + Rounds(NextRound(snap, a, b, f, cap), a, b, f, cap, k - 1)
  }

  lemma {:induction false} RoundsAreSteady(snap: Snapshot, a: string, b: string, f: Frame, cap: nat, k: nat)
    requires Refusing(snap, a, b, f)
    ensures |Rounds(snap, a, b, f, cap, k)| == k
    ensures forall s :: s in Rounds(snap, a, b, f, cap, k) ==> Steady(s, [a, b], 1) && Fails(s, [a, b], 0)
    decreases k
  {
    hide Refusing, Steady, Fails, NextRound;
    if k == 0 {
    } else {
      RefusingRound(snap, a, b, f, cap);
      RoundsAreSteady(NextRound(snap, a, b, f, cap), a, b, f, cap, k - 1);
    }
  }

  // Starting there, however often the producer of `a` pushes again, the frame of `b` is never taken.
  lemma RefusedEncoderStarvesOthers(a: string, b: string, f: Frame, format: StreamFormat, cap: nat, k: nat)
    requires a != b && ValidInput(f, format) && Fits(f)
    ensures var snap := PushedOnce(a, b, f, format);
            && Refusing(snap, a, b, f) && |Rounds(snap, a, b, f, cap, k)| == k
            && !EventuallyTaken(Rounds(snap, a, b, f, cap, k), [a, b], cap, 0, 1)
  {
    hide Refusing, EventuallyTaken, Rounds, PushedOnce, ValidInput, Steady, Fails;
    PushedOnceRefuses(a, b, f, format);
    var snap := PushedOnce(a, b, f, format);
    RoundsAreSteady(snap, a, b, f, cap, k);
    FailingStreamStarves(Rounds(snap, a, b, f, cap, k), [a, b], cap, 0, 0, 1);
  }
}
