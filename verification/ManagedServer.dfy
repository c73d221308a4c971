// The managed server object: stream slots over a core server, the stream order that a step
// sweeps, and the groups that take streams out of that sweep.
module ManagedServer {
  import opened Bytes
  import opened PixelFormats
  import Core = CoreServer
  import opened Throttle
  import opened FrameSlots
  import opened Scheduler
  import Groups = StreamGroups

  type Slots = map<string, Slot>
  type Streams = map<string, Core.Stream>

  function Owners(slots: Slots): map<string, nat> {
    map id | id in slots :: slots[id].owner
  }

  // A registration on the server's maps. The id enters the order before the core server is asked, and
  // stays there when that refuses.
  function Registered(slots: Slots, order: seq<string>, core: Streams, started: bool, id: string, config: Core.StreamConfig)
    : (Slots, seq<string>, Streams, Core.Outcome)
  {
    if id in slots then (slots, order, core, Core.AlreadyExists)
    else
      var o := if started then Core.RegistrationOutcome(core, id, config) else Core.Success;
      (if o == Core.Success then slots[id := Slot(None, 0, started, 0)] else slots,
       order + [id],
       if o == Core.Success && started then core[id := Core.NewStream(config.format)] else core,
       o)
  }

  function FreshSlots(configured: seq<string>): Slots {
    map id | id in configured :: Slot(None, 0, false, 0)
  }

  // The streams a step sweeps: those in the order that exist and belong to no group.
  function Unowned(slots: Slots, order: seq<string>): (ids: seq<string>)
    ensures |ids| <= |order|
    ensures forall id :: id in ids <==> id in order && id in slots && slots[id].owner == 0
  {
    if order == [] then []
    else
      var last := order[|order| - 1];
      var before := Unowned(slots, order[..|order| - 1]);
      assert order == order[..|order| - 1] + [last];
      if last in slots && slots[last].owner == 0 then before + [last] else before
  }

  // One frame step of one stream, on the server's maps.
  function StreamStep(slots: Slots, core: Streams, id: string, encodes: bool): (Slots, Streams, StepResult) {
    if id !in slots || slots[id].pending.None? then (slots, core, Idle)
    else if id !in core then (slots, core, Failed)
    else
      var (m, s, result) := Processed(slots[id], core[id], encodes);
      (slots[id := m], core[id := s], result)
  }

  // A sweep on the server's maps; `encodes` says for which streams the encoder takes the frame.
  function SweepStreams(slots: Slots, core: Streams, ids: seq<string>, start: nat, cap: nat, encodes: string -> bool,
                        offset: nat, progressed: nat, cursor: nat): (Slots, Streams, Sweep)
    requires start < |ids| && offset <= |ids|
    decreases |ids| - offset
  {
    if offset == |ids| || (cap > 0 && progressed >= cap) then (slots, core, Sweep(offset, progressed, cursor, false))
    else
      var index := (start + offset) % |ids|;
      var (slots1, core1, result) := StreamStep(slots, core, ids[index], encodes(ids[index]));
      match result
      case Failed => (slots1, core1, Sweep(offset + 1, progressed, cursor, true))
      case Progressed =>
        SweepStreams(slots1, core1, ids, start, cap, encodes, offset + 1, progressed + 1, (index + 1) % |ids|)
      case Idle => SweepStreams(slots1, core1, ids, start, cap, encodes, offset + 1, progressed, cursor)
  }

  // The outcome each stream would have if it were stepped first.
  function Outcomes(slots: Slots, core: Streams, ids: seq<string>, encodes: string -> bool): nat -> StepResult {
    (i: nat) => StepOutcome(slots, core, ids, encodes, i)
  }

  function StepOutcome(slots: Slots, core: Streams, ids: seq<string>, encodes: string -> bool, i: nat): StepResult {
    if i < |ids| then StreamStep(slots, core, ids[i], encodes(ids[i])).2 else Idle
  }

  // ---------------------------------------------------------------------------
  // The server object
  // ---------------------------------------------------------------------------

  class ManagedVideoServer {
    const maxStreamsPerStep: nat
    const inlineOnPush: bool
    const server: Core.VideoServerCore
    var slots: Slots
    var order: seq<string>
    var nextStreamIndex: nat
    var nextGroupId: nat
    var started: bool

    // The configured streams get their slots and their places in the order; an id that is repeated keeps
    // its first slot.
    constructor (maxStreamsPerStep: nat, inlineOnPush: bool, server: Core.VideoServerCore, configured: seq<string>)
      ensures slots == FreshSlots(configured) && order == configured
      ensures nextStreamIndex == 0 && nextGroupId == 1 && !started
      ensures this.maxStreamsPerStep == maxStreamsPerStep && this.inlineOnPush == inlineOnPush && this.server == server
    {
      this.maxStreamsPerStep, this.inlineOnPush, this.server, started := maxStreamsPerStep, inlineOnPush, server, false;
      slots, order, nextStreamIndex, nextGroupId := map[], [], 0, 1;
      new;
      var i := 0;
      while i < |configured|
        invariant i <= |configured| && order == configured[..i] && slots == FreshSlots(configured[..i])
        invariant nextStreamIndex == 0 && nextGroupId == 1 && !started
      {
        if configured[i] !in slots {
          slots := slots[configured[i] := Slot(None, 0, false, 0)];
        }
        order := order + [configured[i]];
        assert configured[..i + 1] == configured[..i] + [configured[i]];
        i := i + 1;
      }
      assert configured[..i] == configured;
    }

    method RegisterStream(id: string, config: Core.StreamConfig) returns (o: Core.Outcome)
      modifies this`slots, this`order, server
      ensures (slots, order, server.streams, o) == Registered(old(slots), old(order), old(server.streams), started, id, config)
      ensures o == Core.Success <==>
                id !in old(slots) && (!started || (Core.ValidStream(id, config) && id !in old(server.streams)))
      ensures Owners(slots) == if o == Core.Success then Owners(old(slots))[id := 0] else Owners(old(slots))
    {
      if id in slots {
        return Core.AlreadyExists;
      }
      slots := slots[id := Slot(None, 0, false, 0)];
      order := order + [id];
      if started {
        o := server.RegisterStream(id, config);
        if o != Core.Success {
          slots := slots - {id};
          assert slots == old(slots);
          return;
        }
        slots := slots[id := slots[id].(registered := true)];
        assert slots == old(slots)[id := Slot(None, 0, true, 0)];
      }
      return Core.Success;
    }

    method RemoveStream(id: string) returns (o: Core.Outcome)
      modifies this`slots, this`order, this`nextStreamIndex, server
      ensures o == if id !in old(slots) then Core.NotFound
                   else if old(slots)[id].owner != 0 then Core.ResourceBusy else Core.Success
      ensures o == Core.Success <==> Groups.Removable(Owners(old(slots)), id)
      ensures o != Core.Success ==> slots == old(slots) && order == old(order) && nextStreamIndex == old(nextStreamIndex)
                                    && server.streams == old(server.streams)
      ensures o == Core.Success ==> slots == old(slots) - {id} && order == Without(old(order), id)
                                    && Owners(slots) == Owners(old(slots)) - {id}
                                    && nextStreamIndex == (if order != [] then old(nextStreamIndex) % |order| else 0)
                                    && server.streams == (if old(slots)[id].registered then old(server.streams) - {id}
                                                          else old(server.streams))
    {
      if id !in slots {
        return Core.NotFound;
      }
      if slots[id].owner != 0 {
        return Core.ResourceBusy;
      }
      if slots[id].registered {
        var _ := server.RemoveStream(id);
      }
      order := RemoveFromOrder(order, id);
      nextStreamIndex := if order != [] then nextStreamIndex % |order| else 0;
      slots := slots - {id};
      return Core.Success;
    }

    // Forms a group out of the named streams, or refuses and changes nothing.
    method RegisterStreams(ids: seq<string>) returns (group: Option<nat>)
      modifies this`slots, this`nextGroupId
      ensures var r := Groups.Acquired(Groups.Registry(Owners(old(slots)), old(nextGroupId)), ids);
              Groups.Registry(Owners(slots), nextGroupId) == r.0 && group == r.1
      ensures slots.Keys == old(slots).Keys
      ensures forall id :: id in slots ==> slots[id] == old(slots)[id].(owner := slots[id].owner)
    {
      if ids == [] {
        return None;
      }
      Groups.DistinctBySize(ids);
      var unique := set id | id in ids;
      if |unique| != |ids| {
        return None;
      }
      var i := 0;
      while i < |ids|
        invariant i <= |ids|
        invariant forall k :: 0 <= k < i ==> ids[k] in slots && slots[ids[k]].owner == 0
      {
        if ids[i] !in slots || slots[ids[i]].owner != 0 {
          assert !Groups.Acquirable(Owners(slots), ids) by {
            assert !(ids[i] in Owners(slots) && Owners(slots)[ids[i]] == 0);
          }
          return None;
        }
        i := i + 1;
      }
      var groupId := nextGroupId;
      nextGroupId := nextGroupId + 1;
      i := 0;
      while i < |ids|
        invariant i <= |ids|
        invariant slots.Keys == old(slots).Keys && nextGroupId == groupId + 1
        invariant forall id :: id in slots ==> slots[id] == old(slots)[id].(owner := if id in ids[..i] then groupId else old(slots)[id].owner)
      {
        slots := slots[ids[i] := slots[ids[i]].(owner := groupId)];
        i := i + 1;
      }
      assert ids[..i] == ids;
      assert Owners(slots) == Groups.Assign(Owners(old(slots)), ids, groupId);
      return Some(groupId);
    }

    // What destroying a group handle does while the server is up.
    method ReleaseStreamGroup(group: nat, ids: seq<string>)
      modifies this`slots
      ensures Owners(slots) == Groups.Freed(Owners(old(slots)), group, ids)
      ensures slots.Keys == old(slots).Keys
      ensures forall id :: id in slots ==> slots[id] == old(slots)[id].(owner := slots[id].owner)
    {
      var i := 0;
      while i < |ids|
        invariant i <= |ids|
        invariant slots.Keys == old(slots).Keys
        invariant forall id :: id in slots ==>
                    slots[id] == old(slots)[id].(owner := if id in ids[..i] && old(slots)[id].owner == group then 0 else old(slots)[id].owner)
      {
        if ids[i] in slots && slots[ids[i]].owner == group {
          slots := slots[ids[i] := slots[ids[i]].(owner := 0)];
        }
        i := i + 1;
      }
      assert ids[..i] == ids;
      assert Owners(slots) == Groups.Freed(Owners(old(slots)), group, ids);
    }

    method ProcessStream(id: string, encodes: bool) returns (result: StepResult)
      modifies this`slots, server
      ensures (slots, server.streams, result) == StreamStep(old(slots), old(server.streams), id, encodes)
      ensures Owners(slots) == Owners(old(slots))
    {
      if id !in slots {
        return Idle;
      }
      var m := slots[id];
      if m.pending.None? {
        return Idle;
      }
      if id !in server.streams {
        return Failed;
      }
      var output := server.streams[id].output;
      var frame := m.pending.value;
      if output.fps > 0.0 && m.nextDue > 0 && frame.timestampNs < m.nextDue {
        assert slots[id := m] == slots && server.streams[id := server.streams[id]] == server.streams;
        return Idle;
      }
      m := m.(pending := None);
      if output.fps > 0.0 {
        m := m.(nextDue := (frame.timestampNs + IntervalNs(output.fps)) % U64);
      } else {
        m := m.(nextDue := 0);
      }
      slots := slots[id := m];
      if !Transformable(frame, output.rotation) {
        server.NoteFrameDropped(id);
        return Progressed;
      }
      if !encodes {
        assert server.streams[id := server.streams[id]] == server.streams;
        return Failed;
      }
      var published := server.PublishTransformedFrame(id, Core.Output(frame, output));
      return if published == Core.Success then Progressed else Failed;
    }

    // Validates a frame and puts it into the stream's slot, replacing the one that waits there.
    method StorePending(id: string, f: Frame) returns (o: Core.Outcome)
      modifies this`slots, server
      ensures id in old(slots) && id in old(server.streams) ==>
                var r := PushedToSlot(old(slots)[id], old(server.streams)[id], f);
                slots == old(slots)[id := r.0] && server.streams == old(server.streams)[id := r.1] && o == r.2
      ensures id !in old(slots) || id !in old(server.streams) ==>
                && o != Core.Success && slots == old(slots)
                && server.streams == (if id in old(server.streams) then old(server.streams)[id := Core.Dropped(old(server.streams)[id])]
                                      else old(server.streams))
      ensures Owners(slots) == Owners(old(slots))
    {
      hide StorageSize, Measurable, Core.Validation;
      o := server.ValidateRawFrameInput(id, f);
      if o != Core.Success {
        assert id in slots ==> slots[id := slots[id]] == slots;
        server.NoteFrameDropped(id);
        return;
      }
      if StorageSize(f) == 0 {
        assert id in slots ==> slots[id := slots[id]] == slots;
        server.NoteFrameDropped(id);
        return Core.InvalidArgument;
      }
      if id !in slots {
        server.NoteFrameDropped(id);
        return Core.NotFound;
      }
      if slots[id].pending.Some? {
        server.NoteFrameDropped(id);
      }
      slots := slots[id := slots[id].(pending := Some(f))];
      o := server.NoteFrameReceived(id, f);
      if o != Core.Success {
        server.NoteFrameDropped(id);
      }
    }

    // `api` is the outcome of the API step that an inline push runs before the frame step.
    method PushFrame(id: string, f: Frame, encodes: bool, api: Core.Outcome) returns (o: Core.Outcome)
      modifies this`slots, server
      ensures Owners(slots) == Owners(old(slots))
      ensures id in old(slots) && id in old(server.streams) ==>
                var r := PushedToSlot(old(slots)[id], old(server.streams)[id], f);
                var steps := inlineOnPush && r.2 == Core.Success && api == Core.Success;
                var p := if steps then Processed(r.0, r.1, encodes) else (r.0, r.1, Idle);
                && slots == old(slots)[id := p.0] && server.streams == old(server.streams)[id := p.1]
                && o == (if p.2 == Failed then Core.EncoderFailure
                         else if inlineOnPush && r.2 == Core.Success then api else r.2)
      ensures id !in old(slots) || id !in old(server.streams) ==>
                && o != Core.Success && slots == old(slots)
                && server.streams == (if id in old(server.streams) then old(server.streams)[id := Core.Dropped(old(server.streams)[id])]
                                      else old(server.streams))
    {
      hide PushedToSlot, Processed, Owners;
      o := StorePending(id, f);
      if o == Core.Success && inlineOnPush {
        if api != Core.Success {
          return api;
        }
        PendingAfterPush(old(slots)[id], old(server.streams)[id], f);
        var result := ProcessStream(id, encodes);
        if result == Failed {
          return Core.EncoderFailure;
        }
      }
    }

    // One step: a sweep over the unowned streams from the stored index, at most `maxStreamsPerStep` of which
    // progress. `apiBefore` and `apiAfter` are the outcomes of the API steps around it; the second
    // fails after the sweep has taken effect.
    method StepServer(encodes: string -> bool, apiBefore: Core.Outcome, apiAfter: Core.Outcome) returns (o: Core.Outcome)
      modifies this`slots, this`nextStreamIndex, server
      ensures Owners(slots) == Owners(old(slots))
      ensures apiBefore != Core.Success || Unowned(old(slots), order) == [] ==>
                && slots == old(slots) && server.streams == old(server.streams) && nextStreamIndex == old(nextStreamIndex)
                && o == apiBefore
      ensures apiBefore == Core.Success && Unowned(old(slots), order) != [] ==>
                var ids := Unowned(old(slots), order);
                var start := old(nextStreamIndex) % |ids|;
                var r := SweepStreams(old(slots), old(server.streams), ids, start, maxStreamsPerStep, encodes, 0, 0, start);
                && slots == r.0 && server.streams == r.1
                && o == (if r.2.failed then Core.EncoderFailure else apiAfter)
                && nextStreamIndex == (if r.2.failed then old(nextStreamIndex) else NextIndex(r.2, start, |order|))
    {
      hide SweepStreams, StreamStep, Owners;
      if apiBefore != Core.Success {
        return apiBefore;
      }
      if order == [] {
        return Core.Success;
      }
      var ids := CollectUnowned();
      if ids == [] {
        return Core.Success;
      }
      var startIndex := nextStreamIndex % |ids|;
      var failed, processed, cursor := SweepUnowned(ids, startIndex, encodes);
      if failed {
        return Core.EncoderFailure;
      }
      nextStreamIndex := if processed > 0 then cursor % |order| else (startIndex + 1) % |order|;
      return apiAfter;
    }

    // The loop of a step: streams from `startIndex` on, cyclically, until one fails or the cap is met.
    method SweepUnowned(ids: seq<string>, startIndex: nat, encodes: string -> bool)
      returns (failed: bool, processed: nat, cursor: nat)
      requires startIndex < |ids|
      modifies this`slots, server
      ensures Owners(slots) == Owners(old(slots))
      ensures var r := SweepStreams(old(slots), old(server.streams), ids, startIndex, maxStreamsPerStep, encodes, 0, 0, startIndex);
              slots == r.0 && server.streams == r.1 && failed == r.2.failed && processed == r.2.progressed && cursor == r.2.cursor
    {
      hide SweepStreams, StreamStep, Owners;
      failed, processed, cursor := false, 0, startIndex;
      var offset := 0;
      ghost var goal := SweepStreams(slots, server.streams, ids, startIndex, maxStreamsPerStep, encodes, 0, 0, startIndex);
      while offset < |ids|
        invariant offset <= |ids| && !failed
        invariant Owners(slots) == Owners(old(slots))
        invariant SweepStreams(slots, server.streams, ids, startIndex, maxStreamsPerStep, encodes, offset, processed, cursor) == goal
      {
        SweepTurn(slots, server.streams, ids, startIndex, maxStreamsPerStep, encodes, offset, processed, cursor);
        var index := (startIndex + offset) % |ids|;
        if maxStreamsPerStep > 0 && processed >= maxStreamsPerStep {
          return;
        }
        var result := ProcessStream(ids[index], encodes(ids[index]));
        if result == Failed {
          failed := true;
          return;
        }
        if result == Progressed {
          processed := processed + 1;
          cursor := (index + 1) % |ids|;
        }
        offset := offset + 1;
      }
      SweepTurn(slots, server.streams, ids, startIndex, maxStreamsPerStep, encodes, offset, processed, cursor);
    }

    method CollectUnowned() returns (ids: seq<string>)
      ensures ids == Unowned(slots, order)
    {
      assert order[..|order|] == order;
      ids := [];
      var i := 0;
      while i < |order|
        invariant i <= |order| && ids == Unowned(slots, order[..i])
      {
        assert order[..i + 1][..i] == order[..i];
        if order[i] in slots && slots[order[i]].owner == 0 {
          ids := ids + [order[i]];
        }
        i := i + 1;
      }
    }
  }

  lemma PendingAfterPush(m: Slot, s: Core.Stream, f: Frame)
    ensures PushedToSlot(m, s, f).2 == Core.Success ==> PushedToSlot(m, s, f).0.pending == Some(f)
  {
  }

  lemma SweepTurn(slots: Slots, core: Streams, ids: seq<string>, start: nat, cap: nat, encodes: string -> bool,
                  offset: nat, progressed: nat, cursor: nat)
    requires start < |ids| && offset <= |ids|
    ensures var sweep := SweepStreams(slots, core, ids, start, cap, encodes, offset, progressed, cursor);
            if offset == |ids| || (cap > 0 && progressed >= cap) then
              sweep == (slots, core, Sweep(offset, progressed, cursor, false))
            else
              var index := (start + offset) % |ids|;
              var r := StreamStep(slots, core, ids[index], encodes(ids[index]));
              sweep == match r.2
                       case Failed => (r.0, r.1, Sweep(offset + 1, progressed, cursor, true))
                       case Progressed => SweepStreams(r.0, r.1, ids, start, cap, encodes, offset + 1, progressed + 1, (index + 1) % |ids|)
                       case Idle => SweepStreams(r.0, r.1, ids, start, cap, encodes, offset + 1, progressed, cursor)
  {
    hide StreamStep;
  }

  function Without(order: seq<string>, id: string): (r: seq<string>)
    ensures forall x :: x in r <==> x in order && x != id
  {
    if order == [] then []
    else
      var last := order[|order| - 1];
      assert order == order[..|order| - 1] + [last];
      if last == id then Without(order[..|order| - 1], id) else Without(order[..|order| - 1], id) + [last]
  }

  method RemoveFromOrder(order: seq<string>, id: string) returns (r: seq<string>)
    ensures r == Without(order, id)
  {
    r := [];
    var i := 0;
    while i < |order|
      invariant i <= |order| && r == Without(order[..i], id)
    {
      assert order[..i + 1][..i] == order[..i];
      if order[i] != id {
        r := r + [order[i]];
      }
      i := i + 1;
    }
    assert order[..i] == order;
  }

  // ---------------------------------------------------------------------------
  // From positions to streams
  // ---------------------------------------------------------------------------

  // Stepping one stream does not change what another would do.
  lemma StepsAreIndependent(slots: Slots, core: Streams, id: string, encodes: bool, other: string, otherEncodes: bool)
    requires id != other
    ensures var (slots1, core1, _) := StreamStep(slots, core, id, encodes);
            StreamStep(slots1, core1, other, otherEncodes).2 == StreamStep(slots, core, other, otherEncodes).2
  {
    hide Processed;
  }

  // The streams not yet visited at `offset` still have the given outcomes.
  ghost predicate Ahead(slots: Slots, core: Streams, ids: seq<string>, encodes: string -> bool, outcome: nat -> StepResult,
                        start: nat, offset: nat)
    requires start < |ids|
  {
    forall p: nat :: p < |ids| && Distance(p, start, |ids|) >= offset ==> StepOutcome(slots, core, ids, encodes, p) == outcome(p)
  }

  lemma AheadAfterStep(slots: Slots, core: Streams, ids: seq<string>, encodes: string -> bool, outcome: nat -> StepResult,
                       start: nat, offset: nat)
    requires start < |ids| && offset < |ids| && Groups.Distinct(ids)
    requires Ahead(slots, core, ids, encodes, outcome, start, offset)
    ensures var index := (start + offset) % |ids|;
            var (slots1, core1, result) := StreamStep(slots, core, ids[index], encodes(ids[index]));
            result == outcome(index) && Ahead(slots1, core1, ids, encodes, outcome, start, offset + 1)
  {
    hide StreamStep;
    var n := |ids|;
    WrapIsModulo(start + offset, n);
    var index := (start + offset) % n;
    assert Distance(index, start, n) == offset;
    var (slots1, core1, result) := StreamStep(slots, core, ids[index], encodes(ids[index]));
    assert StepOutcome(slots, core, ids, encodes, index) == outcome(index);
    forall p: nat | p < n && Distance(p, start, n) >= offset + 1
      ensures StepOutcome(slots1, core1, ids, encodes, p) == outcome(p)
    {
      assert StepOutcome(slots, core, ids, encodes, p) == outcome(p);
      StepsAreIndependent(slots, core, ids[index], encodes(ids[index]), ids[p], encodes(ids[p]));
    }
  }

  // On distinct ids the sweep meets exactly the outcomes the streams had when it began.
  lemma {:induction false} SweepMeetsOutcomes(slots: Slots, core: Streams, ids: seq<string>, start: nat, cap: nat, encodes: string -> bool,
                                              outcome: nat -> StepResult, offset: nat, progressed: nat, cursor: nat)
    requires start < |ids| && offset <= |ids| && Groups.Distinct(ids)
    requires Ahead(slots, core, ids, encodes, outcome, start, offset)
    ensures SweepStreams(slots, core, ids, start, cap, encodes, offset, progressed, cursor).2
            == SweepFrom(|ids|, start, cap, outcome, offset, progressed, cursor)
    decreases |ids| - offset
  {
    hide StreamStep, Ahead;
    if offset == |ids| || (cap > 0 && progressed >= cap) {
    } else {
      var index := (start + offset) % |ids|;
      var (slots1, core1, result) := StreamStep(slots, core, ids[index], encodes(ids[index]));
      AheadAfterStep(slots, core, ids, encodes, outcome, start, offset);
      match result
      case Failed =>
      case Progressed =>
        SweepMeetsOutcomes(slots1, core1, ids, start, cap, encodes, outcome, offset + 1, progressed + 1, (index + 1) % |ids|);
      case Idle => SweepMeetsOutcomes(slots1, core1, ids, start, cap, encodes, outcome, offset + 1, progressed, cursor);
    }
  }

  // So a step of the server is a sweep by position, to which the fairness results apply.
  lemma StepIsSweep(slots: Slots, core: Streams, ids: seq<string>, cap: nat, encodes: string -> bool, index: nat, orderSize: nat)
    requires ids != [] && Groups.Distinct(ids)
    ensures SweepStreams(slots, core, ids, index % |ids|, cap, encodes, 0, 0, index % |ids|).2
            == SweepOf(|ids|, cap, StepCall(Outcomes(slots, core, ids, encodes), orderSize), index)
  {
    hide StreamStep;
    var outcome := Outcomes(slots, core, ids, encodes);
    SweepMeetsOutcomes(slots, core, ids, index % |ids|, cap, encodes, outcome, 0, 0, index % |ids|);
  }

  // A stream whose pending frame is due, whose format was validated and whose encoder accepts
  // frames is one that progresses when it is visited.
  lemma DueStreamProgresses(slots: Slots, core: Streams, id: string, encodes: bool)
    requires id in slots && id in core && Due(slots[id], core[id]) && encodes
    ensures StreamStep(slots, core, id, encodes).2 == Progressed
    ensures id in StreamStep(slots, core, id, encodes).0 && StreamStep(slots, core, id, encodes).0[id].pending.None?
  {
  }

  // A step of a stream fails exactly when its frame cannot be looked up in the core server, or is due and
  // transformable but refused by the encoder.
  lemma FailureMeansRefusedOrLost(slots: Slots, core: Streams, id: string, encodes: bool)
    ensures StreamStep(slots, core, id, encodes).2 == Failed <==>
              && id in slots && slots[id].pending.Some?
              && (id !in core || (Due(slots[id], core[id]) && !encodes
                                  && Transformable(slots[id].pending.value, core[id].output.rotation)))
  {
  }

  // ---------------------------------------------------------------------------
  // The stream order
  // ---------------------------------------------------------------------------

  // The order lists exactly the registered streams, each once.
  predicate OrderMatches(slots: Slots, order: seq<string>) {
    Groups.Distinct(order) && (set id | id in order) == slots.Keys
  }

  // What a successful registration adds: an empty slot that no group owns, and on a started server a stream of
  // the core with no counts, nothing published, no throttle bound and an output as the input comes.
  lemma NewStreamsAreFresh(slots: Slots, order: seq<string>, core: Streams, started: bool, id: string, config: Core.StreamConfig)
    ensures var r := Registered(slots, order, core, started, id, config);
            r.3 == Core.Success ==>
              && r.0.Keys == slots.Keys + {id} && r.0[id].pending == None && r.0[id].nextDue == 0 && r.0[id].owner == 0
              && r.0[id].registered == started
              && (forall other :: other in slots ==> r.0[other] == slots[other])
              && (!started ==> r.2 == core)
              && (started ==>
                    && r.2.Keys == core.Keys + {id} && (forall other :: other in core ==> r.2[other] == core[other])
                    && r.2[id] == Core.Stream(config.format, Core.OutputConfig(0, 0, 0, 0.0, 0.0, 1.0, 1), 0, Core.Counts(0, 0, 0), None))
  {
  }

  // The configured streams start out in exact order if and only if no id is repeated.
  lemma ConfiguredOrder(configured: seq<string>)
    ensures OrderMatches(FreshSlots(configured), configured) <==> Groups.Distinct(configured)
  {
    assert (set id | id in configured) == FreshSlots(configured).Keys;
  }

  // A registration keeps the order exact if and only if the id is taken, the server is not started
  // yet, or the configuration is one that the core server accepts for a new id.
  lemma RegistrationKeepsOrder(slots: Slots, order: seq<string>, core: Streams, started: bool, id: string, config: Core.StreamConfig)
    requires OrderMatches(slots, order)
    ensures var r := Registered(slots, order, core, started, id, config);
            OrderMatches(r.0, r.1) <==> id in slots || !started || (Core.ValidStream(id, config) && id !in core)
  {
    if id !in slots {
      AppendKeepsOrder(slots, order, id);
      assert id in order + [id] && id in (set x | x in order + [id]);
    }
  }

  lemma AppendKeepsOrder(slots: Slots, order: seq<string>, id: string)
    requires OrderMatches(slots, order) && id !in slots
    ensures Groups.Distinct(order + [id]) && (set x | x in order + [id]) == slots.Keys + {id}
  {
    assert id in order <==> id in (set x | x in order);
    var order' := order + [id];
    forall i, j | 0 <= i < j < |order'|
      ensures order'[i] != order'[j]
    {
      if j == |order| {
        assert order[i] in order;
      }
    }
    assert (set x | x in order') == (set x | x in order) + {id};
  }

  // A configuration without a frame rate is refused for every id.
  const NO_RATE := Core.StreamConfig(StreamFormat(640, 480, GRAY8), 0.0, 1)

  // On a started server a refused registration of a new id leaves it in the order, and a later one that
  // succeeds puts it there again: from then on every step sweeps the stream twice.
  lemma StaleIdIsSweptTwice(slots: Slots, order: seq<string>, core: Streams, id: string, config: Core.StreamConfig)
    requires OrderMatches(slots, order) && id !in slots && id !in core && Core.ValidStream(id, config)
    ensures var refused := Registered(slots, order, core, true, id, NO_RATE);
            var accepted := Registered(refused.0, refused.1, refused.2, true, id, config);
            && refused.3 == Core.InvalidConfiguration && refused.0 == slots && !OrderMatches(refused.0, refused.1)
            && accepted.3 == Core.Success && id in accepted.0
            && Unowned(accepted.0, accepted.1) == Unowned(accepted.0, order) + [id, id]
  {
    hide Unowned, OrderMatches;
    RegistrationKeepsOrder(slots, order, core, true, id, NO_RATE);
    TwiceInOrder(slots[id := Slot(None, 0, true, 0)], order, id);
  }

  lemma TwiceInOrder(slots: Slots, order: seq<string>, id: string)
    requires id in slots && slots[id].owner == 0
    ensures Unowned(slots, order + [id] + [id]) == Unowned(slots, order) + [id, id]
  {
    var order' := order + [id] + [id];
    assert order'[..|order'| - 1] == order + [id];
    assert (order + [id])[..|order|] == order;
  }

  lemma LastIsNew(order: seq<string>)
    requires Groups.Distinct(order) && order != []
    ensures order[|order| - 1] !in order[..|order| - 1]
  {
    var init := order[..|order| - 1];
    forall k | 0 <= k < |init|
      ensures init[k] != order[|order| - 1]
    {
      assert order[k] != order[|order| - 1];
    }
  }

  lemma {:induction false} WithoutKeepsDistinct(order: seq<string>, id: string)
    requires Groups.Distinct(order)
    ensures Groups.Distinct(Without(order, id))
  {
    if order == [] {
    } else {
      var init, last := order[..|order| - 1], order[|order| - 1];
      forall i, j | 0 <= i < j < |init| ensures init[i] != init[j] {
        assert order[i] != order[j];
      }
      WithoutKeepsDistinct(init, id);
      var w := Without(init, id);
      if last != id {
        LastIsNew(order);
        forall i, j | 0 <= i < j < |w + [last]| ensures (w + [last])[i] != (w + [last])[j] {
          if j == |w| {
            assert w[i] in w;
          }
        }
      }
    }
  }

  // Removing a stream keeps the order exact.
  lemma RemovalKeepsOrder(slots: Slots, order: seq<string>, id: string)
    requires OrderMatches(slots, order) && id in slots
    ensures OrderMatches(slots - {id}, Without(order, id))
  {
    WithoutKeepsDistinct(order, id);
    var w := Without(order, id);
    forall x
      ensures x in (set y | y in w) <==> x in slots && x != id
    {
      assert x in order <==> x in (set y | y in order);
    }
    assert (set y | y in w) == (slots - {id}).Keys;
  }

  // A distinct order yields distinct swept streams.
  lemma {:induction false} UnownedDistinct(slots: Slots, order: seq<string>)
    requires Groups.Distinct(order)
    ensures Groups.Distinct(Unowned(slots, order))
  {
    if order == [] {
    } else {
      var init, last := order[..|order| - 1], order[|order| - 1];
      forall i, j | 0 <= i < j < |init| ensures init[i] != init[j] {
        assert order[i] != order[j];
      }
      UnownedDistinct(slots, init);
      var u := Unowned(slots, init);
      LastIsNew(order);
      forall i, j | 0 <= i < j < |u + [last]| ensures (u + [last])[i] != (u + [last])[j] {
        if j == |u| {
          assert u[i] in u;
        }
      }
    }
  }
}
