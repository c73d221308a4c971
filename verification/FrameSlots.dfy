// The managed server's frame path for one stream: a latest-wins pending slot, a due time,
// and a step that takes the pending frame through transform, encoding and publication.
module FrameSlots {
  import opened Bytes
  import opened PixelFormats
  import opened Throttle
  import opened CoreServer

  // `owner` is the id of the stream group that steps this stream, or 0.
  datatype Slot = Slot(pending: Option<Frame>, nextDue: nat, registered: bool, owner: nat)

  datatype StepResult = Idle | Progressed | Failed

  function PushedToSlot(m: Slot, s: Stream, f: Frame): (Slot, Stream, Outcome) {
    if Validation(s, f) != Success then (m, Dropped(s), Validation(s, f))
    else if StorageSize(f) == 0 then (m, Dropped(s), InvalidArgument)
    else
      var s1 := if m.pending.Some? then Dropped(s) else s;
      var m1 := m.(pending := Some(f));
      if Measurable(f) then (m1, Received(s1), Success) else (m1, Dropped(s1), InvalidArgument)
  }

  predicate Due(m: Slot, s: Stream) {
    m.pending.Some? &&
    !(s.output.fps > 0.0 && m.nextDue > 0 && m.pending.value.timestampNs < m.nextDue)
  }

  function Taken(m: Slot, s: Stream): Slot
    requires m.pending.Some?
  {
    m.(pending := None,
       nextDue := if s.output.fps > 0.0 then After(m.pending.value.timestampNs, IntervalNs(s.output.fps)) else 0)
  }

  // `encodes` says whether the foreign encoder can be set up and takes the frame.
  function Processed(m: Slot, s: Stream, encodes: bool): (Slot, Stream, StepResult) {
    if !Due(m, s) then (m, s, Idle)
    else if !Transformable(m.pending.value, s.output.rotation) then (Taken(m, s), Dropped(s), Progressed)
    else if !encodes then (Taken(m, s), s, Failed)
    else (Taken(m, s), Published(s, Output(m.pending.value, s.output)), Progressed)
  }

  // ---------------------------------------------------------------------------
  // Whole sequential runs of one registered stream
  // ---------------------------------------------------------------------------

  // Stepping inline on push is a push followed by a step.
  datatype SlotEvent = PushFrame(f: Frame) | ProcessFrame(encodes: bool) | Reconfigure(c: OutputConfig)

  // All frames pushed and all outputs published so far; `pendingAt` is the push that filled the slot,
  // `publishedAt` lists the pushes whose frame was published, `lost` counts the frames a failing step took.
  datatype SlotRun = SlotRun(m: Slot, s: Stream, pushed: seq<Frame>, pendingAt: nat, published: seq<Output>,
                             publishedAt: seq<nat>, rejected: nat, lost: nat)

  function StartSlot(format: StreamFormat): SlotRun {
    SlotRun(Slot(None, 0, true, 0), NewStream(format), [], 0, [], [], 0, 0)
  }

  function PushStep(r: SlotRun, f: Frame): SlotRun {
    var (m', s', o) := PushedToSlot(r.m, r.s, f);
    r.(m := m', s := s', pushed := r.pushed + [f],
       pendingAt := if o == Success then |r.pushed| else r.pendingAt,
       rejected := if o == Success then r.rejected else r.rejected + 1)
  }

  function ProcessStep(r: SlotRun, encodes: bool): SlotRun {
    var (m', s', result) := Processed(r.m, r.s, encodes);
    var shown := NewOutput(r.s, s');
    r.(m := m', s := s', published := r.published + shown,
       publishedAt := if shown != [] then r.publishedAt + [r.pendingAt] else r.publishedAt,
       lost := if result == Failed then r.lost + 1 else r.lost)
  }

  function SlotStep(r: SlotRun, e: SlotEvent): SlotRun {
    match e
    case PushFrame(f) => PushStep(r, f)
    case ProcessFrame(encodes) => ProcessStep(r, encodes)
    case Reconfigure(c) => r.(s := Configured(r.s, c).0)
  }

  function ExecSlot(r: SlotRun, events: seq<SlotEvent>): SlotRun
    decreases |events|
  {
    if events == [] then r else ExecSlot(SlotStep(r, events[0]), events[1..])
  }

  function Waiting(m: Slot): nat {
    if m.pending.Some? then 1 else 0
  }

  // The slot holds the frame of the newest accepted push, which is not shown yet.
  predicate HoldsNewest(r: SlotRun)
    requires r.m.pending.Some?
  {
    && r.pendingAt < |r.pushed| && r.m.pending.value == r.pushed[r.pendingAt]
    && ValidInput(r.m.pending.value, r.s.format) && Fits(r.m.pending.value)
    && (forall k :: r.pendingAt < k < |r.pushed| ==> !ValidInput(r.pushed[k], r.s.format))
    && (forall k :: 0 <= k < |r.publishedAt| ==> r.publishedAt[k] < r.pendingAt)
  }

  predicate SlotInv(r: SlotRun) {
    && ValidRotation(r.s.output.rotation)
    && r.s.counts.received == ValidCount(r.pushed, r.s.format)
    && r.s.counts.received + r.rejected == r.s.counts.transformed + r.s.counts.dropped + Waiting(r.m) + r.lost
    && r.s.counts.received + r.rejected == |r.pushed|
    && |r.published| == r.s.counts.transformed
    && ShowsInOrder(r.published, r.publishedAt, r.pushed)
    && ShowsValid(r.published, r.s.format)
    && (r.m.pending.Some? ==> HoldsNewest(r))
  }

  lemma PushKeepsSlotInv(r: SlotRun, f: Frame)
    requires SlotInv(r) && Fits(f)
    ensures SlotInv(PushStep(r, f))
    ensures PushedToSlot(r.m, r.s, f).2 == Success <==> ValidInput(f, r.s.format)
    ensures ValidInput(f, r.s.format) ==> PushStep(r, f).m.pending == Some(f)
  {
    hide MinRowBytes, Measurable, ValidInput, IntervalNs, StorageSize, ShowsInOrder, ValidCount;
    ValidCountAppend(r.pushed, f, r.s.format);
    ShownAppend(r.published, r.publishedAt, r.pushed, f, r.s.output);
    ShownBefore(r.published, r.publishedAt, r.pushed);
    if ValidInput(f, r.s.format) {
      ValidInputSuffices(f, r.s.format, r.s.output.rotation);
    }
  }

  lemma ShownBefore(published: seq<Output>, at: seq<nat>, pushed: seq<Frame>)
    requires ShowsInOrder(published, at, pushed)
    ensures forall k :: 0 <= k < |at| ==> at[k] < |pushed|
  {
  }

  // A frame shown after all earlier ones keeps the order.
  lemma ShownFromSlot(published: seq<Output>, at: seq<nat>, pushed: seq<Frame>, i: nat, config: OutputConfig)
    requires ShowsInOrder(published, at, pushed) && i < |pushed| && forall k :: 0 <= k < |at| ==> at[k] < i
    ensures ShowsInOrder(published + [Output(pushed[i], config)], at + [i], pushed)
  {
  }

  // A pending frame never fails the transform, so a step either publishes it or fails.
  lemma ProcessKeepsSlotInv(r: SlotRun, encodes: bool)
    requires SlotInv(r)
    ensures SlotInv(ProcessStep(r, encodes))
    ensures Processed(r.m, r.s, encodes).1.counts.dropped == r.s.counts.dropped
  {
    hide MinRowBytes, Measurable, ValidInput, IntervalNs, StorageSize, Transformable, ShowsInOrder;
    assert r.published + [] == r.published;
    if r.m.pending.Some? {
      ValidInputSuffices(r.m.pending.value, r.s.format, r.s.output.rotation);
      ShownFromSlot(r.published, r.publishedAt, r.pushed, r.pendingAt, r.s.output);
    }
  }

  lemma {:induction false} FormatStays(r: SlotRun, events: seq<SlotEvent>)
    ensures ExecSlot(r, events).s.format == r.s.format
    decreases |events|
  {
    if events == [] {
    } else {
      StepKeepsFormat(r, events[0]);
      FormatStays(SlotStep(r, events[0]), events[1..]);
    }
  }

  lemma StepKeepsFormat(r: SlotRun, e: SlotEvent)
    ensures SlotStep(r, e).s.format == r.s.format
  {
  }

  predicate SlotFitting(events: seq<SlotEvent>) {
    forall e :: e in events && e.PushFrame? ==> Fits(e.f)
  }

  lemma {:induction false} ExecKeepsSlotInv(r: SlotRun, events: seq<SlotEvent>)
    requires SlotInv(r) && SlotFitting(events)
    ensures SlotInv(ExecSlot(r, events))
    decreases |events|
  {
    hide PushStep, ProcessStep;
    if events == [] {
    } else {
      match events[0] {
        case PushFrame(f) => PushKeepsSlotInv(r, f);
        case ProcessFrame(encodes) => ProcessKeepsSlotInv(r, encodes);
        case Reconfigure(c) =>
      }
      ExecKeepsSlotInv(SlotStep(r, events[0]), events[1..]);
    }
  }

  // When the frame after one that a step took is due: without a frame rate now or when the other was
  // taken, and otherwise from one interval after it on, in 64 bits.
  lemma DueAfterStep(m: Slot, s: Stream, encodes: bool, next: Frame, later: Stream)
    requires Due(m, s)
    ensures var m' := Processed(m, s, encodes).0;
            var bound := m.pending.value.timestampNs + (if s.output.fps > 0.0 then IntervalNs(s.output.fps) else 0);
            && m' == m.(pending := None, nextDue := m'.nextDue)
            && (Due(m'.(pending := Some(next)), later) <==>
                  later.output.fps <= 0.0 || s.output.fps <= 0.0 || next.timestampNs >= bound % U64)
  {
    hide IntervalNs, Transformable;
  }

  // Every push is accounted for: published, dropped, still pending, taken by a failing step
  // or rejected. What is published are frames that were pushed, in the order of the pushes and each
  // at most once; what is pending is the newest accepted push.
  lemma ManagedConservation(format: StreamFormat, events: seq<SlotEvent>)
    requires SlotFitting(events)
    ensures var r := ExecSlot(StartSlot(format), events);
            && r.s.counts.received + r.rejected == r.s.counts.transformed + r.s.counts.dropped + Waiting(r.m) + r.lost
            && r.s.counts.received + r.rejected == |r.pushed|
            && r.s.counts.received == ValidCount(r.pushed, format)
            && |r.published| == r.s.counts.transformed
            && ShowsInOrder(r.published, r.publishedAt, r.pushed) && ShowsValid(r.published, r.s.format)
            && (r.m.pending.Some? ==> HoldsNewest(r))
  {
    hide ExecSlot;
    assert SlotInv(StartSlot(format));
    FormatStays(StartSlot(format), events);
    ExecKeepsSlotInv(StartSlot(format), events);
  }
}
