// Which frames reach a subscriber: the core server and the managed server stepping inline
// publish exactly the frames that the throttle keeps, the same ones for the same configuration.
module PublishedFrames {
  import opened Bytes
  import opened PixelFormats
  import opened Throttle
  import opened CoreServer
  import opened FrameSlots

  function Timestamps(frames: seq<Frame>): seq<nat> {
    seq(|frames|, i requires 0 <= i < |frames| => frames[i].timestampNs)
  }

  predicate AllFit(frames: seq<Frame>) {
    forall i :: 0 <= i < |frames| ==> Fits(frames[i])
  }

  // The frames from `i` on that the stream's validation accepts.
  function ValidFrom(frames: seq<Frame>, format: StreamFormat, i: nat): seq<Frame>
    requires i <= |frames|
    decreases |frames| - i
  {
    if i == |frames| then []
    else (if ValidInput(frames[i], format) then [frames[i]] else []) + ValidFrom(frames, format, i + 1)
  }

  // What is left of the valid frames after the next push.
  lemma ValidTurn(frames: seq<Frame>, format: StreamFormat, i: nat, valid: seq<Frame>, v: nat)
    requires i < |frames| && v <= |valid| && valid[v..] == ValidFrom(frames, format, i)
    ensures if ValidInput(frames[i], format) then
              v < |valid| && valid[v] == frames[i] && valid[v + 1..] == ValidFrom(frames, format, i + 1)
            else valid[v..] == ValidFrom(frames, format, i + 1)
  {
    hide ValidInput;
    if ValidInput(frames[i], format) {
      assert valid[v..][0] == frames[i] && valid[v..][1..] == valid[v + 1..];
    }
  }

  lemma AllKept(valid: seq<Frame>, v: nat, next: nat, output: OutputConfig)
    requires v == |valid|
    ensures OutputsAt(valid, Kept(valid, v, next, output), output) == []
  {
    hide IntervalNs;
  }

  // The indices from `i` on that the throttle of a stream with this output keeps.
  function Kept(frames: seq<Frame>, i: nat, next: nat, output: OutputConfig): (kept: seq<nat>)
    requires i <= |frames|
    ensures forall k :: 0 <= k < |kept| ==> i <= kept[k] < |frames|
  {
    if output.fps > 0.0 then KeptFrom(Timestamps(frames), i, next, IntervalNs(output.fps))
    else seq(|frames| - i, k requires 0 <= k < |frames| - i => i + k)
  }

  // What a subscriber sees of the frames at these indices.
  function OutputsAt(frames: seq<Frame>, at: seq<nat>, output: OutputConfig): seq<Output>
    requires forall k :: 0 <= k < |at| ==> at[k] < |frames|
  {
    seq(|at|, k requires 0 <= k < |at| => Output(frames[at[k]], output))
  }

  lemma OutputsAtHead(frames: seq<Frame>, i: nat, rest: seq<nat>, output: OutputConfig)
    requires i < |frames| && forall k :: 0 <= k < |rest| ==> rest[k] < |frames|
    ensures OutputsAt(frames, [i] + rest, output) == [Output(frames[i], output)] + OutputsAt(frames, rest, output)
  {
  }

  lemma KeptTurn(frames: seq<Frame>, i: nat, next: nat, output: OutputConfig)
    requires i < |frames|
    ensures Kept(frames, i, next, output) ==
            if output.fps <= 0.0 then [i] + Kept(frames, i + 1, next, output)
            else if CoreKeeps(next, frames[i].timestampNs) then
              [i] + Kept(frames, i + 1, After(frames[i].timestampNs, IntervalNs(output.fps)), output)
            else Kept(frames, i + 1, next, output)
  {
    hide IntervalNs;
  }

  // One valid frame more: its output comes first when the throttle keeps it.
  lemma OutputsTurn(valid: seq<Frame>, v: nat, next: nat, next': nat, output: OutputConfig)
    requires v < |valid|
    requires output.fps > 0.0 ==>
               next' == if CoreKeeps(next, valid[v].timestampNs) then After(valid[v].timestampNs, IntervalNs(output.fps)) else next
    ensures OutputsAt(valid, Kept(valid, v, next, output), output) ==
            (if output.fps <= 0.0 || CoreKeeps(next, valid[v].timestampNs) then [Output(valid[v], output)] else [])
            + OutputsAt(valid, Kept(valid, v + 1, next', output), output)
  {
    hide Kept, OutputsAt, CoreKeeps, IntervalNs, After;
    KeptTurn(valid, v, next, output);
    if output.fps <= 0.0 {
      UnthrottledKept(valid, v + 1, next, next', output);
    }
    OutputsAtHead(valid, v, Kept(valid, v + 1, next', output), output);
  }

  // ---------------------------------------------------------------------------
  // The core server
  // ---------------------------------------------------------------------------

  function PushesFrom(frames: seq<Frame>, i: nat): (events: seq<Event>)
    requires i <= |frames|
    decreases |frames| - i
  {
    if i == |frames| then [] else [Push(frames[i])] + PushesFrom(frames, i + 1)
  }

  lemma ValidPush(r: Run, f: Frame)
    requires Inv(r) && ValidInput(f, r.s.format) && Fits(f)
    ensures var r' := Step(r, Push(f));
            var keeps := r.s.output.fps <= 0.0 || CoreKeeps(r.s.nextAllowed, f.timestampNs);
            && r'.s.format == r.s.format && r'.s.output == r.s.output
            && r'.published == (if keeps then r.published + [Output(f, r.s.output)] else r.published)
            && r'.s.nextAllowed == (if keeps && r.s.output.fps > 0.0 then After(f.timestampNs, IntervalNs(r.s.output.fps))
                                    else r.s.nextAllowed)
  {
    hide MinRowBytes, Measurable, Transformable, ValidInput, IntervalNs, ShowsInOrder, ShowsValid;
    ValidInputSuffices(f, r.s.format, r.s.output.rotation);
  }

  // An invalid frame moves nothing but the drop counter.
  lemma InvalidPush(r: Run, f: Frame)
    requires !ValidInput(f, r.s.format)
    ensures var r' := Step(r, Push(f));
            && r'.s == Dropped(r.s) && r'.published == r.published
  {
    hide ValidInput;
    assert r.published + [] == r.published;
  }

  // While its configuration stands a stream publishes, of the valid frames among those pushed, the ones
  // that its throttle keeps, and no others.
  lemma {:induction false} CorePublishesKept(r: Run, frames: seq<Frame>, i: nat, valid: seq<Frame>, v: nat)
    requires Inv(r) && AllFit(frames) && i <= |frames|
    requires v <= |valid| && valid[v..] == ValidFrom(frames, r.s.format, i)
    ensures Exec(r, PushesFrom(frames, i)).published
            == r.published + OutputsAt(valid, Kept(valid, v, r.s.nextAllowed, r.s.output), r.s.output)
    decreases |frames| - i
  {
    hide Step, ValidInput, IntervalNs, Inv, Kept, OutputsAt, CoreKeeps, After;
    if i == |frames| {
      AllKept(valid, v, r.s.nextAllowed, r.s.output);
    } else {
      var r' := Step(r, Push(frames[i]));
      ValidTurn(frames, r.s.format, i, valid, v);
      PushKeepsInv(r, frames[i]);
      PushesTurn(r, frames, i);
      if ValidInput(frames[i], r.s.format) {
        ValidPush(r, frames[i]);
        OutputsTurn(valid, v, r.s.nextAllowed, r'.s.nextAllowed, r.s.output);
        CorePublishesKept(r', frames, i + 1, valid, v + 1);
      } else {
        InvalidPush(r, frames[i]);
        CorePublishesKept(r', frames, i + 1, valid, v);
      }
    }
  }

  lemma PushesTurn(r: Run, frames: seq<Frame>, i: nat)
    requires i < |frames|
    ensures Exec(r, PushesFrom(frames, i)) == Exec(Step(r, Push(frames[i])), PushesFrom(frames, i + 1))
  {
    hide Step;
  }

  // ---------------------------------------------------------------------------
  // The managed server, stepping inline
  // ---------------------------------------------------------------------------

  // An inline push runs a frame step when its frame was accepted.
  function InlinePush(f: Frame, format: StreamFormat): seq<SlotEvent> {
    if ValidInput(f, format) then [PushFrame(f), ProcessFrame(true)] else [PushFrame(f)]
  }

  function InlineFrom(frames: seq<Frame>, format: StreamFormat, i: nat): (events: seq<SlotEvent>)
    requires i <= |frames|
    decreases |frames| - i
  {
    if i == |frames| then [] else InlinePush(frames[i], format) + InlineFrom(frames, format, i + 1)
  }

  lemma ValidSlotPush(r: SlotRun, f: Frame)
    requires SlotInv(r) && ValidInput(f, r.s.format) && Fits(f)
    ensures var r' := ProcessStep(PushStep(r, f), true);
            var keeps := r.s.output.fps <= 0.0 || CoreKeeps(r.m.nextDue, f.timestampNs);
            && r'.s.format == r.s.format && r'.s.output == r.s.output
            && r'.published == (if keeps then r.published + [Output(f, r.s.output)] else r.published)
            && (r.s.output.fps > 0.0 ==>
                  r'.m.nextDue == if keeps then After(f.timestampNs, IntervalNs(r.s.output.fps)) else r.m.nextDue)
  {
    hide MinRowBytes, Measurable, Transformable, ValidInput, IntervalNs, StorageSize;
    ValidInputSuffices(f, r.s.format, r.s.output.rotation);
  }

  lemma InvalidSlotPush(r: SlotRun, f: Frame)
    requires !ValidInput(f, r.s.format)
    ensures var r' := PushStep(r, f);
            r'.m == r.m && r'.s == Dropped(r.s) && r'.published == r.published
  {
    hide ValidInput;
  }

  lemma {:induction false} ManagedPublishesKept(r: SlotRun, frames: seq<Frame>, i: nat, valid: seq<Frame>, v: nat)
    requires SlotInv(r) && AllFit(frames) && i <= |frames|
    requires v <= |valid| && valid[v..] == ValidFrom(frames, r.s.format, i)
    ensures ExecSlot(r, InlineFrom(frames, r.s.format, i)).published
            == r.published + OutputsAt(valid, Kept(valid, v, r.m.nextDue, r.s.output), r.s.output)
    decreases |frames| - i
  {
    hide PushStep, ProcessStep, ValidInput, IntervalNs, SlotInv, Kept, OutputsAt;
    if i == |frames| {
      AllKept(valid, v, r.m.nextDue, r.s.output);
    } else {
      ValidTurn(frames, r.s.format, i, valid, v);
      PushKeepsSlotInv(r, frames[i]);
      InlineTurn(r, frames, i);
      if ValidInput(frames[i], r.s.format) {
        InlineStepKeeps(r, frames[i], valid, v);
        ManagedPublishesKept(ProcessStep(PushStep(r, frames[i]), true), frames, i + 1, valid, v + 1);
      } else {
        InvalidSlotPush(r, frames[i]);
        ManagedPublishesKept(PushStep(r, frames[i]), frames, i + 1, valid, v);
      }
    }
  }

  // One accepted push and its frame step publish what the throttle makes of the frame.
  lemma InlineStepKeeps(r: SlotRun, f: Frame, valid: seq<Frame>, v: nat)
    requires SlotInv(r) && Fits(f) && ValidInput(f, r.s.format) && v < |valid| && valid[v] == f
    ensures var r' := ProcessStep(PushStep(r, f), true);
            && SlotInv(r') && r'.s.format == r.s.format && r'.s.output == r.s.output
            && r'.published + OutputsAt(valid, Kept(valid, v + 1, r'.m.nextDue, r.s.output), r.s.output)
               == r.published + OutputsAt(valid, Kept(valid, v, r.m.nextDue, r.s.output), r.s.output)
  {
    hide PushStep, ProcessStep, ValidInput, IntervalNs, SlotInv, Kept, OutputsAt, CoreKeeps, After;
    ValidSlotPush(r, f);
    PushKeepsSlotInv(r, f);
    ProcessKeepsSlotInv(PushStep(r, f), true);
    OutputsTurn(valid, v, r.m.nextDue, ProcessStep(PushStep(r, f), true).m.nextDue, r.s.output);
  }

  lemma UnthrottledKept(frames: seq<Frame>, i: nat, next: nat, next': nat, output: OutputConfig)
    requires i <= |frames| && output.fps <= 0.0
    ensures Kept(frames, i, next, output) == Kept(frames, i, next', output)
  {
  }

  lemma InlineTurn(r: SlotRun, frames: seq<Frame>, i: nat)
    requires i < |frames|
    ensures var pushed := PushStep(r, frames[i]);
            var after := if ValidInput(frames[i], r.s.format) then ProcessStep(pushed, true) else pushed;
            ExecSlot(r, InlineFrom(frames, r.s.format, i)) == ExecSlot(after, InlineFrom(frames, r.s.format, i + 1))
  {
    hide PushStep, ProcessStep, ValidInput;
    var events, rest := InlineFrom(frames, r.s.format, i), InlineFrom(frames, r.s.format, i + 1);
    if ValidInput(frames[i], r.s.format) {
      assert events[1..][0] == ProcessFrame(true) && events[1..][1..] == rest;
    } else {
      assert events[1..] == rest;
    }
  }

  // ---------------------------------------------------------------------------
  // Both
  // ---------------------------------------------------------------------------

  // Under one configuration and the same pushes, valid or not, both servers publish the same outputs:
  // those of all valid frames without a frame rate, and otherwise of a choice of them that is spaced by
  // the interval exactly when no bound but the last wraps and that, for non-decreasing timestamps, no
  // spaced choice of valid frames exceeds.
  lemma ServersPublishTheSame(format: StreamFormat, output: OutputConfig, frames: seq<Frame>, chosen: seq<nat>)
    requires ValidOutput(output) && AllFit(frames)
    ensures var core := Exec(Step(Start(format), Configure(output)), PushesFrom(frames, 0)).published;
            var managed := ExecSlot(SlotStep(StartSlot(format), Reconfigure(output)), InlineFrom(frames, format, 0)).published;
            var valid := ValidFrom(frames, format, 0);
            var kept := Kept(valid, 0, 0, output);
            && core == managed == OutputsAt(valid, kept, output.(generation := DEFAULT_OUTPUT.generation + 1))
            && (output.fps <= 0.0 ==> kept == seq(|valid|, k requires 0 <= k < |valid| => k))
            && (output.fps > 0.0 ==>
                  var ts, interval := Timestamps(valid), IntervalNs(output.fps);
                  && (Spaced(ts, kept, interval) <==> OnlyLastWraps(ts, kept, interval))
                  && (NonDecreasing(ts) && Spaced(ts, chosen, interval) ==> |chosen| <= |kept|))
            && (output.fps > 0.0 && Apart(valid, 1000000000.0 / output.fps + 1.0) ==>
                  core == seq(|valid|, k requires 0 <= k < |valid| => Output(valid[k], output.(generation := 2))))
            && (output.fps > 0.0 && EndBefore(valid, U64 as real - 1000000000.0 / output.fps - 1.0) ==>
                  OutputsApart(core, 1000000000.0 / output.fps - 1.0))
  {
    hide Exec, ExecSlot, PushesFrom, InlineFrom, ValidInput, IntervalNs, Spaced, NonDecreasing, OnlyLastWraps, OutputsAt, ValidFrom,
         Apart, EndBefore, OutputsApart;
    var r, m := Step(Start(format), Configure(output)), SlotStep(StartSlot(format), Reconfigure(output));
    var valid := ValidFrom(frames, format, 0);
    assert valid[0..] == valid;
    CorePublishesKept(r, frames, 0, valid, 0);
    ManagedPublishesKept(m, frames, 0, valid, 0);
    assert forall xs: seq<Output> :: [] + xs == xs;
    ValidFit(frames, format, 0);
    if output.fps > 0.0 {
      IntervalBounds(output.fps);
      ThrottleIsOptimal(Timestamps(valid), IntervalNs(output.fps), chosen);
      RateDecides(valid, output);
    }
  }

  // Successive frames are at least this many nanoseconds apart.
  predicate Apart(frames: seq<Frame>, ns: real) {
    forall k :: 0 < k < |frames| ==> frames[k].timestampNs as real - frames[k - 1].timestampNs as real >= ns
  }

  predicate OutputsApart(outputs: seq<Output>, ns: real) {
    forall k :: 0 < k < |outputs| ==> outputs[k].frame.timestampNs as real - outputs[k - 1].frame.timestampNs as real >= ns
  }

  predicate EndBefore(frames: seq<Frame>, ns: real) {
    forall k :: 0 <= k < |frames| ==> frames[k].timestampNs as real < ns
  }

  // What the frame rate decides, in nanoseconds: frames a second divided by the rate and one nanosecond more
  // apart are all published, and published frames are at least one nanosecond less than that apart.
  lemma RateDecides(valid: seq<Frame>, output: OutputConfig)
    requires output.fps > 0.0 && IntervalNs(output.fps) > 0 && AllFit(valid)
    ensures var outputs := OutputsAt(valid, Kept(valid, 0, 0, output), output.(generation := 2));
            && (Apart(valid, 1000000000.0 / output.fps + 1.0) ==>
                  outputs == seq(|valid|, k requires 0 <= k < |valid| => Output(valid[k], output.(generation := 2))))
            && (EndBefore(valid, U64 as real - 1000000000.0 / output.fps - 1.0) ==>
                  OutputsApart(outputs, 1000000000.0 / output.fps - 1.0))
  {
    hide IntervalNs, Apart, EndBefore, OutputsApart;
    IntervalIsNearest(output.fps);
    if Apart(valid, 1000000000.0 / output.fps + 1.0) {
      ApartAreAllKept(valid, IntervalNs(output.fps), 1000000000.0 / output.fps);
    }
    if EndBefore(valid, U64 as real - 1000000000.0 / output.fps - 1.0) {
      KeptAreApart(valid, IntervalNs(output.fps), 1000000000.0 / output.fps, output.(generation := 2));
    }
  }

  lemma ApartAreAllKept(valid: seq<Frame>, interval: nat, exact: real)
    requires interval as real <= exact + 0.5 && Apart(valid, exact + 1.0)
    ensures KeptFrom(Timestamps(valid), 0, 0, interval) == seq(|valid|, k requires 0 <= k < |valid| => k)
  {
    var ts := Timestamps(valid);
    forall k | 0 < k < |ts|
      ensures ts[k - 1] + interval <= ts[k]
    {
      assert valid[k].timestampNs as real - valid[k - 1].timestampNs as real >= exact + 1.0;
    }
    SpacedAreAllKept(ts, 0, 0, interval);
  }

  lemma KeptAreApart(valid: seq<Frame>, interval: nat, exact: real, output: OutputConfig)
    requires interval > 0 && exact - 0.5 <= interval as real <= exact + 0.5 && AllFit(valid)
    requires EndBefore(valid, U64 as real - exact - 1.0)
    ensures OutputsApart(OutputsAt(valid, KeptFrom(Timestamps(valid), 0, 0, interval), output), exact - 1.0)
  {
    hide KeptFrom;
    var ts := Timestamps(valid);
    var kept := KeptFrom(ts, 0, 0, interval);
    KeptAreSpaced(ts, 0, 0, interval);
    forall k | 0 <= k < |kept| - 1
      ensures ts[kept[k]] + interval < U64
    {
      assert valid[kept[k]].timestampNs as real < U64 as real - exact - 1.0;
    }
    assert OnlyLastWraps(ts, kept, interval);
    forall k | 0 < k < |kept|
      ensures valid[kept[k]].timestampNs as real - valid[kept[k - 1]].timestampNs as real >= exact - 1.0
    {
      assert ts[kept[k - 1]] + interval <= ts[kept[k]];
    }
  }

  lemma {:induction false} ValidFit(frames: seq<Frame>, format: StreamFormat, i: nat)
    requires AllFit(frames) && i <= |frames|
    ensures AllFit(ValidFrom(frames, format, i))
    decreases |frames| - i
  {
    if i == |frames| {
    } else {
      ValidFit(frames, format, i + 1);
    }
  }
}
