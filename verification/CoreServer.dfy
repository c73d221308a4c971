// The core server's streams: registration, output configuration, and the path of a raw
// frame through validation, throttle, transform and publication.
module CoreServer {
  import opened Bytes
  import opened PixelFormats
  import opened Throttle

  datatype Outcome =
    | Success | NotFound | InvalidArgument | Unsupported | InvalidConfiguration | AlreadyExists
    | TransformFailed | EncoderFailure | ResourceBusy

  datatype OutputConfig = OutputConfig(rotation: int, width: nat, height: nat, fps: real,
                                       paletteMin: real, paletteMax: real, generation: nat)

  const DEFAULT_OUTPUT := OutputConfig(0, 0, 0, 0.0, 0.0, 1.0, 1)

  predicate ValidOutputSize(width: nat, height: nat) {
    (width == 0 && height == 0) || (16 <= width <= 3840 && 16 <= height <= 3840)
  }

  predicate ValidOutputFps(fps: real) {
    fps <= 0.0 || 1.0 <= fps <= 120.0
  }

  predicate ValidOutput(c: OutputConfig) {
    ValidRotation(c.rotation) && ValidOutputSize(c.width, c.height) && ValidOutputFps(c.fps) && c.paletteMin < c.paletteMax
  }

  datatype Counts = Counts(received: nat, transformed: nat, dropped: nat)

  // A published frame: the display transform of `frame` under `config`, with the frame's id and timestamp.
  datatype Output = Output(frame: Frame, config: OutputConfig)

  datatype Stream = Stream(format: StreamFormat, output: OutputConfig, nextAllowed: nat, counts: Counts, latest: Option<Output>)

  function Received(s: Stream): Stream {
    s.(counts := s.counts.(received := s.counts.received + 1))
  }

  function Dropped(s: Stream): Stream {
    s.(counts := s.counts.(dropped := s.counts.dropped + 1))
  }

  function Published(s: Stream, output: Output): Stream {
    s.(counts := s.counts.(transformed := s.counts.transformed + 1), latest := Some(output))
  }

  function Validation(s: Stream, f: Frame): (o: Outcome)
    ensures o == Success <==> ValidInput(f, s.format)
  {
    if !f.hasData || f.width == 0 || f.height == 0 then InvalidArgument
    else if f.width != s.format.width || f.height != s.format.height || f.format != s.format.format then InvalidArgument
    else if !SupportsTransform(f.format) then Unsupported
    else if MinRowBytes(f.format, f.width) == 0 || f.stride < MinRowBytes(f.format, f.width) then InvalidArgument
    else Success
  }

  // The throttle's verdict on a received frame, and the bound it leaves.
  predicate Admits(s: Stream, f: Frame) {
    s.output.fps <= 0.0 || CoreKeeps(s.nextAllowed, f.timestampNs)
  }

  function Admitted(s: Stream, f: Frame): Stream {
    if s.output.fps <= 0.0 then s else s.(nextAllowed := After(f.timestampNs, IntervalNs(s.output.fps)))
  }

  function PushedFrame(s: Stream, f: Frame): (Stream, Outcome) {
    if Validation(s, f) != Success then (Dropped(s), Validation(s, f))
    else if !Measurable(f) then (Dropped(s), InvalidArgument)
    else
      var s1 := Received(s);
      if !Admits(s1, f) then (Dropped(s1), Success)
      else
        var s2 := Admitted(s1, f);
        if !Transformable(f, s2.output.rotation) then (Dropped(s2), TransformFailed)
        else (Published(s2, Output(f, s.output)), Success)
  }

  function Configured(s: Stream, c: OutputConfig): (Stream, Outcome) {
    if !ValidOutput(c) then (s, InvalidConfiguration)
    else (s.(output := c.(generation := s.output.generation + 1), nextAllowed := 0, latest := None), Success)
  }

  function NewStream(format: StreamFormat): Stream {
    Stream(format, DEFAULT_OUTPUT, 0, Counts(0, 0, 0), None)
  }

  datatype StreamConfig = StreamConfig(format: StreamFormat, nominalFps: real, maxSubscribers: nat)

  predicate ValidStream(id: string, c: StreamConfig) {
    id != "" && c.format.width != 0 && c.format.height != 0 && c.nominalFps > 0.0
    && SupportsTransform(c.format.format) && c.maxSubscribers != 0
  }

  function RegistrationOutcome(streams: map<string, Stream>, id: string, c: StreamConfig): Outcome {
    if !ValidStream(id, c) then InvalidConfiguration else if id in streams then AlreadyExists else Success
  }

  class VideoServerCore {
    var streams: map<string, Stream>

    constructor ()
      ensures streams == map[]
    {
      streams := map[];
    }

    method RegisterStream(id: string, config: StreamConfig) returns (o: Outcome)
      modifies this
      ensures o == RegistrationOutcome(old(streams), id, config)
      ensures streams == if o == Success then old(streams)[id := NewStream(config.format)] else old(streams)
    {
      if id == "" || config.format.width == 0 || config.format.height == 0 || config.nominalFps <= 0.0
         || !SupportsTransform(config.format.format) || config.maxSubscribers == 0 {
        return InvalidConfiguration;
      }
      if id in streams {
        return AlreadyExists;
      }
      streams := streams[id := NewStream(config.format)];
      return Success;
    }

    method RemoveStream(id: string) returns (o: Outcome)
      modifies this
      ensures streams == old(streams) - {id}
      ensures o == if id in old(streams) then Success else NotFound
    {
      if id !in streams {
        return NotFound;
      }
      streams := streams - {id};
      return Success;
    }

    method ValidateRawFrameInput(id: string, f: Frame) returns (o: Outcome)
      ensures o == if id in streams then Validation(streams[id], f) else NotFound
    {
      if id !in streams {
        return NotFound;
      }
      return Validation(streams[id], f);
    }

    method NoteFrameReceived(id: string, f: Frame) returns (o: Outcome)
      modifies this
      ensures o == if !Measurable(f) then InvalidArgument else if id in old(streams) then Success else NotFound
      ensures streams == if o == Success then old(streams)[id := Received(old(streams)[id])] else old(streams)
    {
      if !Measurable(f) {
        return InvalidArgument;
      }
      if id !in streams {
        return NotFound;
      }
      streams := streams[id := Received(streams[id])];
      return Success;
    }

    method NoteFrameDropped(id: string)
      modifies this
      ensures streams == if id in old(streams) then old(streams)[id := Dropped(old(streams)[id])] else old(streams)
    {
      if id in streams {
        streams := streams[id := Dropped(streams[id])];
      }
    }

    method PublishTransformedFrame(id: string, output: Output) returns (o: Outcome)
      modifies this
      ensures o == if id in old(streams) then Success else NotFound
      ensures streams == if o == Success then old(streams)[id := Published(old(streams)[id], output)] else old(streams)
    {
      if id !in streams {
        return NotFound;
      }
      streams := streams[id := Published(streams[id], output)];
      return Success;
    }

    method SetStreamOutputConfig(id: string, c: OutputConfig) returns (o: Outcome)
      modifies this
      ensures o == if !ValidOutput(c) then InvalidConfiguration else if id in old(streams) then Success else NotFound
      ensures streams == if o == Success then old(streams)[id := Configured(old(streams)[id], c).0] else old(streams)
    {
      if !ValidOutput(c) {
        return InvalidConfiguration;
      }
      if id !in streams {
        return NotFound;
      }
      streams := streams[id := Configured(streams[id], c).0];
      return Success;
    }

    method PushFrame(id: string, f: Frame) returns (o: Outcome)
      modifies this
      ensures id !in old(streams) ==> o == NotFound && streams == old(streams)
      ensures id in old(streams) ==>
                o == PushedFrame(old(streams)[id], f).1 && streams == old(streams)[id := PushedFrame(old(streams)[id], f).0]
    {
      o := ValidateRawFrameInput(id, f);
      if o != Success {
        NoteFrameDropped(id);
        return;
      }
      if !Measurable(f) {
        NoteFrameDropped(id);
        return InvalidArgument;
      }
      streams := streams[id := Received(streams[id])];
      var s := streams[id];
      if s.output.fps > 0.0 {
        if s.nextAllowed > 0 && f.timestampNs < s.nextAllowed {
          streams := streams[id := Dropped(s)];
          return Success;
        }
        streams := streams[id := s.(nextAllowed := After(f.timestampNs, IntervalNs(s.output.fps)))];
      }
      if !Transformable(f, s.output.rotation) {
        NoteFrameDropped(id);
        return TransformFailed;
      }
      o := PublishTransformedFrame(id, Output(f, s.output));
    }
  }

  // ---------------------------------------------------------------------------
  // Whole runs of one registered stream
  // ---------------------------------------------------------------------------

  datatype Event = Push(f: Frame) | Configure(c: OutputConfig)

  // All frames pushed and all outputs published so far; `publishedAt` lists the pushes whose frame
  // was published, `rejected` counts the pushes refused as invalid.
  datatype Run = Run(s: Stream, pushed: seq<Frame>, published: seq<Output>, publishedAt: seq<nat>, rejected: nat)

  function Start(format: StreamFormat): Run {
    Run(NewStream(format), [], [], [], 0)
  }

  // What a subscriber newly gets to see: the latest output, when the step published one.
  function NewOutput(s: Stream, s': Stream): seq<Output> {
    if s'.counts.transformed > s.counts.transformed && s'.latest.Some? then [s'.latest.value] else []
  }

  function Step(r: Run, e: Event): Run {
    match e
    case Configure(c) => r.(s := Configured(r.s, c).0)
    case Push(f) =>
      var s' := PushedFrame(r.s, f).0;
      var shown := NewOutput(r.s, s');
      Run(s', r.pushed + [f], r.published + shown,
          if shown != [] then r.publishedAt + [|r.pushed|] else r.publishedAt,
          if s'.counts.received == r.s.counts.received then r.rejected + 1 else r.rejected)
  }

  function Exec(r: Run, events: seq<Event>): Run
    decreases |events|
  {
    if events == [] then r else Exec(Step(r, events[0]), events[1..])
  }

  // The k-th output shows the frame pushed as number `at[k]`, and each push is shown at most once, in order.
  predicate ShowsInOrder(published: seq<Output>, at: seq<nat>, pushed: seq<Frame>) {
    && |published| == |at|
    && (forall k :: 0 <= k < |at| ==> at[k] < |pushed| && published[k].frame == pushed[at[k]])
    && (forall k :: 0 < k < |at| ==> at[k - 1] < at[k])
  }

  // Every frame shown meets the stream's input contract.
  predicate ShowsValid(published: seq<Output>, format: StreamFormat) {
    forall k :: 0 <= k < |published| ==>
      ValidInput(published[k].frame, format) && Fits(published[k].frame) && ValidRotation(published[k].config.rotation)
  }

  // How many of the pushed frames meet the input contract.
  function ValidCount(pushed: seq<Frame>, format: StreamFormat): nat {
    if pushed == [] then 0
    else ValidCount(pushed[..|pushed| - 1], format) + (if ValidInput(pushed[|pushed| - 1], format) then 1 else 0)
  }

  lemma ValidCountAppend(pushed: seq<Frame>, f: Frame, format: StreamFormat)
    ensures ValidCount(pushed + [f], format) == ValidCount(pushed, format) + (if ValidInput(f, format) then 1 else 0)
  {
    assert (pushed + [f])[..|pushed|] == pushed;
  }

  predicate Inv(r: Run) {
    && ValidRotation(r.s.output.rotation)
    && r.s.counts.received == ValidCount(r.pushed, r.s.format)
    && r.s.counts.received + r.rejected == r.s.counts.transformed + r.s.counts.dropped
    && r.s.counts.received + r.rejected == |r.pushed|
    && |r.published| == r.s.counts.transformed
    && ShowsInOrder(r.published, r.publishedAt, r.pushed)
    && ShowsValid(r.published, r.s.format)
  }

  // One more push, shown or not, keeps the order.
  lemma ShownAppend(published: seq<Output>, at: seq<nat>, pushed: seq<Frame>, f: Frame, config: OutputConfig)
    requires ShowsInOrder(published, at, pushed)
    ensures ShowsInOrder(published, at, pushed + [f])
    ensures ShowsInOrder(published + [Output(f, config)], at + [|pushed|], pushed + [f])
  {
  }

  lemma PushKeepsInv(r: Run, f: Frame)
    requires Inv(r) && Fits(f)
    ensures Inv(Step(r, Push(f)))
    ensures PushedFrame(r.s, f).1 != TransformFailed
    ensures PushedFrame(r.s, f).1 == Success <==> ValidInput(f, r.s.format)
  {
    hide MinRowBytes, Admits, Measurable, Transformable, ValidInput, IntervalNs, ShowsInOrder, ValidCount;
    ValidCountAppend(r.pushed, f, r.s.format);
    ShownAppend(r.published, r.publishedAt, r.pushed, f, r.s.output);
    assert r.published + [] == r.published;
    if ValidInput(f, r.s.format) {
      ValidInputSuffices(f, r.s.format, r.s.output.rotation);
    }
  }

  predicate Fitting(events: seq<Event>) {
    forall e :: e in events && e.Push? ==> Fits(e.f)
  }

  lemma {:induction false} ExecKeepsInv(r: Run, events: seq<Event>)
    requires Inv(r) && Fitting(events)
    ensures Inv(Exec(r, events))
    decreases |events|
  {
    if events == [] {
    } else {
      match events[0]
      case Configure(c) =>
        ExecKeepsInv(Step(r, events[0]), events[1..]);
      case Push(f) =>
        PushKeepsInv(r, f);
        ExecKeepsInv(Step(r, events[0]), events[1..]);
    }
  }

  // Every push is received if it meets the input contract and rejected otherwise, and published or dropped. What is published are frames that
  // were pushed, in the order of the pushes and each at most once.
  lemma CoreConservation(format: StreamFormat, events: seq<Event>)
    requires Fitting(events)
    ensures var r := Exec(Start(format), events);
            && r.s.counts.received + r.rejected == r.s.counts.transformed + r.s.counts.dropped == |r.pushed|
            && r.s.counts.received == ValidCount(r.pushed, format)
            && |r.published| == r.s.counts.transformed
            && ShowsInOrder(r.published, r.publishedAt, r.pushed) && ShowsValid(r.published, r.s.format)
  {
    FormatStays(Start(format), events);
    ExecKeepsInv(Start(format), events);
  }

  lemma {:induction false} FormatStays(r: Run, events: seq<Event>)
    ensures Exec(r, events).s.format == r.s.format
    decreases |events|
  {
    if events == [] {
    } else {
      StepKeepsFormat(r, events[0]);
      FormatStays(Step(r, events[0]), events[1..]);
    }
  }

  lemma StepKeepsFormat(r: Run, e: Event)
    ensures Step(r, e).s.format == r.s.format
  {
  }

  // ---------------------------------------------------------------------------
  // Verdicts and configurations
  // ---------------------------------------------------------------------------

  // A frame of the stream's format that is refused is planar or too narrow; any other refused frame does
  // not match or carries nothing.
  lemma ValidationCodes(s: Stream, f: Frame)
    ensures Validation(s, f) == Success <==> ValidInput(f, s.format)
    ensures Validation(s, f) == Unsupported <==>
              f.hasData && f.width != 0 && f.height != 0
              && f.width == s.format.width && f.height == s.format.height && f.format == s.format.format && Planar(f.format)
    ensures Validation(s, f) in {Success, Unsupported, InvalidArgument}
  {
  }

  // What a configuration may ask for.
  lemma OutputLimits(c: OutputConfig)
    ensures ValidOutput(c) <==>
              && c.rotation in {0, 90, 180, 270}
              && ((c.width == 0 && c.height == 0) || (16 <= c.width <= 3840 && 16 <= c.height <= 3840))
              && (c.fps <= 0.0 || 1.0 <= c.fps <= 120.0)
              && c.paletteMin < c.paletteMax
  {
  }

  // A refused configuration changes nothing. An accepted one hides the published frame and raises the
  // generation, and the next valid frame is published under it whatever its timestamp.
  lemma ConfigurationStartsAfresh(format: StreamFormat, events: seq<Event>, c: OutputConfig, f: Frame)
    requires Fitting(events) && Fits(f) && ValidInput(f, format)
    ensures var r := Exec(Start(format), events);
            var r' := Step(r, Configure(c));
            if !ValidOutput(c) then r' == r
            else
              var next := c.(generation := r.s.output.generation + 1);
              && r'.s.output == next && r'.s.latest == None && r'.published == r.published && r'.s.counts == r.s.counts
              && Step(r', Push(f)).published == r.published + [Output(f, next)]
  {
    hide Exec, Start, MinRowBytes, Measurable, Transformable, ValidInput, IntervalNs, ShowsInOrder, ValidCount;
    StartsWithInv(format);
    ExecKeepsInv(Start(format), events);
    FormatStays(Start(format), events);
    if ValidOutput(c) {
      ValidInputSuffices(f, format, c.rotation);
    }
  }

  lemma StartsWithInv(format: StreamFormat)
    ensures Inv(Start(format)) && Start(format).s.format == format
  {
  }
}
