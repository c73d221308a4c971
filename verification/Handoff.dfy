// The bounded handoff between the encoder side and the API side. Its backlog is proved to
// be a function of the history of calls: the newest keyframe and the newest units after it.
module Handoff {
  import opened Bytes

  datatype Unit = Unit(payload: seq<byte>, keyframe: bool, codecConfig: bool)

  datatype Op = Push(u: Unit) | Drain | Clear

  // ---------------------------------------------------------------------------
  // The specification
  // ---------------------------------------------------------------------------

  // Frame units pushed since the last drain or clear, oldest first.
  function Since(h: seq<Op>): seq<Unit> {
    if h == [] then []
    else
      var before := h[..|h| - 1];
      match h[|h| - 1]
      case Push(u) => if u.codecConfig then Since(before) else Since(before) + [u]
      case Drain => []
      case Clear => []
  }

  // The codec configuration pushed last, unless cleared since.
  function ConfigOf(h: seq<Op>): Option<Unit> {
    if h == [] then None
    else
      var before := h[..|h| - 1];
      match h[|h| - 1]
      case Push(u) => if u.codecConfig then Some(u) else ConfigOf(before)
      case Drain => ConfigOf(before)
      case Clear => None
  }

  function Newest(us: seq<Unit>, n: nat): (r: seq<Unit>)
    ensures |r| == Min(n, |us|)
  {
    if |us| <= n then us else us[|us| - n..]
  }

  predicate HasKeyframe(us: seq<Unit>) {
    exists i :: 0 <= i < |us| && us[i].keyframe
  }

  // Index of the last keyframe, or the length when there is none.
  function LastKeyframe(us: seq<Unit>): (k: nat)
    ensures k <= |us|
    ensures k < |us| ==> us[k].keyframe
    ensures forall i :: k < i < |us| ==> !us[i].keyframe
    ensures k == |us| <==> !HasKeyframe(us)
  {
    if us == [] then 0
    else if us[|us| - 1].keyframe then |us| - 1
    else
      var k := LastKeyframe(us[..|us| - 1]);
      assert forall i :: 0 <= i < |us| - 1 ==> us[..|us| - 1][i] == us[i];
      if k == |us| - 1 then |us| else k
  }

  // What is retained of the pushed units: the last keyframe followed by the newest max-1
  // units after it, or the newest max units when there was no keyframe.
  function Window(us: seq<Unit>, max: nat): (w: seq<Unit>)
    requires max > 0
    ensures |w| <= max
  {
    var k := LastKeyframe(us);
    if k == |us| then Newest(us, max) else [us[k]] + Newest(us[k + 1..], max - 1)
  }

  function DrainedBy(h: seq<Op>, max: nat): seq<Unit>
    requires max > 0
  {
    (if ConfigOf(h).Some? && HasKeyframe(Since(h)) then [ConfigOf(h).value] else []) + Window(Since(h), max)
  }

  // Frame units ever pushed, and those that left the backlog through a drain or a clear.
  function Pushed(h: seq<Op>): nat {
    if h == [] then 0
    else
      match h[|h| - 1]
      case Push(u) => Pushed(h[..|h| - 1]) + (if u.codecConfig then 0 else 1)
      case Drain => Pushed(h[..|h| - 1])
      case Clear => Pushed(h[..|h| - 1])
  }

  function Removed(h: seq<Op>, max: nat): nat
    requires max > 0
  {
    if h == [] then 0
    else
      var before := h[..|h| - 1];
      match h[|h| - 1]
      case Push(u) => Removed(before, max)
      case Drain => Removed(before, max) + |Window(Since(before), max)|
      case Clear => Removed(before, max) + |Window(Since(before), max)|
  }

  // ---------------------------------------------------------------------------
  // One push, seen on the backlog alone
  // ---------------------------------------------------------------------------

  function PushBacklog(b: seq<Unit>, u: Unit, max: nat): seq<Unit> {
    if u.keyframe then [u]
    else if |b| < max || b == [] then b + [u]
    else if !b[0].keyframe then b[1..] + [u]
    else if |b| == 1 then b
    else [b[0]] + b[2..] + [u]
  }

  lemma LastKeyframeAppend(us: seq<Unit>, u: Unit)
    ensures LastKeyframe(us + [u]) ==
            if u.keyframe then |us| else if LastKeyframe(us) == |us| then |us| + 1 else LastKeyframe(us)
  {
    assert (us + [u])[..|us|] == us;
  }

  lemma NewestAppend(us: seq<Unit>, u: Unit, n: nat)
    ensures Newest(us + [u], n) ==
            if n == 0 then [] else if |us| < n then us + [u] else Newest(us, n)[1..] + [u]
    ensures |us| <= n ==> Newest(us, n) == us
  {
  }

  // The retained window changes by one push exactly as the backlog does.
  lemma WindowAfterPush(us: seq<Unit>, u: Unit, max: nat)
    requires max > 0
    ensures Window(us + [u], max) == PushBacklog(Window(us, max), u, max)
  {
    hide LastKeyframe, Newest;
    LastKeyframeAppend(us, u);
    var k := LastKeyframe(us);
    if u.keyframe {
      assert (us + [u])[|us| + 1..] == [];
    } else if k == |us| {
      NewestAppend(us, u, max);
      NoKeyframeInNewest(us, max);
    } else {
      assert (us + [u])[k + 1..] == us[k + 1..] + [u];
      NewestAppend(us[k + 1..], u, max - 1);
      WindowAfterInterUnit(us[k], us[k + 1..], u, max);
    }
  }

  lemma WindowAfterInterUnit(key: Unit, tail: seq<Unit>, u: Unit, max: nat)
    requires max > 0 && key.keyframe && !u.keyframe
    ensures [key] + Newest(tail + [u], max - 1) == PushBacklog([key] + Newest(tail, max - 1), u, max)
  {
    hide Newest;
    NewestAppend(tail, u, max - 1);
    var n := Newest(tail, max - 1);
    var b := [key] + n;
    if |tail| >= max - 1 && max > 1 {
      assert b[2..] == n[1..];
      assert [b[0]] + b[2..] + [u] == [key] + (n[1..] + [u]);
    } else if max > 1 {
      assert b + [u] == [key] + (tail + [u]);
    }
  }

  lemma NoKeyframeInNewest(us: seq<Unit>, n: nat)
    requires LastKeyframe(us) == |us|
    ensures forall i :: 0 <= i < |Newest(us, n)| ==> !Newest(us, n)[i].keyframe
    ensures |us| < n ==> Newest(us, n) == us
  {
    hide LastKeyframe;
  }

  // A keyframe is in the window exactly when one was pushed, and then it is the first unit.
  lemma WindowKeyframe(us: seq<Unit>, max: nat)
    requires max > 0
    ensures HasKeyframe(Window(us, max)) <==> HasKeyframe(us)
    ensures HasKeyframe(us) ==> Window(us, max)[0] == us[LastKeyframe(us)]
  {
    var k := LastKeyframe(us);
    if k < |us| {
      assert Window(us, max)[0].keyframe;
      assert us[k].keyframe;
    } else {
      NoKeyframeInNewest(us, max);
    }
  }

  lemma NewestAt(us: seq<Unit>, n: nat, i: nat)
    requires i < |Newest(us, n)|
    ensures Newest(us, n)[i] == us[|us| - |Newest(us, n)| + i]
  {
  }

  // Every unit the window holds after its keyframe is one of the units pushed after it, in order.
  lemma WindowIsRecent(us: seq<Unit>, max: nat, i: nat)
    requires max > 0 && LastKeyframe(us) < |us| && 0 < i < |Window(us, max)|
    ensures var w, k := Window(us, max), LastKeyframe(us);
            |w| <= |us| - k && w[i] == us[|us| - |w| + i] && !w[i].keyframe
  {
    hide LastKeyframe, Newest;
    var k := LastKeyframe(us);
    var tail := us[k + 1..];
    NewestAt(tail, max - 1, i - 1);
    assert Window(us, max)[i] == Newest(tail, max - 1)[i - 1];
  }

  // ---------------------------------------------------------------------------
  // The handoff object
  // ---------------------------------------------------------------------------

  class EncodedAccessUnitHandoff {
    const maxUnits: nat
    var cachedCodecConfig: Option<Unit>
    var backlog: seq<Unit>
    var dropped: nat
    // Every call so far.
    ghost var history: seq<Op>

    // The whole state is determined by the history, and no unit is unaccounted for.
    ghost predicate Valid()
      reads this
    {
      && maxUnits > 0
      && backlog == Window(Since(history), maxUnits)
      && cachedCodecConfig == ConfigOf(history)
      && Pushed(history) == dropped + Removed(history, maxUnits) + |backlog|
    }

    constructor (maxUnits: nat)
      ensures Valid() && history == [] && this.maxUnits == Max(1, maxUnits)
    {
      this.maxUnits := Max(1, maxUnits);
      cachedCodecConfig, backlog, dropped, history := None, [], 0, [];
    }

    method PushUnit(u: Unit)
      requires Valid()
      modifies this
      ensures Valid() && history == old(history) + [Push(u)]
    {
      hide Window;
      history := history + [Push(u)];
      assert history[..|history| - 1] == old(history);
      if u.codecConfig {
        cachedCodecConfig := Some(u);
        return;
      }
      WindowAfterPush(Since(old(history)), u, maxUnits);
      if u.keyframe {
        dropped := dropped + |backlog|;
        backlog := [];
        backlog := backlog + [u];
        return;
      }
      if backlog == [] {
        backlog := backlog + [u];
        return;
      }
      while |backlog| >= maxUnits
        invariant backlog != [] || maxUnits == 1
        invariant backlog == old(backlog) || (|backlog| < maxUnits && PushBacklog(old(backlog), u, maxUnits) == backlog + [u])
        invariant dropped + |backlog| == old(dropped) + old(|backlog|)
        invariant history == old(history) + [Push(u)] && cachedCodecConfig == old(cachedCodecConfig)
      {
        var dropAt := 0;
        if backlog[0].keyframe {
          if |backlog| == 1 {
            dropped := dropped + 1;
            return;
          }
          dropAt := 1;
        }
        backlog := backlog[..dropAt] + backlog[dropAt + 1..];
        dropped := dropped + 1;
      }
      backlog := backlog + [u];
    }

    method DrainUnits() returns (units: seq<Unit>)
      requires Valid()
      modifies this
      ensures Valid() && history == old(history) + [Drain]
      ensures units == DrainedBy(old(history), maxUnits)
    {
      hide Window, Since, ConfigOf;
      WindowKeyframe(Since(history), maxUnits);
      units := [];
      var includeCodecConfig := cachedCodecConfig.Some? && exists i :: 0 <= i < |backlog| && backlog[i].keyframe;
      assert includeCodecConfig <==> cachedCodecConfig.Some? && HasKeyframe(backlog);
      if includeCodecConfig {
        units := units + [cachedCodecConfig.value];
      }
      ghost var first := units;
      while backlog != []
        invariant units + backlog == first + old(backlog)
        invariant cachedCodecConfig == old(cachedCodecConfig) && dropped == old(dropped) && history == old(history)
        decreases |backlog|
      {
        units := units + [backlog[0]];
        backlog := backlog[1..];
      }
      assert units == units + backlog;
      history := history + [Drain];
      AfterRemoval(old(history), Drain, maxUnits);
      EmptyWindow(maxUnits);
    }

    method ClearUnits()
      requires Valid()
      modifies this
      ensures Valid() && history == old(history) + [Clear]
    {
      cachedCodecConfig := None;
      backlog := [];
      history := history + [Clear];
      AfterRemoval(old(history), Clear, maxUnits);
      EmptyWindow(maxUnits);
    }
  }

  lemma AfterRemoval(h: seq<Op>, op: Op, max: nat)
    requires max > 0 && (op == Drain || op == Clear)
    ensures Since(h + [op]) == [] && ConfigOf(h + [op]) == (if op == Drain then ConfigOf(h) else None)
    ensures Pushed(h + [op]) == Pushed(h) && Removed(h + [op], max) == Removed(h, max) + |Window(Since(h), max)|
  {
    hide Window;
    assert (h + [op])[..|h|] == h;
  }

  lemma EmptyWindow(max: nat)
    requires max > 0
    ensures Window([], max) == []
  {
  }

  // ---------------------------------------------------------------------------
  // What a drain delivers, for every history
  // ---------------------------------------------------------------------------

  // If a keyframe was pushed since the last drain, the delivery is the cached configuration
  // (when there is one), the newest keyframe, then only units newer than that keyframe.
  lemma DrainStartsDecodable(h: seq<Op>, max: nat)
    requires max > 0 && HasKeyframe(Since(h))
    ensures var us, d := Since(h), DrainedBy(h, max);
            var k := LastKeyframe(us);
            var c := if ConfigOf(h).Some? then 1 else 0;
            && |d| >= c + 1 && d[c] == us[k] && us[k].keyframe
            && (c == 1 ==> d[0] == ConfigOf(h).value && d[0].codecConfig)
            && forall i :: c < i < |d| ==> !d[i].keyframe && |us| - |d| + i > k && d[i] == us[|us| - |d| + i]
  {
    hide Since, ConfigOf, Window, LastKeyframe, DrainedBy, HasKeyframe;
    var us, d := Since(h), DrainedBy(h, max);
    var k := LastKeyframe(us);
    var c := if ConfigOf(h).Some? then 1 else 0;
    ConfigIsConfig(h);
    WindowStartsWithKeyframe(us, max);
    DrainedShape(h, max);
    DrainedAt(h, max, c);
    forall i | c < i < |d|
      ensures !d[i].keyframe && |us| - |d| + i > k && d[i] == us[|us| - |d| + i]
    {
      DrainedAt(h, max, i);
      WindowIsRecent(us, max, i - c);
    }
  }

  lemma DrainedShape(h: seq<Op>, max: nat)
    requires max > 0 && HasKeyframe(Since(h))
    ensures |DrainedBy(h, max)| == (if ConfigOf(h).Some? then 1 else 0) + |Window(Since(h), max)|
    ensures ConfigOf(h).Some? ==> DrainedBy(h, max)[0] == ConfigOf(h).value
  {
    hide Since, ConfigOf, Window, HasKeyframe;
  }

  lemma DrainedAt(h: seq<Op>, max: nat, i: nat)
    requires max > 0 && HasKeyframe(Since(h))
    requires (if ConfigOf(h).Some? then 1 else 0) <= i < |DrainedBy(h, max)|
    ensures var at := i - (if ConfigOf(h).Some? then 1 else 0);
            at < |Window(Since(h), max)| && DrainedBy(h, max)[i] == Window(Since(h), max)[at]
  {
    hide Since, ConfigOf, Window, HasKeyframe;
  }

  lemma WindowStartsWithKeyframe(us: seq<Unit>, max: nat)
    requires max > 0 && HasKeyframe(us)
    ensures LastKeyframe(us) < |us| && us[LastKeyframe(us)].keyframe
    ensures Window(us, max) != [] && Window(us, max)[0] == us[LastKeyframe(us)]
  {
    hide LastKeyframe;
  }

  lemma {:induction false} ConfigIsConfig(h: seq<Op>)
    ensures ConfigOf(h).Some? ==> ConfigOf(h).value.codecConfig
  {
    if h == [] {
    } else {
      ConfigIsConfig(h[..|h| - 1]);
    }
  }

  // How much is kept: everything from the newest keyframe on, or everything, up to the capacity.
  lemma WindowSize(us: seq<Unit>, max: nat)
    requires max > 0
    ensures |Window(us, max)| == Min(max, if HasKeyframe(us) then |us| - LastKeyframe(us) else |us|)
    ensures !HasKeyframe(us) ==> Window(us, max) == us[|us| - |Window(us, max)|..]
  {
    hide LastKeyframe;
  }

  // Without a keyframe a drain delivers the newest units up to the capacity and no configuration.
  lemma DrainWithoutKeyframe(h: seq<Op>, max: nat)
    requires max > 0 && !HasKeyframe(Since(h))
    ensures var us, d := Since(h), DrainedBy(h, max);
            |d| == Min(max, |us|) && d == us[|us| - |d|..]
  {
    hide Since, ConfigOf, Window, HasKeyframe;
    WindowSize(Since(h), max);
    assert [] + Window(Since(h), max) == Window(Since(h), max);
  }

  // With one, a drain delivers as much as the capacity allows of the newest keyframe and what followed.
  lemma DrainSize(h: seq<Op>, max: nat)
    requires max > 0 && HasKeyframe(Since(h))
    ensures |DrainedBy(h, max)| == (if ConfigOf(h).Some? then 1 else 0) + Min(max, |Since(h)| - LastKeyframe(Since(h)))
  {
    hide Since, ConfigOf, Window, HasKeyframe, LastKeyframe, DrainedBy;
    WindowSize(Since(h), max);
    DrainedShape(h, max);
  }

  // The units of the pushes that are no configuration, in order.
  function FrameUnits(pushes: seq<Unit>): seq<Unit> {
    if pushes == [] then []
    else
      var last := pushes[|pushes| - 1];
      FrameUnits(pushes[..|pushes| - 1]) + (if last.codecConfig then [] else [last])
  }

  function Pushes(us: seq<Unit>): seq<Op> {
    seq(|us|, i requires 0 <= i < |us| => Push(us[i]))
  }

  // After a drain or a clear the history starts afresh for frame units: they are those pushed since.
  lemma {:induction false} SinceRemoval(h: seq<Op>, removal: Op, us: seq<Unit>)
    requires removal == Drain || removal == Clear
    ensures Since(h + [removal] + Pushes(us)) == FrameUnits(us)
  {
    var all := h + [removal] + Pushes(us);
    if us == [] {
      assert all == h + [removal] && all[..|h|] == h;
    } else {
      var init := us[..|us| - 1];
      assert Pushes(us)[..|us| - 1] == Pushes(init);
      assert all[..|all| - 1] == h + [removal] + Pushes(init);
      SinceRemoval(h, removal, init);
    }
  }

  // The configuration pushed last is kept over drains and frame units, until the next one or a clear.
  lemma {:induction false} ConfigIsKept(h: seq<Op>, c: Unit, more: seq<Op>)
    requires c.codecConfig
    requires forall op :: op in more ==> op != Clear && (op.Push? ==> !op.u.codecConfig)
    ensures ConfigOf(h + [Push(c)] + more) == Some(c)
  {
    var all := h + [Push(c)] + more;
    if more == [] {
      assert all == h + [Push(c)] && all[..|h|] == h;
    } else {
      var init := more[..|more| - 1];
      assert all[..|all| - 1] == h + [Push(c)] + init;
      assert more[|more| - 1] in more;
      forall op | op in init ensures op in more {}
      ConfigIsKept(h, c, init);
    }
  }

  // After a clear there is none until the next one is pushed.
  lemma {:induction false} ClearForgetsConfig(h: seq<Op>, more: seq<Op>)
    requires forall op :: op in more && op.Push? ==> !op.u.codecConfig
    ensures ConfigOf(h + [Clear] + more) == None
  {
    var all := h + [Clear] + more;
    if more == [] {
      assert all == h + [Clear] && all[..|h|] == h;
    } else {
      var init := more[..|more| - 1];
      assert all[..|all| - 1] == h + [Clear] + init;
      assert more[|more| - 1] in more;
      forall op | op in init ensures op in more {}
      ClearForgetsConfig(h, init);
    }
  }
}
