// The frame-rate throttles of the core server, the raw pipeline and the managed server, and
// what the frames they keep have in common with the best possible choice.
module Throttle {
  import opened Bytes

  // ---------------------------------------------------------------------------
  // The three throttles, one frame at a time
  // ---------------------------------------------------------------------------

  // The interval of a frame rate, rounded to the nearest nanosecond.
  function IntervalNs(fps: real): (n: nat)
    requires fps > 0.0
  {
    (1000000000.0 / fps + 0.5).Floor
  }

  // It is within half a nanosecond of a second divided by the rate.
  lemma IntervalIsNearest(fps: real)
    requires fps > 0.0
    ensures -0.5 <= IntervalNs(fps) as real - 1000000000.0 / fps <= 0.5
    ensures -fps / 2.0 <= IntervalNs(fps) as real * fps - 1000000000.0 <= fps / 2.0
  {
    var exact, n := 1000000000.0 / fps, IntervalNs(fps) as real;
    assert n <= exact + 0.5 < n + 1.0;
    SecondOverRate(fps);
    Scaled(n, exact, fps, 1000000000.0);
  }

  lemma SecondOverRate(fps: real)
    requires fps > 0.0
    ensures 1000000000.0 / fps * fps == 1000000000.0
  {
  }

  lemma Scaled(n: real, exact: real, fps: real, second: real)
    requires fps > 0.0 && -0.5 <= n - exact <= 0.5 && exact * fps == second
    ensures -fps / 2.0 <= n * fps - second <= fps / 2.0
  {
    var d := n - exact;
    assert n * fps - exact * fps == d * fps;
    NotNegative(0.5 - d, fps);
    NotNegative(d + 0.5, fps);
    assert (0.5 - d) * fps == 0.5 * fps - d * fps;
    assert (d + 0.5) * fps == d * fps + 0.5 * fps;
  }

  lemma NotNegative(a: real, b: real)
    requires a >= 0.0 && b >= 0.0
    ensures a * b >= 0.0
  {
  }

  // For the rates that a stream configuration may ask for the interval is never zero.
  lemma IntervalBounds(fps: real)
    requires 1.0 <= fps <= 120.0
    ensures 8333333 <= IntervalNs(fps) <= 1000000000
  {
    assert 1000000000.0 / fps <= 1000000000.0 by {
      assert fps * (1000000000.0 / fps) == 1000000000.0;
    }
    assert 1000000000.0 / fps >= 8333333.0 by {
      assert fps * (1000000000.0 / fps) == 1000000000.0;
      assert 120.0 * 8333333.0 <= 1000000000.0;
    }
  }

  // The next admissible timestamp is a 64-bit sum; 0 means that none is set.
  function After(timestampNs: nat, interval: nat): nat {
    (timestampNs + interval) % U64
  }

  predicate CoreKeeps(next: nat, timestampNs: nat) {
    !(next > 0 && timestampNs < next)
  }

  predicate PipelineKeeps(next: nat, timestampNs: nat, interval: nat) {
    interval == 0 || next == 0 || timestampNs >= next
  }

  // The timestamp bound of one throttle object, updated in place.
  class FpsFilter {
    const interval: nat
    var nextAllowed: nat

    constructor (interval: nat)
      ensures this.interval == interval && nextAllowed == 0
    {
      this.interval := interval;
      nextAllowed := 0;
    }

    // The raw pipeline's throttle.
    method ShouldDropFrame(timestampNs: nat) returns (drop: bool)
      modifies this
      ensures drop == !PipelineKeeps(old(nextAllowed), timestampNs, interval)
      ensures nextAllowed == if drop || interval == 0 then old(nextAllowed) else After(timestampNs, interval)
    {
      if interval == 0 {
        return false;
      }
      if nextAllowed == 0 || timestampNs >= nextAllowed {
        nextAllowed := (timestampNs + interval) % U64;
        return false;
      }
      return true;
    }

    // A run of frames through the pipeline's throttle.
    method Run(timestamps: seq<nat>) returns (kept: seq<nat>)
      requires interval > 0 && nextAllowed == 0
      modifies this
      ensures kept == KeptFrom(timestamps, 0, 0, interval)
    {
      kept := [];
      var i := 0;
      while i < |timestamps|
        invariant i <= |timestamps|
        invariant KeptFrom(timestamps, 0, 0, interval) == kept + KeptFrom(timestamps, i, nextAllowed, interval)
      {
        var drop := ShouldDropFrame(timestamps[i]);
        if !drop {
          kept := kept + [i];
        }
        i := i + 1;
      }
    }
  }

  // ---------------------------------------------------------------------------
  // Runs
  // ---------------------------------------------------------------------------

  // Indices of the frames that the core throttle keeps from frame `i` on.
  function KeptFrom(ts: seq<nat>, i: nat, next: nat, interval: nat): (kept: seq<nat>)
    requires i <= |ts|
    ensures forall k :: 0 <= k < |kept| ==> i <= kept[k] < |ts|
    decreases |ts| - i
  {
    if i == |ts| then []
    else if CoreKeeps(next, ts[i]) then [i] + KeptFrom(ts, i + 1, After(ts[i], interval), interval)
    else KeptFrom(ts, i + 1, next, interval)
  }

  function PipelineKeptFrom(ts: seq<nat>, i: nat, next: nat, interval: nat): seq<nat>
    requires i <= |ts|
    decreases |ts| - i
  {
    if i == |ts| then []
    else if PipelineKeeps(next, ts[i], interval) then
      [i] + PipelineKeptFrom(ts, i + 1, if interval == 0 then next else After(ts[i], interval), interval)
    else PipelineKeptFrom(ts, i + 1, next, interval)
  }

  // For the same interval, core and pipeline keep the same frames.
  lemma {:induction false} SameFramesKept(ts: seq<nat>, i: nat, next: nat, interval: nat)
    requires i <= |ts| && interval > 0
    ensures PipelineKeptFrom(ts, i, next, interval) == KeptFrom(ts, i, next, interval)
    decreases |ts| - i
  {
    if i == |ts| {
    } else {
      SameFramesKept(ts, i + 1, if CoreKeeps(next, ts[i]) then After(ts[i], interval) else next, interval);
    }
  }

  // Indices of frames in order, each at least `interval` after the one before it.
  predicate Spaced(ts: seq<nat>, chosen: seq<nat>, interval: nat) {
    && (forall k :: 0 <= k < |chosen| ==> chosen[k] < |ts|)
    && (forall k :: 0 < k < |chosen| ==> chosen[k - 1] < chosen[k])
    && (forall k :: 0 < k < |chosen| ==> ts[chosen[k - 1]] + interval <= ts[chosen[k]])
  }

  // Timestamps are 64-bit.
  predicate Fit64(ts: seq<nat>) {
    forall k :: 0 <= k < |ts| ==> ts[k] < U64
  }

  predicate NonDecreasing(ts: seq<nat>) {
    forall j, k :: 0 <= j <= k < |ts| ==> ts[j] <= ts[k]
  }

  // The bound of no kept frame but the last exceeds 64 bits.
  predicate OnlyLastWraps(ts: seq<nat>, kept: seq<nat>, interval: nat)
    requires forall k :: 0 <= k < |kept| ==> kept[k] < |ts|
  {
    forall k :: 0 <= k < |kept| - 1 ==> ts[kept[k]] + interval < U64
  }

  // The bound holds every earlier frame back exactly when its sum does not wrap.
  lemma BoundHoldsUnlessItWraps(t: nat, interval: nat)
    requires t < U64 && 0 < interval < U64
    ensures (forall u: nat :: u < U64 && CoreKeeps(After(t, interval), u) ==> t + interval <= u) <==> t + interval < U64
    ensures (forall u: nat :: u < U64 && PipelineKeeps(After(t, interval), u, interval) ==> t + interval <= u) <==> t + interval < U64
  {
    if t + interval >= U64 {
      var u := After(t, interval);
      assert u < U64 && CoreKeeps(u, u) && PipelineKeeps(u, u, interval) && u < t + interval;
    }
  }

  lemma SpacedPrepend(ts: seq<nat>, i: nat, rest: seq<nat>, interval: nat)
    requires i < |ts|
    requires forall k :: 0 <= k < |rest| ==> i < rest[k] < |ts|
    ensures Spaced(ts, [i] + rest, interval) <==> Spaced(ts, rest, interval) && (rest != [] ==> ts[i] + interval <= ts[rest[0]])
  {
    var kept := [i] + rest;
    assert forall k :: 0 <= k < |rest| ==> kept[k + 1] == rest[k];
    if Spaced(ts, kept, interval) {
      forall k | 0 < k < |rest|
        ensures rest[k - 1] < rest[k] && ts[rest[k - 1]] + interval <= ts[rest[k]]
      {
        assert kept[k] == rest[k - 1] && kept[k + 1] == rest[k];
      }
      if rest != [] {
        assert kept[0] == i && kept[1] == rest[0];
      }
    } else {
      SpacedPrependOnly(ts, i, rest, interval);
    }
  }

  lemma SpacedPrependOnly(ts: seq<nat>, i: nat, rest: seq<nat>, interval: nat)
    requires i < |ts|
    requires forall k :: 0 <= k < |rest| ==> i < rest[k] < |ts|
    ensures Spaced(ts, rest, interval) && (rest != [] ==> ts[i] + interval <= ts[rest[0]]) ==> Spaced(ts, [i] + rest, interval)
  {
    var kept := [i] + rest;
    if Spaced(ts, rest, interval) && (rest != [] ==> ts[i] + interval <= ts[rest[0]]) {
      forall k | 0 < k < |kept|
        ensures kept[k - 1] < kept[k] && ts[kept[k - 1]] + interval <= ts[kept[k]]
      {
        assert kept[k] == rest[k - 1];
        assert k > 1 ==> kept[k - 1] == rest[k - 2];
      }
    }
  }

  lemma OnlyLastWrapsPrepend(ts: seq<nat>, i: nat, rest: seq<nat>, interval: nat)
    requires i < |ts|
    requires forall k :: 0 <= k < |rest| ==> i < rest[k] < |ts|
    ensures OnlyLastWraps(ts, [i] + rest, interval) <==>
            OnlyLastWraps(ts, rest, interval) && (rest != [] ==> ts[i] + interval < U64)
  {
    var kept := [i] + rest;
    assert forall k :: 0 <= k < |rest| ==> kept[k + 1] == rest[k];
    if OnlyLastWraps(ts, kept, interval) {
      forall k | 0 <= k < |rest| - 1
        ensures ts[rest[k]] + interval < U64
      {
        assert kept[k + 1] == rest[k];
      }
      assert kept[0] == i;
    }
  }

  lemma NothingIsSpaced(ts: seq<nat>, interval: nat)
    ensures Spaced(ts, [], interval) && OnlyLastWraps(ts, [], interval)
  {
  }

  // Kept frames are in order and start at or after `next`; they are at least one interval apart
  // exactly when no bound but the last one set wraps.
  lemma {:induction false} KeptAreSpaced(ts: seq<nat>, i: nat, next: nat, interval: nat)
    requires i <= |ts| && interval > 0 && Fit64(ts)
    ensures var kept := KeptFrom(ts, i, next, interval);
            && (Spaced(ts, kept, interval) <==> OnlyLastWraps(ts, kept, interval))
            && (kept != [] ==> next <= ts[kept[0]])
    decreases |ts| - i
  {
    hide Spaced, OnlyLastWraps;
    if i == |ts| {
      NothingIsSpaced(ts, interval);
    } else if CoreKeeps(next, ts[i]) {
      var bound := After(ts[i], interval);
      KeptAreSpaced(ts, i + 1, bound, interval);
      var rest := KeptFrom(ts, i + 1, bound, interval);
      SpacedPrepend(ts, i, rest, interval);
      OnlyLastWrapsPrepend(ts, i, rest, interval);
    } else {
      KeptAreSpaced(ts, i + 1, next, interval);
    }
  }

  function IndicesFrom(i: nat, n: nat): seq<nat>
    requires i <= n
  {
    seq(n - i, k requires 0 <= k < n - i => i + k)
  }

  lemma IndicesTurn(i: nat, n: nat)
    requires i < n
    ensures IndicesFrom(i, n) == [i] + IndicesFrom(i + 1, n)
  {
  }

  lemma NoIndices(n: nat)
    ensures IndicesFrom(n, n) == []
  {
  }

  // Successive frames are an interval apart.
  predicate EachAfter(ts: seq<nat>, interval: nat) {
    forall k :: 0 < k < |ts| ==> ts[k - 1] + interval <= ts[k]
  }

  // Frames that are already an interval apart are all kept.
  lemma {:induction false} SpacedAreAllKept(ts: seq<nat>, i: nat, next: nat, interval: nat)
    requires i <= |ts| && EachAfter(ts, interval)
    requires i < |ts| ==> next <= ts[i]
    ensures KeptFrom(ts, i, next, interval) == IndicesFrom(i, |ts|)
    decreases |ts| - i
  {
    hide IndicesFrom, EachAfter;
    if i == |ts| {
      NoIndices(|ts|);
    } else {
      IndicesTurn(i, |ts|);
      NextIsAfter(ts, i, interval);
      SpacedAreAllKept(ts, i + 1, After(ts[i], interval), interval);
    }
  }

  lemma NextIsAfter(ts: seq<nat>, i: nat, interval: nat)
    requires i < |ts| && EachAfter(ts, interval)
    ensures i + 1 < |ts| ==> After(ts[i], interval) <= ts[i + 1]
  {
  }

  // Without an interval the pipeline keeps every frame.
  lemma {:induction false} NoIntervalKeepsAll(ts: seq<nat>, i: nat, next: nat)
    requires i <= |ts|
    ensures PipelineKeptFrom(ts, i, next, 0) == IndicesFrom(i, |ts|)
    decreases |ts| - i
  {
    hide IndicesFrom;
    if i == |ts| {
      NoIndices(|ts|);
    } else {
      IndicesTurn(i, |ts|);
      NoIntervalKeepsAll(ts, i + 1, next);
    }
  }

  // Greedy stays ahead: no spaced choice of frames from `i` on that starts at or after `next` is longer.
  lemma {:induction false} KeptAreMost(ts: seq<nat>, i: nat, next: nat, interval: nat, chosen: seq<nat>)
    requires i <= |ts| && interval > 0 && NonDecreasing(ts)
    requires Spaced(ts, chosen, interval)
    requires forall k :: 0 <= k < |chosen| ==> i <= chosen[k]
    requires chosen != [] ==> next <= ts[chosen[0]]
    ensures |chosen| <= |KeptFrom(ts, i, next, interval)|
    decreases |ts| - i
  {
    if i == |ts| {
    } else if CoreKeeps(next, ts[i]) {
      if chosen != [] {
        var rest := chosen[1..];
        forall k | 0 <= k < |rest|
          ensures i + 1 <= rest[k]
        {
          ChosenAfterFirst(ts, chosen, interval, k + 1);
        }
        if rest != [] {
          assert ts[i] <= ts[chosen[0]];
          assert rest[0] == chosen[1];
        }
        assert Spaced(ts, rest, interval) by {
          forall k | 0 < k < |rest|
            ensures rest[k - 1] < rest[k] && ts[rest[k - 1]] + interval <= ts[rest[k]]
          {
            assert rest[k] == chosen[k + 1] && rest[k - 1] == chosen[k];
          }
        }
        KeptAreMost(ts, i + 1, After(ts[i], interval), interval, rest);
      }
    } else {
      forall k | 0 <= k < |chosen|
        ensures i + 1 <= chosen[k]
      {
        if k > 0 {
          ChosenAfterFirst(ts, chosen, interval, k);
        }
      }
      KeptAreMost(ts, i + 1, next, interval, chosen);
    }
  }

  lemma {:induction false} ChosenAfterFirst(ts: seq<nat>, chosen: seq<nat>, interval: nat, k: nat)
    requires Spaced(ts, chosen, interval) && 0 < k < |chosen|
    ensures chosen[0] < chosen[k]
    decreases k
  {
    if k == 1 {
    } else {
      ChosenAfterFirst(ts, chosen, interval, k - 1);
    }
  }

  // Over a whole run the kept frames are spaced exactly when no bound but the last wraps, and for
  // non-decreasing timestamps no spaced choice of frames is longer, wrapped bounds or not.
  lemma ThrottleIsOptimal(ts: seq<nat>, interval: nat, chosen: seq<nat>)
    requires interval > 0 && Fit64(ts)
    ensures var kept := KeptFrom(ts, 0, 0, interval);
            && (Spaced(ts, kept, interval) <==> OnlyLastWraps(ts, kept, interval))
            && (NonDecreasing(ts) && Spaced(ts, chosen, interval) ==> |chosen| <= |kept|)
  {
    KeptAreSpaced(ts, 0, 0, interval);
    if NonDecreasing(ts) && Spaced(ts, chosen, interval) {
      KeptAreMost(ts, 0, 0, interval, chosen);
    }
  }

  // With timestamps that jump back the kept frames can be fewer: after a frame at `high`, two spaced
  // frames that lie before its bound are both dropped.
  lemma BackwardJumpIsNotOptimal(high: nat, low: nat, later: nat, interval: nat)
    requires interval > 0 && high + interval < U64 && low + interval <= later < high + interval
    ensures var ts := [high, low, later];
            Spaced(ts, [1, 2], interval) && KeptFrom(ts, 0, 0, interval) == [0]
  {
    var ts, bound := [high, low, later], high + interval;
    assert KeptFrom(ts, 3, bound, interval) == [];
    assert KeptFrom(ts, 2, bound, interval) == [];
    assert KeptFrom(ts, 1, bound, interval) == [];
  }
}
