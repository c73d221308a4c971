// The fixed-window rate limiter, and how many requests any window of time can get through.
module RateLimiter {
  import opened Bytes

  datatype Window = Window(start: int, count: nat)

  const FRESH := Window(0, 0)

  // One request on its bucket's window.
  function Consumed(w: Window, now: int, limit: nat, span: nat): (Window, bool) {
    if w.count == 0 || now - w.start >= span then (Window(now, 1), true)
    else if w.count >= limit then (w, false)
    else (w.(count := w.count + 1), true)
  }

  class RequestLimiter {
    var windows: map<string, Window>

    constructor ()
      ensures windows == map[]
    {
      windows := map[];
    }

    ghost function WindowOf(key: string): Window
      reads this
    {
      if key in windows then windows[key] else FRESH
    }

    // Buckets do not influence each other, and a limit or span of zero admits everything.
    method ConsumeRateLimit(key: string, now: int, limit: nat, span: nat) returns (accepted: bool)
      modifies this
      ensures limit == 0 || span == 0 ==> accepted && windows == old(windows)
      ensures limit > 0 && span > 0 ==>
                accepted == Consumed(old(WindowOf(key)), now, limit, span).1
                && windows == old(windows)[key := Consumed(old(WindowOf(key)), now, limit, span).0]
    {
      if limit == 0 || span == 0 {
        return true;
      }
      var w := if key in windows then windows[key] else FRESH;
      windows := windows[key := w];
      if w.count == 0 || now - w.start >= span {
        windows := windows[key := Window(now, 1)];
        return true;
      }
      if w.count >= limit {
        return false;
      }
      windows := windows[key := w.(count := w.count + 1)];
      return true;
    }
  }

  // ---------------------------------------------------------------------------
  // Whole runs of one bucket under a monotone clock
  // ---------------------------------------------------------------------------

  // Requests that a run accepts at times in [lo, hi).
  function AcceptedIn(times: seq<int>, w: Window, limit: nat, span: nat, lo: int, hi: int): nat {
    if times == [] then 0
    else
      var (w', accepted) := Consumed(w, times[0], limit, span);
      (if accepted && lo <= times[0] < hi then 1 else 0) + AcceptedIn(times[1..], w', limit, span, lo, hi)
  }

  // Start times of the windows that a run opens.
  function Openings(times: seq<int>, w: Window, limit: nat, span: nat): seq<int> {
    if times == [] then []
    else
      var (w', accepted) := Consumed(w, times[0], limit, span);
      (if w.count == 0 || times[0] - w.start >= span then [times[0]] else []) + Openings(times[1..], w', limit, span)
  }

  predicate Monotone(times: seq<int>) {
    forall i, j :: 0 <= i <= j < |times| ==> times[i] <= times[j]
  }

  // How many requests can still be accepted in [lo, lo + span) from here on.
  function Headroom(times: seq<int>, w: Window, limit: nat, span: nat, lo: int): int {
    if times == [] || times[0] >= lo + span then 0
    else if times[0] < lo then 2 * limit - 1
    else if w.count == 0 then limit
    else if w.start >= lo then limit - w.count
    else 2 * limit - w.count
  }

  lemma {:induction false} AcceptedWithinHeadroom(times: seq<int>, w: Window, limit: nat, span: nat, lo: int)
    requires limit >= 1 && span > 0 && Monotone(times) && w.count <= limit
    requires times != [] && w.count > 0 ==> w.start <= times[0]
    ensures AcceptedIn(times, w, limit, span, lo, lo + span) <= Headroom(times, w, limit, span, lo)
    decreases |times|
  {
    if times == [] {
    } else {
      var rest := times[1..];
      var (w', accepted) := Consumed(w, times[0], limit, span);
      assert forall i :: 0 <= i < |rest| ==> rest[i] == times[i + 1];
      assert Monotone(rest);
      if rest != [] {
        assert times[0] <= times[1] == rest[0];
      }
      AcceptedWithinHeadroom(rest, w', limit, span, lo);
    }
  }

  // Any half-open interval of one window span holds at most 2 * limit - 1 accepted requests.
  lemma AtMostTwiceTheLimit(times: seq<int>, limit: nat, span: nat, lo: int)
    requires limit >= 1 && span > 0 && Monotone(times)
    ensures AcceptedIn(times, FRESH, limit, span, lo, lo + span) <= 2 * limit - 1
  {
    AcceptedWithinHeadroom(times, FRESH, limit, span, lo);
  }

  // The window of a bucket after a run.
  function WindowAfter(times: seq<int>, w: Window, limit: nat, span: nat): Window {
    if times == [] then w else WindowAfter(times[1..], Consumed(w, times[0], limit, span).0, limit, span)
  }

  // What the window says of the run: it holds no more than the limit, began with a request, and counts
  // requests accepted since.
  lemma {:induction false} WindowCounts(times: seq<int>, w: Window, limit: nat, span: nat, lo: int, hi: int)
    requires limit >= 1 && span > 0 && Monotone(times) && w.count <= limit
    requires forall i :: 0 <= i < |times| ==> times[i] < hi
    requires times != [] && w.count > 0 ==> w.start <= times[0]
    ensures var w' := WindowAfter(times, w, limit, span);
            && w'.count <= limit && (w'.count > 0 ==> times != [] ==> w'.start <= times[|times| - 1])
            && (w'.count > 0 && lo <= w'.start ==>
                  w'.count <= AcceptedIn(times, w, limit, span, lo, hi) + (if lo <= w.start then w.count else 0))
    decreases |times|
  {
    if times == [] {
    } else {
      var rest := times[1..];
      var w1 := Consumed(w, times[0], limit, span).0;
      assert forall i :: 0 <= i < |rest| ==> rest[i] == times[i + 1];
      assert Monotone(rest);
      if rest != [] {
        assert times[0] <= times[1] == rest[0];
      }
      WindowCounts(rest, w1, limit, span, lo, hi);
    }
  }

  // No request is refused for nothing: after any run of a monotone clock a request is refused only if the limit
  // of requests was accepted less than one span before it. So one that arrives a full span after
  // the last accepted one, or in a bucket never used, is accepted.
  lemma RefusedOnlyWhenFull(times: seq<int>, now: int, limit: nat, span: nat)
    requires limit >= 1 && span > 0 && Monotone(times + [now])
    ensures !Consumed(WindowAfter(times, FRESH, limit, span), now, limit, span).1 ==>
              AcceptedIn(times, FRESH, limit, span, now - span + 1, now + 1) >= limit
  {
    var all := times + [now];
    forall i, j | 0 <= i <= j < |times|
      ensures times[i] <= times[j]
    {
      assert all[i] <= all[j];
    }
    forall i | 0 <= i < |times|
      ensures times[i] < now + 1
    {
      assert all[i] <= all[|times|];
    }
    WindowCounts(times, FRESH, limit, span, now - span + 1, now + 1);
  }

  // Successive windows open at least one span apart.
  lemma {:induction false} OpeningsAreApart(times: seq<int>, w: Window, limit: nat, span: nat)
    ensures var o := Openings(times, w, limit, span);
            && (o != [] && w.count > 0 ==> w.start + span <= o[0])
            && forall k :: 0 < k < |o| ==> o[k - 1] + span <= o[k]
    decreases |times|
  {
    if times == [] {
    } else {
      OpeningsAreApart(times[1..], Consumed(w, times[0], limit, span).0, limit, span);
    }
  }

  // ---------------------------------------------------------------------------
  // The bound is reached
  // ---------------------------------------------------------------------------

  function Repeat(t: int, k: nat): seq<int> {
    if k == 0 then [] else [t] + Repeat(t, k - 1)
  }

  // One request at 0, the rest of the limit just before the window ends, a full limit right after.
  function Burst(limit: nat, span: nat): seq<int>
    requires limit >= 1
  {
    [0] + (Repeat(span - 1, limit - 1) + Repeat(span, limit))
  }

  lemma {:induction false} RepeatedInWindow(t: int, k: nat, rest: seq<int>, w: Window, limit: nat, span: nat, lo: int, hi: int)
    requires 0 < w.count && w.count + k <= limit && t - w.start < span && lo <= t < hi
    ensures AcceptedIn(Repeat(t, k) + rest, w, limit, span, lo, hi)
            == k + AcceptedIn(rest, w.(count := w.count + k), limit, span, lo, hi)
    decreases k
  {
    if k == 0 {
      assert Repeat(t, k) + rest == rest;
    } else {
      var times := Repeat(t, k) + rest;
      assert times[0] == t && times[1..] == Repeat(t, k - 1) + rest;
      RepeatedInWindow(t, k - 1, rest, w.(count := w.count + 1), limit, span, lo, hi);
    }
  }

  // A burst around a window boundary gets exactly 2 * limit - 1 requests through in one span.
  lemma BoundIsReached(limit: nat, span: nat)
    requires limit >= 1 && span >= 2
    ensures AcceptedIn(Burst(limit, span), FRESH, limit, span, 1, 1 + span) == 2 * limit - 1
  {
    var before, after := Repeat(span - 1, limit - 1), Repeat(span, limit);
    var w := Window(0, 1);
    assert Burst(limit, span)[1..] == before + after;
    RepeatedInWindow(span - 1, limit - 1, after, w, limit, span, 1, 1 + span);
    assert after == [span] + Repeat(span, limit - 1);
    assert after[1..] == Repeat(span, limit - 1) + [];
    RepeatedInWindow(span, limit - 1, [], Window(span, 1), limit, span, 1, 1 + span);
  }

  lemma {:induction false} RepeatAt(t: int, k: nat)
    ensures |Repeat(t, k)| == k && forall i :: 0 <= i < k ==> Repeat(t, k)[i] == t
  {
    if k == 0 {
    } else {
      RepeatAt(t, k - 1);
    }
  }

  // The burst is a run of a monotone clock.
  lemma BurstIsMonotone(limit: nat, span: nat)
    requires limit >= 1 && span >= 1
    ensures Monotone(Burst(limit, span))
  {
    RepeatAt(span - 1, limit - 1);
    RepeatAt(span, limit);
    var b := Burst(limit, span);
    assert forall i :: 0 <= i < |b| ==> b[i] == if i == 0 then 0 else if i < limit then span - 1 else span;
  }
}
