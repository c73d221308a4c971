// The capped round-robin sweep of one step, and how long a due stream can be passed over.
module Scheduler {
  import opened Bytes
  import opened FrameSlots

  // How one step went: how many positions it visited from its start, how many progressed,
  // the position after the last that progressed, and whether it ended in a failure.
  datatype Sweep = Sweep(visited: nat, progressed: nat, cursor: nat, failed: bool)

  // A sweep over `n` streams whose outcomes are given by position.
  function SweepFrom(n: nat, start: nat, cap: nat, outcome: nat -> StepResult, offset: nat, progressed: nat, cursor: nat): Sweep
    requires start < n && offset <= n
    decreases n - offset
  {
    if offset == n || (cap > 0 && progressed >= cap) then Sweep(offset, progressed, cursor, false)
    else
      var index := (start + offset) % n;
      match outcome(index)
      case Failed => Sweep(offset + 1, progressed, cursor, true)
      case Progressed => SweepFrom(n, start, cap, outcome, offset + 1, progressed + 1, (index + 1) % n)
      case Idle => SweepFrom(n, start, cap, outcome, offset + 1, progressed, cursor)
  }

  // The stored index after a sweep that did not fail.
  function NextIndex(sweep: Sweep, start: nat, orderSize: nat): nat
    requires orderSize > 0
  {
    (if sweep.progressed > 0 then sweep.cursor else start + 1) % orderSize
  }

  // Cyclic distance from position `from` forward to position `i`.
  function Distance(i: nat, from: nat, n: nat): (d: nat)
    requires i < n && from < n
    ensures d < n
  {
    if i >= from then i - from else i + n - from
  }

  function Wrap(x: nat, n: nat): nat
    requires x < 2 * n
  {
    if x < n then x else x - n
  }

  lemma WrapIsModulo(x: nat, n: nat)
    requires x < 2 * n
    ensures x % n == Wrap(x, n)
  {
    if x >= n {
      assert x == n + (x - n);
    }
  }

  // One call of step(): the outcomes it meets and the size of the stream order then.
  datatype StepCall = StepCall(outcome: nat -> StepResult, orderSize: nat)

  function SweepOf(n: nat, cap: nat, call: StepCall, index: nat): Sweep
    requires n > 0
  {
    SweepFrom(n, index % n, cap, call.outcome, 0, 0, index % n)
  }

  // The stored index after the call; a failing call returns before storing one.
  function IndexAfter(n: nat, cap: nat, call: StepCall, index: nat): nat
    requires n > 0 && call.orderSize > 0
  {
    var sweep := SweepOf(n, cap, call, index);
    if sweep.failed then index else NextIndex(sweep, index % n, call.orderSize)
  }

  // Whether position `i` is visited by one of the calls.
  predicate Served(n: nat, cap: nat, calls: seq<StepCall>, index: nat, i: nat)
    requires i < n && forall c :: c in calls ==> c.orderSize > 0
    decreases |calls|
  {
    calls != [] &&
    (Distance(i, index % n, n) < SweepOf(n, cap, calls[0], index).visited
     || Served(n, cap, calls[1..], IndexAfter(n, cap, calls[0], index), i))
  }

  // The cursor of a sweep is `c` past the start, after at least as many positions as progressed.
  lemma {:induction false} SweepCursor(n: nat, start: nat, cap: nat, outcome: nat -> StepResult,
                                       offset: nat, progressed: nat, cursor: nat, c0: nat) returns (c: nat)
    requires start < n && offset <= n && progressed <= c0 <= offset && cursor == Wrap(start + c0, n)
    ensures var s := SweepFrom(n, start, cap, outcome, offset, progressed, cursor);
            && s.progressed <= c <= s.visited <= n && s.cursor == Wrap(start + c, n)
            && (cap > 0 && progressed <= cap ==> s.progressed <= cap)
            && (s.visited < n && !s.failed ==> cap > 0 && s.progressed >= cap)
    decreases n - offset
  {
    c := c0;
    if offset == n || (cap > 0 && progressed >= cap) {
    } else {
      WrapIsModulo(start + offset, n);
      var index := (start + offset) % n;
      WrapIsModulo(index + 1, n);
      match outcome(index)
      case Failed =>
      case Progressed => c := SweepCursor(n, start, cap, outcome, offset + 1, progressed + 1, (index + 1) % n, offset + 1);
      case Idle => c := SweepCursor(n, start, cap, outcome, offset + 1, progressed, cursor, c0);
    }
  }

  // A sweep that ends before every failing position did not fail.
  lemma {:induction false} SweepSucceeds(n: nat, start: nat, cap: nat, outcome: nat -> StepResult,
                                         offset: nat, progressed: nat, cursor: nat, d: nat)
    requires start < n && offset <= n
    requires forall j: nat :: j < n && offset <= Distance(j, start, n) < d ==> outcome(j) != Failed
    ensures var s := SweepFrom(n, start, cap, outcome, offset, progressed, cursor); s.visited <= d ==> !s.failed
    decreases n - offset
  {
    if offset == n || (cap > 0 && progressed >= cap) {
    } else {
      WrapIsModulo(start + offset, n);
      var index := (start + offset) % n;
      assert Distance(index, start, n) == offset;
      match outcome(index)
      case Failed =>
      case Progressed => SweepSucceeds(n, start, cap, outcome, offset + 1, progressed + 1, (index + 1) % n, d);
      case Idle => SweepSucceeds(n, start, cap, outcome, offset + 1, progressed, cursor, d);
    }
  }

  // No sweep gets past a failing position, and one that reaches it fails.
  lemma {:induction false} SweepStopsAtFailure(n: nat, start: nat, cap: nat, outcome: nat -> StepResult,
                                               offset: nat, progressed: nat, cursor: nat, f: nat)
    requires start < n && f < n && offset <= Distance(f, start, n) && outcome(f) == Failed
    ensures var s := SweepFrom(n, start, cap, outcome, offset, progressed, cursor);
            s.visited <= Distance(f, start, n) + 1 && (s.visited == Distance(f, start, n) + 1 ==> s.failed)
    decreases n - offset
  {
    if cap > 0 && progressed >= cap {
    } else {
      WrapIsModulo(start + offset, n);
      var index := (start + offset) % n;
      assert Distance(index, start, n) == offset;
      match outcome(index)
      case Failed =>
      case Progressed => SweepStopsAtFailure(n, start, cap, outcome, offset + 1, progressed + 1, (index + 1) % n, f);
      case Idle => SweepStopsAtFailure(n, start, cap, outcome, offset + 1, progressed, cursor, f);
    }
  }

  // Where a sweep that stopped at the cap leaves the stored index: at least `cap` positions
  // further, but not past the positions it visited.
  lemma IndexAdvances(n: nat, cap: nat, call: StepCall, index: nat) returns (c: nat)
    requires 0 < n <= call.orderSize
    requires var s := SweepOf(n, cap, call, index); s.visited < n && !s.failed
    ensures 0 < cap <= c <= SweepOf(n, cap, call, index).visited
    ensures IndexAfter(n, cap, call, index) % n == Wrap(index % n + c, n)
  {
    hide SweepFrom, Distance, Wrap;
    var start := index % n;
    c := SweepCursor(n, start, cap, call.outcome, 0, 0, WrapStart(start, n), 0);
    var s := SweepOf(n, cap, call, index);
    WrapInRange(start + c, n);
    SmallModulo(s.cursor, call.orderSize);
    SmallModulo(s.cursor, n);
  }

  lemma WrapInRange(x: nat, n: nat)
    requires x < 2 * n
    ensures Wrap(x, n) < n
  {
  }

  // A call that passes a stream over brings the cursor at least `cap` positions closer to it, as
  // long as no position before it fails.
  lemma SkippingBringsCloser(n: nat, cap: nat, call: StepCall, index: nat, i: nat)
    requires i < n <= call.orderSize && NoneFailsBefore(n, call.outcome, index % n, i)
    requires SweepOf(n, cap, call, index).visited <= Distance(i, index % n, n)
    ensures 0 < cap <= Distance(i, index % n, n)
    ensures Distance(i, IndexAfter(n, cap, call, index) % n, n) <= Distance(i, index % n, n) - cap
    ensures forall j: nat :: j < n && Distance(j, IndexAfter(n, cap, call, index) % n, n) < Distance(i, IndexAfter(n, cap, call, index) % n, n)
              ==> Distance(j, index % n, n) < Distance(i, index % n, n)
  {
    hide SweepFrom, IndexAfter, Wrap;
    var start := index % n;
    SweepSucceeds(n, start, cap, call.outcome, 0, 0, start, Distance(i, start, n));
    var c := IndexAdvances(n, cap, call, index);
    DistanceShrinks(i, start, n, c);
    forall j: nat | j < n && Distance(j, Wrap(start + c, n), n) < Distance(i, Wrap(start + c, n), n)
      ensures Distance(j, start, n) < Distance(i, start, n)
    {
      DistanceGrowsBack(j, start, n, c);
    }
  }

  // The positions from the start up to `i`, exclusively, do not fail.
  ghost predicate NoneFailsBefore(n: nat, outcome: nat -> StepResult, start: nat, i: nat)
    requires i < n && start < n
  {
    forall j: nat :: j < n && Distance(j, start, n) < Distance(i, start, n) ==> outcome(j) != Failed
  }

  function WrapStart(start: nat, n: nat): (s: nat)
    requires start < n
    ensures s == start == Wrap(start + 0, n)
  {
    start
  }

  lemma SmallModulo(x: nat, m: nat)
    requires x < m
    ensures x % m == x
  {
  }

  lemma DistanceShrinks(i: nat, start: nat, n: nat, c: nat)
    requires i < n && start < n && c <= n
    ensures Wrap(start + c, n) < n
    ensures c <= Distance(i, start, n) ==> Distance(i, Wrap(start + c, n), n) == Distance(i, start, n) - c
  {
  }

  lemma DistanceGrowsBack(j: nat, start: nat, n: nat, c: nat)
    requires j < n && start < n && c <= n
    ensures Wrap(start + c, n) < n
    ensures Distance(j, Wrap(start + c, n), n) + c < n ==> Distance(j, start, n) == Distance(j, Wrap(start + c, n), n) + c
  {
  }

  predicate EnoughCalls(n: nat, cap: nat, calls: nat) {
    if cap == 0 then calls >= 1 else calls >= (n + cap - 1) / cap
  }

  // A position before which none fails is visited within ceil(n / cap) calls, and within one
  // call without a cap.
  lemma NoStarvation(n: nat, cap: nat, calls: seq<StepCall>, index: nat, i: nat)
    requires i < n && EnoughCalls(n, cap, |calls|)
    requires forall c :: c in calls ==> n <= c.orderSize && NoneFailsBefore(n, c.outcome, index % n, i)
    ensures Served(n, cap, calls, index, i)
  {
    if cap > 0 {
      CeilingCovers(n, cap, |calls|);
    }
    ServedWhenClose(n, cap, calls, index, i);
  }

  lemma CeilingCovers(n: nat, cap: nat, calls: nat)
    requires cap > 0 && calls >= (n + cap - 1) / cap
    ensures n <= calls * cap
  {
    var q := (n + cap - 1) / cap;
    assert q * cap >= n;
    assert (calls - q) * cap >= 0;
  }

  lemma {:induction false} ServedWhenClose(n: nat, cap: nat, calls: seq<StepCall>, index: nat, i: nat)
    requires i < n
    requires forall c :: c in calls ==> n <= c.orderSize && NoneFailsBefore(n, c.outcome, index % n, i)
    requires if cap == 0 then |calls| >= 1 else Distance(i, index % n, n) < |calls| * cap
    ensures Served(n, cap, calls, index, i)
    decreases |calls|
  {
    hide SweepOf, IndexAfter, Distance;
    assert calls != [];
    var call := calls[0];
    if SweepOf(n, cap, call, index).visited <= Distance(i, index % n, n) {
      SkippingBringsCloser(n, cap, call, index, i);
      assert (|calls| - 1) * cap == |calls| * cap - cap;
      ServedWhenClose(n, cap, calls[1..], IndexAfter(n, cap, call, index), i);
    }
  }

  // A call never visits a position behind one that fails, and leaves both where they were
  // relative to each other.
  lemma FailureBlocks(n: nat, cap: nat, call: StepCall, index: nat, f: nat, i: nat)
    requires f < n && i < n <= call.orderSize && call.outcome(f) == Failed
    requires Distance(f, index % n, n) < Distance(i, index % n, n)
    ensures SweepOf(n, cap, call, index).visited <= Distance(i, index % n, n)
    ensures var next := IndexAfter(n, cap, call, index); Distance(f, next % n, n) < Distance(i, next % n, n)
  {
    hide SweepFrom, Wrap;
    var start := index % n;
    SweepStopsAtFailure(n, start, cap, call.outcome, 0, 0, start, f);
    if !SweepOf(n, cap, call, index).failed {
      var c := IndexAdvances(n, cap, call, index);
      DistanceShrinks(f, start, n, c);
      DistanceShrinks(i, start, n, c);
    }
  }

  // A position that fails on every call starves every position behind it, for any number of calls.
  lemma {:induction false} FailureStarvesOthers(n: nat, cap: nat, calls: seq<StepCall>, index: nat, f: nat, i: nat)
    requires f < n && i < n && Distance(f, index % n, n) < Distance(i, index % n, n)
    requires forall c :: c in calls ==> n <= c.orderSize && c.outcome(f) == Failed
    ensures !Served(n, cap, calls, index, i)
    decreases |calls|
  {
    hide SweepOf, IndexAfter, Distance;
    if calls == [] {
    } else {
      FailureBlocks(n, cap, calls[0], index, f, i);
      FailureStarvesOthers(n, cap, calls[1..], IndexAfter(n, cap, calls[0], index), f, i);
    }
  }

  // When the same positions fail on every call, enough calls visit exactly the positions that
  // have no failing one before them.
  lemma ServedExactly(n: nat, cap: nat, calls: seq<StepCall>, index: nat, i: nat)
    requires i < n && EnoughCalls(n, cap, |calls|) && calls != []
    requires forall c :: c in calls ==>
               n <= c.orderSize && forall j: nat :: j < n ==> (c.outcome(j) == Failed <==> calls[0].outcome(j) == Failed)
    ensures Served(n, cap, calls, index, i) <==> NoneFailsBefore(n, calls[0].outcome, index % n, i)
  {
    hide Served, Distance;
    if NoneFailsBefore(n, calls[0].outcome, index % n, i) {
      forall c | c in calls
        ensures NoneFailsBefore(n, c.outcome, index % n, i)
      {
      }
      NoStarvation(n, cap, calls, index, i);
    } else {
      var f: nat :| f < n && Distance(f, index % n, n) < Distance(i, index % n, n) && calls[0].outcome(f) == Failed;
      FailureStarvesOthers(n, cap, calls, index, f, i);
    }
  }

  // What one call does, seen from the outside: at most `cap` positions progress, the positions visited are the
  // first ones from the stored index on, and the index moves right behind the last position that
  // progressed, or by one when none did.
  lemma CallExplained(n: nat, cap: nat, call: StepCall, index: nat)
    requires 0 < n <= call.orderSize && !SweepOf(n, cap, call, index).failed
    ensures SweepOf(n, cap, call, index).visited <= n
    ensures var s, next := SweepOf(n, cap, call, index), IndexAfter(n, cap, call, index);
            && (cap > 0 ==> s.progressed <= cap)
            && (s.visited < n ==> cap > 0 && s.progressed == cap)
            && s.progressed == ProgressedAmong(n, call.outcome, index % n, s.visited)
            && (s.progressed == 0 ==> next == (index % n + 1) % call.orderSize)
            && (s.progressed > 0 ==>
                  BehindLast(n, call.outcome, index % n, s.visited, s.cursor) && next == s.cursor % call.orderSize)
  {
    hide SweepFrom, Wrap, Distance, BehindLast;
    var start := index % n;
    var c := SweepCursor(n, start, cap, call.outcome, 0, 0, WrapStart(start, n), 0);
    SweepProgress(n, start, cap, call.outcome, 0, 0, start);
  }

  // The position that is `d` behind the start.
  function At(n: nat, start: nat, d: nat): nat
    requires start < n && d < n
  {
    Wrap(start + d, n)
  }

  // How many of the first `d` positions from the start on progress.
  function ProgressedAmong(n: nat, outcome: nat -> StepResult, start: nat, d: nat): nat
    requires start < n && d <= n
  {
    if d == 0 then 0
    else ProgressedAmong(n, outcome, start, d - 1) + (if outcome(At(n, start, d - 1)) == Progressed then 1 else 0)
  }

  // Of the first `visited` positions the one `d` behind the start is the last that progresses.
  ghost predicate LastProgress(n: nat, outcome: nat -> StepResult, start: nat, visited: nat, d: nat)
    requires start < n && visited <= n && d < visited
  {
    outcome(At(n, start, d)) == Progressed && forall e: nat :: d < e < visited ==> outcome(At(n, start, e)) != Progressed
  }

  // The cursor is right behind the last of the first `visited` positions that progresses.
  ghost predicate BehindLast(n: nat, outcome: nat -> StepResult, start: nat, visited: nat, cursor: nat)
    requires start < n && visited <= n
  {
    exists d: nat :: d < visited && LastProgress(n, outcome, start, visited, d) && cursor == Wrap(start + d + 1, n)
  }

  lemma BehindStays(n: nat, outcome: nat -> StepResult, start: nat, visited: nat, cursor: nat)
    requires start < n && visited < n && outcome(At(n, start, visited)) != Progressed
    requires BehindLast(n, outcome, start, visited, cursor)
    ensures BehindLast(n, outcome, start, visited + 1, cursor)
  {
    var d: nat :| d < visited && LastProgress(n, outcome, start, visited, d) && cursor == Wrap(start + d + 1, n);
    assert LastProgress(n, outcome, start, visited + 1, d);
  }

  lemma BehindMoves(n: nat, outcome: nat -> StepResult, start: nat, visited: nat)
    requires start < n && visited < n && outcome(At(n, start, visited)) == Progressed
    ensures BehindLast(n, outcome, start, visited + 1, (At(n, start, visited) + 1) % n)
  {
    AfterWrap(start, visited, n);
    assert LastProgress(n, outcome, start, visited + 1, visited);
  }

  // The count and the cursor of a sweep, from any position on.
  lemma {:induction false} SweepProgress(n: nat, start: nat, cap: nat, outcome: nat -> StepResult,
                                         offset: nat, progressed: nat, cursor: nat)
    requires start < n && offset <= n && progressed == ProgressedAmong(n, outcome, start, offset)
    requires progressed > 0 ==> BehindLast(n, outcome, start, offset, cursor)
    ensures var s := SweepFrom(n, start, cap, outcome, offset, progressed, cursor);
            && s.visited <= n
            && (!s.failed ==>
                  && s.progressed == ProgressedAmong(n, outcome, start, s.visited)
                  && (s.progressed > 0 ==> BehindLast(n, outcome, start, s.visited, s.cursor)))
    decreases n - offset
  {
    hide BehindLast;
    if offset == n || (cap > 0 && progressed >= cap) {
    } else {
      WrapIsModulo(start + offset, n);
      var index := (start + offset) % n;
      assert index == At(n, start, offset);
      match outcome(index)
      case Failed =>
      case Progressed =>
        BehindMoves(n, outcome, start, offset);
        SweepProgress(n, start, cap, outcome, offset + 1, progressed + 1, (index + 1) % n);
      case Idle =>
        if progressed > 0 {
          BehindStays(n, outcome, start, offset, cursor);
        }
        SweepProgress(n, start, cap, outcome, offset + 1, progressed, cursor);
    }
  }

  lemma AfterWrap(start: nat, offset: nat, n: nat)
    requires start < n && offset < n
    ensures (Wrap(start + offset, n) + 1) % n == Wrap(start + offset + 1, n)
  {
    WrapIsModulo(Wrap(start + offset, n) + 1, n);
  }
}
