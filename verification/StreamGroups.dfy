// Exclusive stream groups: which group owns which stream, over every run of
// registrations, removals, group acquisitions and group releases.
module StreamGroups {
  import opened Bytes

  // Owner of each registered stream (0 when none), and the id for the next group.
  datatype Registry = Registry(owners: map<string, nat>, nextGroup: nat)

  predicate Distinct(ids: seq<string>) {
    forall i, j :: 0 <= i < j < |ids| ==> ids[i] != ids[j]
  }

  // A group can be formed from distinct, registered, unowned streams.
  predicate Acquirable(owners: map<string, nat>, ids: seq<string>) {
    ids != [] && Distinct(ids) && forall k :: 0 <= k < |ids| ==> ids[k] in owners && owners[ids[k]] == 0
  }

  function Assign(owners: map<string, nat>, ids: seq<string>, group: nat): (r: map<string, nat>)
    ensures r.Keys == owners.Keys
    ensures forall id :: id in owners ==> r[id] == if id in ids then group else owners[id]
  {
    map id | id in owners :: if id in ids then group else owners[id]
  }

  function Acquired(r: Registry, ids: seq<string>): (Registry, Option<nat>) {
    if Acquirable(r.owners, ids) then
      (Registry(Assign(r.owners, ids, r.nextGroup), r.nextGroup + 1), Some(r.nextGroup))
    else (r, None)
  }

  // Only streams that still carry the group's id are freed.
  function Freed(owners: map<string, nat>, group: nat, ids: seq<string>): (r: map<string, nat>)
    ensures r.Keys == owners.Keys
    ensures forall id :: id in owners ==> r[id] == if id in ids && owners[id] == group then 0 else owners[id]
  {
    map id | id in owners :: if id in ids && owners[id] == group then 0 else owners[id]
  }

  predicate Removable(owners: map<string, nat>, id: string) {
    id in owners && owners[id] == 0
  }

  // ---------------------------------------------------------------------------
  // Runs: the groups alive are those whose handle exists
  // ---------------------------------------------------------------------------

  datatype Event = Register(id: string) | Remove(id: string) | Acquire(ids: seq<string>) | Release(group: nat)

  // `live` maps each live group to its streams, `issued` lists all group ids handed out.
  datatype Run = Run(r: Registry, live: map<nat, seq<string>>, issued: seq<nat>)

  function Start(): Run {
    Run(Registry(map[], 1), map[], [])
  }

  function Step(run: Run, e: Event): Run {
    match e
    case Register(id) =>
      if id in run.r.owners then run else run.(r := run.r.(owners := run.r.owners[id := 0]))
    case Remove(id) =>
      if Removable(run.r.owners, id) then run.(r := run.r.(owners := run.r.owners - {id})) else run
    case Acquire(ids) =>
      var (r', group) := Acquired(run.r, ids);
      if group.Some? then Run(r', run.live[group.value := ids], run.issued + [group.value]) else run
    case Release(group) =>
      if group in run.live then
        run.(r := run.r.(owners := Freed(run.r.owners, group, run.live[group])), live := run.live - {group})
      else run
  }

  function Exec(run: Run, events: seq<Event>): Run
    decreases |events|
  {
    if events == [] then run else Exec(Step(run, events[0]), events[1..])
  }

  // A stream carries a group's id exactly when it is one of that live group's streams.
  ghost predicate Exclusive(run: Run) {
    forall g, id :: g in run.live ==> (id in run.live[g] <==> id in run.r.owners && run.r.owners[id] == g)
  }

  ghost predicate Inv(run: Run) {
    && run.r.nextGroup > 0
    && Exclusive(run)
    && (forall g :: g in run.live ==> 0 < g < run.r.nextGroup && run.live[g] != [])
    && (forall id :: id in run.r.owners && run.r.owners[id] != 0 ==> run.r.owners[id] in run.live)
    && (forall k :: 0 <= k < |run.issued| ==> 0 < run.issued[k] < run.r.nextGroup)
    && (forall k :: 0 < k < |run.issued| ==> run.issued[k - 1] < run.issued[k])
  }

  lemma StepKeepsInv(run: Run, e: Event)
    requires Inv(run)
    ensures Inv(Step(run, e))
  {
    match e
    case Register(id) =>
    case Remove(id) =>
    case Acquire(ids) => AcquireKeepsInv(run, ids);
    case Release(group) =>
  }

  lemma AcquireKeepsInv(run: Run, ids: seq<string>)
    requires Inv(run)
    ensures Inv(Step(run, Acquire(ids)))
  {
    var run' := Step(run, Acquire(ids));
    if Acquirable(run.r.owners, ids) {
      var n := run.r.nextGroup;
      forall g, id | g in run'.live
        ensures id in run'.live[g] <==> id in run'.r.owners && run'.r.owners[id] == g
      {
        if id in ids {
          var k :| 0 <= k < |ids| && ids[k] == id;
          assert run.r.owners[id] == 0;
        }
        if g != n {
          assert g in run.live;
        }
      }
    }
  }

  lemma {:induction false} ExecKeepsInv(run: Run, events: seq<Event>)
    requires Inv(run)
    ensures Inv(Exec(run, events))
    decreases |events|
  {
    hide Inv, Step;
    if events == [] {
    } else {
      StepKeepsInv(run, events[0]);
      ExecKeepsInv(Step(run, events[0]), events[1..]);
    }
  }

  // In every reachable state ownership is exclusive: the streams of a live group are exactly
  // those that carry its id, two live groups share none, and no group id was ever issued twice.
  lemma OwnershipIsExclusive(events: seq<Event>)
    ensures var run := Exec(Start(), events);
            && Exclusive(run)
            && (forall g, h, id :: g in run.live && h in run.live && id in run.live[g] && id in run.live[h] ==> g == h)
            && (forall i, j :: 0 <= i < j < |run.issued| ==> run.issued[i] < run.issued[j])
  {
    hide Exec;
    var run := Exec(Start(), events);
    assert Inv(Start());
    ExecKeepsInv(Start(), events);
    forall g, h, id | g in run.live && h in run.live && id in run.live[g] && id in run.live[h]
      ensures g == h
    {
      assert id in run.r.owners && run.r.owners[id] == g;
    }
    forall i, j | 0 <= i < j < |run.issued|
      ensures run.issued[i] < run.issued[j]
    {
      IssuedIncrease(run.issued, i, j);
    }
  }

  lemma {:induction false} IssuedIncrease(issued: seq<nat>, i: nat, j: nat)
    requires i < j < |issued| && forall k :: 0 < k < |issued| ==> issued[k - 1] < issued[k]
    ensures issued[i] < issued[j]
    decreases j - i
  {
    if i + 1 == j {
    } else {
      IssuedIncrease(issued, i, j - 1);
    }
  }

  // Releasing a live group frees exactly its own streams, and a stream it owned can then be removed.
  lemma ReleaseFreesExactlyItsStreams(events: seq<Event>, group: nat, id: string)
    requires var run := Exec(Start(), events); group in run.live && id in run.r.owners
    ensures var run := Exec(Start(), events);
            var after := Step(run, Release(group));
            && id in after.r.owners
            && after.r.owners[id] == (if id in run.live[group] then 0 else run.r.owners[id])
            && (id in run.live[group] ==> !Removable(run.r.owners, id) && Removable(after.r.owners, id))
  {
    hide Exec;
    assert Inv(Start());
    ExecKeepsInv(Start(), events);
  }

  // A refused acquisition changes nothing, and a granted one takes every stream it names.
  lemma AcquisitionIsAllOrNothing(r: Registry, ids: seq<string>)
    ensures var (r', group) := Acquired(r, ids);
            if group.Some? then
              Distinct(ids) && forall id :: id in ids ==> id in r'.owners && r'.owners[id] == group.value && r.owners[id] == 0
            else r' == r && (ids == [] || !Distinct(ids) || exists id :: id in ids && !Removable(r.owners, id))
  {
    if Acquirable(r.owners, ids) {
      forall id | id in ids
        ensures id in r.owners && r.owners[id] == 0
      {
        var k :| 0 <= k < |ids| && ids[k] == id;
      }
    } else if ids != [] && Distinct(ids) {
      var k :| 0 <= k < |ids| && !(ids[k] in r.owners && r.owners[ids[k]] == 0);
      assert ids[k] in ids && !Removable(r.owners, ids[k]);
    }
  }

  // ---------------------------------------------------------------------------
  // The duplicate check counts the elements of a set
  // ---------------------------------------------------------------------------

  function Elements(ids: seq<string>): set<string> {
    set id | id in ids
  }

  lemma {:induction false} DistinctBySize(ids: seq<string>)
    ensures |Elements(ids)| <= |ids|
    ensures |Elements(ids)| == |ids| <==> Distinct(ids)
  {
    if ids != [] {
      var n := |ids| - 1;
      var last, init := ids[n], ids[..n];
      DistinctBySize(init);
      assert ids == init + [last];
      assert Elements(ids) == Elements(init) + {last};
      if last in init {
        var k :| 0 <= k < n && init[k] == last;
        assert ids[k] == ids[n];
        assert Elements(ids) == Elements(init);
      } else {
        assert last !in Elements(init);
        assert Distinct(ids) <==> Distinct(init) by {
          if Distinct(init) {
            forall i, j | 0 <= i < j < |ids| ensures ids[i] != ids[j] {
              if j == n {
                assert init[i] in init;
              } else {
                assert init[i] != init[j];
              }
            }
          }
          if Distinct(ids) {
            forall i, j | 0 <= i < j < n ensures init[i] != init[j] {
              assert ids[i] != ids[j];
            }
          }
        }
      }
    } else {
      assert Elements(ids) == {};
    }
  }
}
