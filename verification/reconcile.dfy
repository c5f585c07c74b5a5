/** The reconciliation pass of the Nextcloud sync provider, as a pure
    function from the local store and the remote collection to their new
    contents, built from one function per step in the order the pass runs
    them: snapshot, fetch, classify and act, local removal, tombstone flush,
    adoption. */
module Reconcile {
  import opened Tasks
  import opened Todos
  import opened Calendars

  // ---------------------------------------------------------------- fetch

  /** One task after the fetch step: a synced task the server lists takes
      the server's text, parent, completion and colour. */
  function FetchTask(t: Task, c: Calendar): (r: Task)
    ensures r.id == t.id && r.synced == t.synced
    ensures t.id in Uids(c) && t.synced ==> ToRemote(r) == View(c)[t.id]
    ensures !(t.id in Uids(c) && t.synced) ==> r == t
  {
    if t.id in Uids(c) && t.synced then
      var r := View(c)[t.id];
      t.(text := r.text, parent := r.parent, completed := r.completed, color := r.color)
    else
      t
  }

  /** The fetch step: overwrite clean local tasks from their remote copy.
      Dirty tasks and tasks the server does not list are left as they are. */
  function Fetch(ts: seq<Task>, c: Calendar): (r: seq<Task>)
    ensures |r| == |ts|
    ensures forall i | 0 <= i < |ts| :: r[i].id == ts[i].id && r[i].synced == ts[i].synced
    ensures forall i | 0 <= i < |ts| && ts[i].id in Uids(c) && ts[i].synced ::
              ToRemote(r[i]) == View(c)[ts[i].id]
    ensures forall i | 0 <= i < |ts| && !(ts[i].id in Uids(c) && ts[i].synced) :: r[i] == ts[i]
  {
    seq(|ts|, i requires 0 <= i < |ts| => FetchTask(ts[i], c))
  }

  /** The fetch step runs only when asked for; either way it keeps every
      task's position, id and flag, and never touches a dirty task. */
  function MaybeFetch(ts: seq<Task>, c: Calendar, fetch: bool): (r: seq<Task>)
    ensures |r| == |ts|
    ensures forall i | 0 <= i < |ts| :: r[i].id == ts[i].id && r[i].synced == ts[i].synced
    ensures forall i | 0 <= i < |ts| && !ts[i].synced :: r[i] == ts[i]
  {
    if fetch then Fetch(ts, c) else ts
  }

  // ------------------------------------------------------ classify and act

  /** What the pass does with one local task. */
  datatype Action = Create | Update | RemoveLocal | Keep

  /** The decision table on (listed in the snapshot, synced): a dirty task
      is pushed (created or updated), an unlisted task is created or
      removed locally, and the four cases are told apart by exactly these
      two facts. */
  function Classify(t: Task, snapshot: set<string>): (a: Action)
    ensures (a == Create || a == Update) <==> !t.synced
    ensures (a == Create || a == RemoveLocal) <==> t.id !in snapshot
  {
    if t.id !in snapshot && !t.synced then Create
    else if t.id in snapshot && !t.synced then Update
    else if t.id !in snapshot && t.synced then RemoveLocal
    else Keep
  }

  /** A task the server no longer lists although it was synced: the server
      deleted it, so it goes locally too. */
  predicate Gone(t: Task, snapshot: set<string>)
  {
    t.id !in snapshot && t.synced
  }

  /** The result of handling one task: the task as it now is, the
      collection after any remote write, and whether the task is doomed. */
  datatype Step = Step(task: Task, calendar: Calendar, doomed: bool)

  /** Handle one task. Whatever the action, the task ends up synced with
      its fields untouched; it is doomed exactly when it is gone remotely;
      a clean task causes no remote write. */
  function Act(t: Task, c: Calendar, snapshot: set<string>): (s: Step)
    ensures s.task == t.(synced := true)
    ensures s.doomed <==> Gone(t, snapshot)
    ensures t.synced ==> s.calendar == c
  {
    match Classify(t, snapshot)
    case Create => Step(t.(synced := true), c + [NewTodo(t)], false)
    case Update => Step(t.(synced := true), UpdateByUid(c, t.id, t), false)
    case RemoveLocal => Step(t, c, true)
    case Keep => Step(t, c, false)
  }

  /** The result of the classification loop: the tasks as they now are, the
      collection after the remote writes, and the tasks marked for removal. */
  datatype Pass = Pass(tasks: seq<Task>, calendar: Calendar, doomed: seq<Task>)

  /** The classification loop over the local list, in order, threading the
      collection through the remote writes. Every task comes out synced with
      its fields unchanged, and the tasks marked for removal are exactly the
      ones gone remotely. */
  function ActAll(ts: seq<Task>, c: Calendar, snapshot: set<string>): (p: Pass)
    ensures |p.tasks| == |ts|
    ensures forall i | 0 <= i < |ts| :: p.tasks[i] == ts[i].(synced := true)
    ensures forall x :: x in p.doomed <==> x in ts && Gone(x, snapshot)
    decreases |ts|
  {
    if |ts| == 0 then Pass([], c, [])
    else
      var s := Act(ts[0], c, snapshot);
      var rest := ActAll(ts[1..], s.calendar, snapshot);
      assert forall x :: x in ts <==> x == ts[0] || x in ts[1..];
      Pass([s.task] + rest.tasks, rest.calendar, (if s.doomed then [ts[0]] else []) + rest.doomed)
  }

  /** The ids of the dirty tasks of a list. */
  function DirtyIds(ts: seq<Task>): (r: set<string>)
  {
    set t | t in ts && !t.synced :: t.id
  }

  /** The remote view the classification loop is meant to leave: for each
      dirty task in list order, its fields written under its id (an insert
      for a new id, an overwrite for a known one). */
  function Pushed(view: map<string, RemoteTask>, ts: seq<Task>): (m: map<string, RemoteTask>)
    ensures m.Keys == view.Keys + DirtyIds(ts)
    ensures forall k | k in view && k !in DirtyIds(ts) :: m[k] == view[k]
    decreases |ts|
  {
    if |ts| == 0 then view
    else
      var next := if ts[0].synced then view else view[ts[0].id := ToRemote(ts[0])];
      DirtyIdsCons(ts);
      Pushed(next, ts[1..])
  }

  lemma DirtyIdsCons(ts: seq<Task>)
    requires |ts| > 0
    ensures DirtyIds(ts) == (if ts[0].synced then {} else {ts[0].id}) + DirtyIds(ts[1..])
  {
    assert forall t :: t in ts <==> t == ts[0] || t in ts[1..];
  }

  /** With unique ids, every dirty task's fields are what the pushed view
      holds under its id. */
  lemma {:induction false} PushedWrites(view: map<string, RemoteTask>, ts: seq<Task>)
    requires UniqueIds(ts)
    ensures forall i | 0 <= i < |ts| && !ts[i].synced :: Pushed(view, ts)[ts[i].id] == ToRemote(ts[i])
    decreases |ts|
  {
    if |ts| > 0 {
      var next := if ts[0].synced then view else view[ts[0].id := ToRemote(ts[0])];
      UniqueIdsTail(ts);
      DirtyIdsCons(ts);
      PushedWrites(next, ts[1..]);
      forall i | 0 <= i < |ts| && !ts[i].synced ensures Pushed(view, ts)[ts[i].id] == ToRemote(ts[i])
      {
        if i > 0 {
          assert ts[1..][i - 1] == ts[i];
        } else {
          assert ts[0].id !in DirtyIds(ts[1..]);
        }
      }
    }
  }

  /** The snapshot agrees with the collection on every id of the list:
      true at the start of the loop, and kept by it. */
  predicate Aligned(ts: seq<Task>, snapshot: set<string>, c: Calendar)
  {
    forall i | 0 <= i < |ts| :: ts[i].id in snapshot <==> ts[i].id in Uids(c)
  }

  /** One task's remote write: a dirty task's fields are written under its
      id (a new todo when the snapshot lacks the id, an overwrite when it
      has it); a clean task writes nothing. */
  lemma ActWrites(t: Task, c: Calendar, snapshot: set<string>)
    requires t.id in snapshot <==> t.id in Uids(c)
    ensures View(Act(t, c, snapshot).calendar)
         == if t.synced then View(c) else View(c)[t.id := ToRemote(t)]
    ensures Uids(Act(t, c, snapshot).calendar) == Uids(c) + (if t.synced then {} else {t.id})
    ensures UniqueUids(c) ==> UniqueUids(Act(t, c, snapshot).calendar)
  {
    if !t.synced && t.id !in snapshot {
      var p := NewTodo(t);
      assert Uid(p) == t.id;
      SaveNew(c, p);
      UidsSnoc(c, p);
      if UniqueUids(c) {
        SaveNewUnique(c, p);
      }
    } else if !t.synced {
      UpdateOverwrites(c, t.id, t);
      UpdateKeepsUids(c, t.id, t);
    }
  }

  /** The classification loop's remote writes amount to the intended map
      inserts and overwrites: the final view is the pushed view, the uids
      grow by exactly the dirty ids, and uid uniqueness is kept. */
  lemma {:induction false} ActAllPushes(ts: seq<Task>, c: Calendar, snapshot: set<string>)
    requires UniqueIds(ts)
    requires Aligned(ts, snapshot, c)
    ensures View(ActAll(ts, c, snapshot).calendar) == Pushed(View(c), ts)
    ensures Uids(ActAll(ts, c, snapshot).calendar) == Uids(c) + DirtyIds(ts)
    ensures UniqueUids(c) ==> UniqueUids(ActAll(ts, c, snapshot).calendar)
    decreases |ts|
  {
    if |ts| > 0 {
      var t := ts[0];
      var c' := Act(t, c, snapshot).calendar;
      UniqueIdsTail(ts);
      DirtyIdsCons(ts);
      ActWrites(t, c, snapshot);
      assert Aligned(ts[1..], snapshot, c') by {
        forall i | 0 <= i < |ts[1..]|
          ensures ts[1..][i].id in snapshot <==> ts[1..][i].id in Uids(c')
        {
          assert ts[1..][i] == ts[i + 1];
          assert ts[i + 1] in ts[1..];
        }
      }
      ActAllPushes(ts[1..], c', snapshot);
    }
  }

  // ------------------------------------------------------------ removal

  /** `list.remove(v)`: drop the first element equal to `v`. (Python raises
      when there is none; the pass only removes elements it took from the
      list, so that branch is left as the identity.) */
  function RemoveFirst(ts: seq<Task>, v: Task): (r: seq<Task>)
    ensures forall x | x in r :: x in ts
    decreases |ts|
  {
    if |ts| == 0 then ts
    else if ts[0] == v then ts[1..]
    else [ts[0]] + RemoveFirst(ts[1..], v)
  }

  /** The removal loop: `remove` each doomed task in turn. */
  function RemoveAll(ts: seq<Task>, vs: seq<Task>): (r: seq<Task>)
    ensures forall x | x in r :: x in ts
    decreases |vs|
  {
    if |vs| == 0 then ts
    else RemoveAll(RemoveFirst(ts, vs[0]), vs[1..])
  }

  /** The local list the classification and removal are meant to leave:
      every task not gone remotely, in its original order, now synced. */
  function Survivors(ts: seq<Task>, snapshot: set<string>): (r: seq<Task>)
    ensures forall x :: x in r <==>
              exists i :: 0 <= i < |ts| && !Gone(ts[i], snapshot) && x == ts[i].(synced := true)
    decreases |ts|
  {
    if |ts| == 0 then []
    else
      var rest := Survivors(ts[1..], snapshot);
      assert forall i | 1 <= i < |ts| :: ts[i] == ts[1..][i - 1];
      (if Gone(ts[0], snapshot) then [] else [ts[0].(synced := true)]) + rest
  }

  /** No value occurs twice in the list. */
  predicate Distinct(ts: seq<Task>)
  {
    forall i, j | 0 <= i < j < |ts| :: ts[i] != ts[j]
  }

  /** The list with every element of `gone` filtered out. */
  function Without(ts: seq<Task>, gone: set<Task>): (r: seq<Task>)
    ensures forall x :: x in r <==> x in ts && x !in gone
    decreases |ts|
  {
    if |ts| == 0 then []
    else
      assert forall x :: x in ts <==> x == ts[0] || x in ts[1..];
      (if ts[0] in gone then [] else [ts[0]]) + Without(ts[1..], gone)
  }

  lemma DistinctTail(ts: seq<Task>)
    requires |ts| > 0 && Distinct(ts)
    ensures ts[0] !in ts[1..] && Distinct(ts[1..])
  {
    forall k | 0 <= k < |ts[1..]| ensures ts[1..][k] != ts[0]
    {
      assert ts[1..][k] == ts[k + 1];
    }
  }

  lemma {:induction false} WithoutKeepsDistinct(ts: seq<Task>, gone: set<Task>)
    requires Distinct(ts)
    ensures Distinct(Without(ts, gone))
    decreases |ts|
  {
    if |ts| > 0 {
      DistinctTail(ts);
      WithoutKeepsDistinct(ts[1..], gone);
      var rest := Without(ts[1..], gone);
      var r := Without(ts, gone);
      if ts[0] !in gone {
        assert r == [ts[0]] + rest;
        forall i, j | 0 <= i < j < |r| ensures r[i] != r[j]
        {
          if i == 0 {
            assert r[j] in rest;
          } else {
            assert r[i] == rest[i - 1] && r[j] == rest[j - 1];
          }
        }
      }
    }
  }

  lemma {:induction false} WithoutNothing(ts: seq<Task>, gone: set<Task>)
    requires forall x | x in ts :: x !in gone
    ensures Without(ts, gone) == ts
    decreases |ts|
  {
    if |ts| > 0 {
      WithoutNothing(ts[1..], gone);
    }
  }

  lemma {:induction false} WithoutTwice(ts: seq<Task>, a: set<Task>, b: set<Task>)
    ensures Without(Without(ts, a), b) == Without(ts, a + b)
    decreases |ts|
  {
    if |ts| > 0 {
      WithoutTwice(ts[1..], a, b);
      var rest := Without(ts[1..], a);
      if ts[0] in a {
        assert Without(ts, a) == rest;
      } else {
        var w := [ts[0]] + rest;
        assert Without(ts, a) == w;
        assert w[0] == ts[0] && w[1..] == rest;
        assert Without(w, b) == (if ts[0] in b then [] else [ts[0]]) + Without(rest, b);
      }
    }
  }

  /** In a list without repeated values, `list.remove(v)` is the same as
      filtering `v` out. */
  lemma {:induction false} RemoveFirstFilters(ts: seq<Task>, v: Task)
    requires Distinct(ts)
    ensures RemoveFirst(ts, v) == Without(ts, {v})
    decreases |ts|
  {
    if |ts| > 0 {
      DistinctTail(ts);
      if ts[0] == v {
        WithoutNothing(ts[1..], {v});
      } else {
        RemoveFirstFilters(ts[1..], v);
      }
    }
  }

  /** In a list without repeated values, the removal loop is the same as
      filtering out every removed value at once. */
  lemma {:induction false} RemoveAllFilters(ts: seq<Task>, vs: seq<Task>)
    requires Distinct(ts)
    ensures RemoveAll(ts, vs) == Without(ts, set v | v in vs)
    decreases |vs|
  {
    if |vs| == 0 {
      assert (set v | v in vs) == {};
      WithoutNothing(ts, {});
    }
    if |vs| > 0 {
      RemoveFirstFilters(ts, vs[0]);
      WithoutKeepsDistinct(ts, {vs[0]});
      assert RemoveAll(ts, vs) == RemoveAll(Without(ts, {vs[0]}), vs[1..]);
      RemoveAllFilters(Without(ts, {vs[0]}), vs[1..]);
      WithoutTwice(ts, {vs[0]}, set v | v in vs[1..]);
      assert {vs[0]} + (set v | v in vs[1..]) == set v | v in vs by {
        assert forall v :: v in vs <==> v == vs[0] || v in vs[1..];
      }
    }
  }

  /** Filtering the settled list by a set that holds exactly the settled
      copies of the gone tasks yields the survivors. */
  lemma {:induction false} FilterSettled(ts: seq<Task>, a: seq<Task>, gone: set<Task>, snapshot: set<string>)
    requires |a| == |ts|
    requires forall i | 0 <= i < |ts| :: a[i] == ts[i].(synced := true)
    requires forall i | 0 <= i < |ts| :: a[i] in gone <==> Gone(ts[i], snapshot)
    ensures Without(a, gone) == Survivors(ts, snapshot)
    decreases |ts|
  {
    if |ts| > 0 {
      FilterSettled(ts[1..], a[1..], gone, snapshot);
    }
  }

  /** The classification loop followed by the removal loop leaves exactly
      the survivors: the tasks not gone remotely, in their original order,
      now synced. A dirty task is never removed. */
  lemma KeptAreSurvivors(ts: seq<Task>, c: Calendar, snapshot: set<string>)
    requires UniqueIds(ts)
    ensures RemoveAll(ActAll(ts, c, snapshot).tasks, ActAll(ts, c, snapshot).doomed)
         == Survivors(ts, snapshot)
  {
    var p := ActAll(ts, c, snapshot);
    assert Distinct(p.tasks) by {
      forall i, j | 0 <= i < j < |p.tasks| ensures p.tasks[i] != p.tasks[j]
      {
        assert p.tasks[i].id == ts[i].id && p.tasks[j].id == ts[j].id;
      }
    }
    RemoveAllFilters(p.tasks, p.doomed);
    var gone := set v | v in p.doomed;
    forall i | 0 <= i < |ts| ensures p.tasks[i] in gone <==> Gone(ts[i], snapshot)
    {
      if p.tasks[i] in gone {
        assert p.tasks[i] in ts && Gone(p.tasks[i], snapshot);
        var k :| 0 <= k < |ts| && ts[k] == p.tasks[i];
        assert ts[k].id == ts[i].id;
        assert k == i;
      }
      if Gone(ts[i], snapshot) {
        assert p.tasks[i] == ts[i];
        assert ts[i] in ts;
      }
    }
    FilterSettled(ts, p.tasks, gone, snapshot);
  }

  // ---------------------------------------------------- tombstone flush

  /** The tombstones whose delete goes through. */
  function Flushed(tombstones: seq<string>, failing: set<string>): (r: set<string>)
  {
    set id | id in tombstones && id !in failing
  }

  /** The tombstone flush: delete each tombstoned id in turn. A delete whose
      uid is missing, or that fails for any other reason (`failing`), is
      swallowed and leaves the collection as it was. */
  function Flush(c: Calendar, tombstones: seq<string>, failing: set<string>): (r: Calendar)
    ensures |r| <= |c|
    ensures Uids(c) - Flushed(tombstones, failing) <= Uids(r)
    decreases |tombstones|
  {
    if |tombstones| == 0 then c
    else
      var next := if tombstones[0] in failing then c else DeleteByUid(c, tombstones[0]);
      DeleteKeepsOthers(c, tombstones[0]);
      FlushedCons(tombstones, failing);
      Flush(next, tombstones[1..], failing)
  }

  lemma FlushedCons(tombstones: seq<string>, failing: set<string>)
    requires |tombstones| > 0
    ensures Flushed(tombstones, failing)
         == (if tombstones[0] in failing then {} else {tombstones[0]}) + Flushed(tombstones[1..], failing)
  {
    assert forall id :: id in tombstones <==> id == tombstones[0] || id in tombstones[1..];
  }

  /** With unique uids the flush removes exactly the tombstones whose delete
      goes through (a tombstone already absent changes nothing) and leaves
      every other todo as it was. */
  lemma {:induction false} FlushDeletes(c: Calendar, tombstones: seq<string>, failing: set<string>)
    requires UniqueUids(c)
    ensures UniqueUids(Flush(c, tombstones, failing))
    ensures View(Flush(c, tombstones, failing)) == View(c) - Flushed(tombstones, failing)
    decreases |tombstones|
  {
    if |tombstones| == 0 {
      assert Flushed(tombstones, failing) == {};
    } else {
      var next := if tombstones[0] in failing then c else DeleteByUid(c, tombstones[0]);
      var here: set<string> := if tombstones[0] in failing then {} else {tombstones[0]};
      if tombstones[0] !in failing {
        DeleteRemoves(c, tombstones[0]);
      }
      FlushDeletes(next, tombstones[1..], failing);
      FlushedCons(tombstones, failing);
      RemoveKeysTwice(View(c), here, Flushed(tombstones[1..], failing));
    }
  }

  /** Removing two key sets one after the other removes their union. */
  lemma RemoveKeysTwice<K, V>(m: map<K, V>, a: set<K>, b: set<K>)
    ensures m - a - b == m - (a + b)
  {
  }

  /** The flush never adds a uid. */
  lemma {:induction false} FlushShrinks(c: Calendar, tombstones: seq<string>, failing: set<string>)
    ensures Uids(Flush(c, tombstones, failing)) <= Uids(c)
    decreases |tombstones|
  {
    if |tombstones| > 0 {
      var next := if tombstones[0] in failing then c else DeleteByUid(c, tombstones[0]);
      if tombstones[0] !in failing {
        DeleteShrinks(c, tombstones[0]);
      }
      FlushShrinks(next, tombstones[1..], failing);
    }
  }

  // ------------------------------------------------------------ adoption

  /** New local tasks for the listed items whose id is not `known`, in
      listing order, each a copy of its item and already synced. */
  function Adopted(listing: seq<RemoteTask>, known: set<string>): (r: seq<Task>)
    ensures forall x :: x in r <==>
              exists j :: 0 <= j < |listing| && listing[j].id !in known && x == FromRemote(listing[j])
    decreases |listing|
  {
    if |listing| == 0 then []
    else
      var rest := Adopted(listing[1..], known);
      assert forall j | 1 <= j < |listing| :: listing[j] == listing[1..][j - 1];
      (if listing[0].id in known then [] else [FromRemote(listing[0])]) + rest
  }

  /** The adoption step: the local ids are read once, then every listed item
      without a local counterpart is appended as a new synced task. The
      existing list is kept as a prefix, every listed id ends up local, and
      no appended task repeats an id the list already had. */
  function Adopt(ts: seq<Task>, listing: seq<RemoteTask>): (r: seq<Task>)
    ensures |r| >= |ts| && r[..|ts|] == ts
    ensures forall j | 0 <= j < |listing| :: listing[j].id in Ids(r)
    ensures forall i | |ts| <= i < |r| ::
              r[i].synced && r[i].id !in Ids(ts) && ToRemote(r[i]) in listing
  {
    var r := ts + Adopted(listing, Ids(ts));
    forall j | 0 <= j < |listing| ensures listing[j].id in Ids(r)
    {
      if listing[j].id !in Ids(ts) {
        assert FromRemote(listing[j]) in r;
      } else {
        var t :| t in ts && t.id == listing[j].id;
        assert t in r;
      }
    }
    forall i | |ts| <= i < |r| ensures r[i].synced && r[i].id !in Ids(ts) && ToRemote(r[i]) in listing
    {
      assert r[i] in Adopted(listing, Ids(ts));
    }
    r
  }

  /** No two listed items share an id. */
  predicate UniqueListing(listing: seq<RemoteTask>)
  {
    forall i, j | 0 <= i < j < |listing| :: listing[i].id != listing[j].id
  }

  lemma {:induction false} AdoptedUnique(listing: seq<RemoteTask>, known: set<string>)
    requires UniqueListing(listing)
    ensures UniqueIds(Adopted(listing, known))
    decreases |listing|
  {
    if |listing| > 0 {
      var tail := listing[1..];
      AdoptedUnique(tail, known);
      var rest := Adopted(tail, known);
      var r := Adopted(listing, known);
      if listing[0].id !in known {
        assert r == [FromRemote(listing[0])] + rest;
        forall i, j | 0 <= i < j < |r| ensures r[i].id != r[j].id
        {
          if i == 0 {
            assert r[j] in rest;
            var k :| 0 <= k < |tail| && tail[k].id !in known && r[j] == FromRemote(tail[k]);
            assert tail[k] == listing[k + 1];
          } else {
            assert r[i] == rest[i - 1] && r[j] == rest[j - 1];
          }
        }
      }
    }
  }

  /** A collection with unique uids lists every id once. */
  lemma ListingUnique(c: Calendar)
    requires UniqueUids(c)
    ensures UniqueListing(Listing(c))
  {
  }

  /** Adoption keeps local ids unique when the listing's ids are unique. */
  lemma AdoptUnique(ts: seq<Task>, listing: seq<RemoteTask>)
    requires UniqueIds(ts)
    requires UniqueListing(listing)
    ensures UniqueIds(Adopt(ts, listing))
  {
    var a := Adopted(listing, Ids(ts));
    AdoptedUnique(listing, Ids(ts));
    var r := Adopt(ts, listing);
    assert r == ts + a;
    forall i, j | 0 <= i < j < |r| ensures r[i].id != r[j].id
    {
      if j < |ts| {
        assert r[i] == ts[i] && r[j] == ts[j];
      } else if i >= |ts| {
        assert r[i] == a[i - |ts|] && r[j] == a[j - |ts|];
      } else {
        assert r[i] in ts;
      }
    }
  }

  /** The survivors of a list with unique ids have unique ids. */
  lemma {:induction false} SurvivorsUnique(ts: seq<Task>, snapshot: set<string>)
    requires UniqueIds(ts)
    ensures UniqueIds(Survivors(ts, snapshot))
    ensures Ids(Survivors(ts, snapshot)) <= Ids(ts)
    decreases |ts|
  {
    if |ts| > 0 {
      UniqueIdsTail(ts);
      SurvivorsUnique(ts[1..], snapshot);
      var rest := Survivors(ts[1..], snapshot);
      var r := Survivors(ts, snapshot);
      assert forall t :: t in ts <==> t == ts[0] || t in ts[1..];
      if !Gone(ts[0], snapshot) {
        assert r == [ts[0].(synced := true)] + rest;
        forall i, j | 0 <= i < j < |r| ensures r[i].id != r[j].id
        {
          if i == 0 {
            assert r[j] in rest;
          } else {
            assert r[i] == rest[i - 1] && r[j] == rest[j - 1];
          }
        }
      }
    }
  }

  // ------------------------------------------------------------ the pass

  /** The store and the collection after a pass. */
  datatype Outcome = Outcome(data: UserData, calendar: Calendar)

  /** One reconciliation pass. `failing` holds the tombstones whose remote
      delete fails for a reason other than a missing uid. Afterwards the
      tombstone list is empty, every task is synced, and every uid the
      server holds is a local id. */
  function Sync(data: UserData, c: Calendar, fetch: bool, failing: set<string>): (o: Outcome)
    ensures o.data.deleted == []
    ensures forall t | t in o.data.tasks :: t.synced
    ensures Uids(o.calendar) <= Ids(o.data.tasks)
  {
    var snapshot := Uids(c);
    var fetched := MaybeFetch(data.tasks, c, fetch);
    var acted := ActAll(fetched, c, snapshot);
    var kept := RemoveAll(acted.tasks, acted.doomed);
    var flushed := Flush(acted.calendar, data.deleted, failing);
    var tasks := Adopt(kept, Listing(flushed));
    ListingIds(flushed);
    assert forall t | t in kept :: t.synced;
    assert forall i | 0 <= i < |tasks| :: tasks[i].synced by {
      forall i | 0 <= i < |tasks| ensures tasks[i].synced
      {
        if i < |kept| {
          assert tasks[i] == tasks[..|kept|][i];
        }
      }
    }
    Outcome(UserData(tasks, []), flushed)
  }
}
