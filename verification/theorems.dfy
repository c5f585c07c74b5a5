/** Properties of a whole reconciliation pass: what happens to dirty tasks,
    which tasks are removed locally, what the server holds afterwards, the
    shape of the resulting local list, and that a second pass right after a
    fetching one changes nothing. */
module ReconcileTheorems {
  import opened Tasks
  import opened Todos
  import opened Calendars
  import opened Reconcile

  /** The store invariants the pass relies on: local ids unique, remote uids
      unique, and no tombstoned id still present locally. */
  predicate WellFormed(data: UserData, c: Calendar)
  {
    && UniqueIds(data.tasks)
    && UniqueUids(c)
    && (forall id | id in data.deleted :: id !in Ids(data.tasks))
  }

  /** The fetch step (on or off) keeps ids, flags, length, dirty tasks and
      unique ids. */
  lemma MaybeFetchKeeps(ts: seq<Task>, c: Calendar, fetch: bool)
    ensures |MaybeFetch(ts, c, fetch)| == |ts|
    ensures forall i | 0 <= i < |ts| ::
              MaybeFetch(ts, c, fetch)[i].id == ts[i].id
              && MaybeFetch(ts, c, fetch)[i].synced == ts[i].synced
    ensures forall i | 0 <= i < |ts| && !ts[i].synced :: MaybeFetch(ts, c, fetch)[i] == ts[i]
    ensures UniqueIds(ts) ==> UniqueIds(MaybeFetch(ts, c, fetch))
  {
    var f := MaybeFetch(ts, c, fetch);
    if UniqueIds(ts) {
      forall i, j | 0 <= i < j < |f| ensures f[i].id != f[j].id
      {
        assert f[i].id == ts[i].id && f[j].id == ts[j].id;
      }
    }
  }

  /** The pass as a whole: the local list is the survivors of the
      (optionally fetched) list followed by the adopted items, the server
      ends as the pushed view minus the flushed tombstones, and the uids it
      holds come from the snapshot or the dirty tasks. */
  lemma PassShape(data: UserData, c: Calendar, fetch: bool, failing: set<string>)
    requires UniqueIds(data.tasks)
    ensures var o := Sync(data, c, fetch, failing);
            var f := MaybeFetch(data.tasks, c, fetch);
            var s := Survivors(f, Uids(c));
            && o.data.tasks == s + Adopted(Listing(o.calendar), Ids(s))
            && o.calendar == Flush(ActAll(f, c, Uids(c)).calendar, data.deleted, failing)
            && View(ActAll(f, c, Uids(c)).calendar) == Pushed(View(c), f)
            && Uids(o.calendar) <= Uids(c) + DirtyIds(f)
            && (UniqueUids(c) ==> UniqueUids(ActAll(f, c, Uids(c)).calendar))
  {
    var f := MaybeFetch(data.tasks, c, fetch);
    MaybeFetchKeeps(data.tasks, c, fetch);
    KeptAreSurvivors(f, c, Uids(c));
    var acted := ActAll(f, c, Uids(c));
    ActAllPushes(f, c, Uids(c));
    FlushShrinks(acted.calendar, data.deleted, failing);
  }

  /** A dirty task is never removed locally: it is still there after the
      pass with the same fields, now marked synced. */
  lemma DirtyTasksKept(data: UserData, c: Calendar, fetch: bool, failing: set<string>)
    requires UniqueIds(data.tasks)
    ensures forall i | 0 <= i < |data.tasks| && !data.tasks[i].synced ::
              data.tasks[i].(synced := true) in Sync(data, c, fetch, failing).data.tasks
  {
    var f := MaybeFetch(data.tasks, c, fetch);
    MaybeFetchKeeps(data.tasks, c, fetch);
    PassShape(data, c, fetch, failing);
    var s := Survivors(f, Uids(c));
    forall i | 0 <= i < |data.tasks| && !data.tasks[i].synced
      ensures data.tasks[i].(synced := true) in Sync(data, c, fetch, failing).data.tasks
    {
      assert f[i] == data.tasks[i];
      assert data.tasks[i].(synced := true) in s;
    }
  }

  /** A gone task's id is not among the survivors' ids. */
  lemma GoneNotSurvivor(f: seq<Task>, snapshot: set<string>, i: int)
    requires UniqueIds(f)
    requires 0 <= i < |f| && Gone(f[i], snapshot)
    ensures f[i].id !in Ids(Survivors(f, snapshot))
  {
    forall x | x in Survivors(f, snapshot) ensures x.id != f[i].id
    {
      var k :| 0 <= k < |f| && !Gone(f[k], snapshot) && x == f[k].(synced := true);
      assert k != i;
    }
  }

  /** Every adopted task's id is a uid the collection lists. */
  lemma AdoptedFromCollection(c: Calendar, known: set<string>)
    ensures Ids(Adopted(Listing(c), known)) <= Uids(c)
  {
    ListingIds(c);
    forall x | x in Adopted(Listing(c), known) ensures x.id in Uids(c)
    {
      var j :| 0 <= j < |Listing(c)| && Listing(c)[j].id !in known && x == FromRemote(Listing(c)[j]);
    }
  }

  /** A task gone from the server leaves no task with its id behind: it is
      not among the survivors, and adoption cannot bring it back because
      the server's uids after the pass come from the snapshot or from dirty
      tasks. */
  lemma GoneLeavesNoTrace(data: UserData, c: Calendar, fetch: bool, failing: set<string>, i: int)
    requires UniqueIds(data.tasks)
    requires 0 <= i < |data.tasks| && data.tasks[i].synced && data.tasks[i].id !in Uids(c)
    ensures data.tasks[i].id !in Ids(Sync(data, c, fetch, failing).data.tasks)
  {
    var o := Sync(data, c, fetch, failing);
    var f := MaybeFetch(data.tasks, c, fetch);
    MaybeFetchKeeps(data.tasks, c, fetch);
    PassShape(data, c, fetch, failing);
    var s := Survivors(f, Uids(c));
    var a := Adopted(Listing(o.calendar), Ids(s));
    var id := data.tasks[i].id;
    SyncedNotDirty(f, i);
    GoneNotSurvivor(f, Uids(c), i);
    AdoptedFromCollection(o.calendar, Ids(s));
    assert id !in Uids(o.calendar);
    assert id !in Ids(a);
    IdsConcat(s, a);
  }

  /** With unique ids, a synced task's id is not a dirty id. */
  lemma SyncedNotDirty(f: seq<Task>, i: int)
    requires UniqueIds(f)
    requires 0 <= i < |f| && f[i].synced
    ensures f[i].id !in DirtyIds(f)
  {
    forall t | t in f && !t.synced ensures t.id != f[i].id
    {
      var k :| 0 <= k < |f| && f[k] == t;
      assert k != i;
    }
  }

  /** A local task's id is still present after the pass exactly when the
      task was not synced-and-missing from the server's snapshot. */
  lemma RemovedExactlyWhenGone(data: UserData, c: Calendar, fetch: bool, failing: set<string>)
    requires UniqueIds(data.tasks)
    ensures forall i | 0 <= i < |data.tasks| ::
              data.tasks[i].id in Ids(Sync(data, c, fetch, failing).data.tasks)
              <==> !(data.tasks[i].synced && data.tasks[i].id !in Uids(c))
  {
    var o := Sync(data, c, fetch, failing);
    var f := MaybeFetch(data.tasks, c, fetch);
    MaybeFetchKeeps(data.tasks, c, fetch);
    PassShape(data, c, fetch, failing);
    var s := Survivors(f, Uids(c));
    forall i | 0 <= i < |data.tasks|
      ensures data.tasks[i].id in Ids(o.data.tasks) <==> !(data.tasks[i].synced && data.tasks[i].id !in Uids(c))
    {
      if !Gone(f[i], Uids(c)) {
        assert f[i].(synced := true) in s;
        assert f[i].(synced := true) in o.data.tasks;
      } else {
        GoneLeavesNoTrace(data, c, fetch, failing, i);
      }
    }
  }

  /** Local wins: after the pass the server holds every dirty task under
      its id with exactly the local text, parent, colour and completion,
      whether the task was created or updated. */
  lemma LocalWins(data: UserData, c: Calendar, fetch: bool, failing: set<string>)
    requires WellFormed(data, c)
    ensures var o := Sync(data, c, fetch, failing);
            forall i | 0 <= i < |data.tasks| && !data.tasks[i].synced ::
              data.tasks[i].id in View(o.calendar)
              && View(o.calendar)[data.tasks[i].id] == ToRemote(data.tasks[i])
  {
    var o := Sync(data, c, fetch, failing);
    var f := MaybeFetch(data.tasks, c, fetch);
    MaybeFetchKeeps(data.tasks, c, fetch);
    PassShape(data, c, fetch, failing);
    var acted := ActAll(f, c, Uids(c));
    PushedWrites(View(c), f);
    FlushDeletes(acted.calendar, data.deleted, failing);
    forall i | 0 <= i < |data.tasks| && !data.tasks[i].synced
      ensures data.tasks[i].id in View(o.calendar) && View(o.calendar)[data.tasks[i].id] == ToRemote(data.tasks[i])
    {
      assert f[i] in f;
      assert data.tasks[i] in data.tasks;
      assert data.tasks[i].id !in Flushed(data.deleted, failing);
    }
  }

  /** The tombstone flush: the tombstone list ends empty whatever happened to
      the individual deletes, every tombstone whose delete went through is
      absent from the server, and nothing else was deleted. */
  lemma TombstonesFlushed(data: UserData, c: Calendar, fetch: bool, failing: set<string>)
    requires UniqueIds(data.tasks) && UniqueUids(c)
    ensures var o := Sync(data, c, fetch, failing);
            && o.data.deleted == []
            && (forall id | id in data.deleted && id !in failing :: id !in Uids(o.calendar))
            && View(o.calendar)
               == Pushed(View(c), MaybeFetch(data.tasks, c, fetch)) - Flushed(data.deleted, failing)
  {
    var f := MaybeFetch(data.tasks, c, fetch);
    PassShape(data, c, fetch, failing);
    MaybeFetchKeeps(data.tasks, c, fetch);
    FlushDeletes(ActAll(f, c, Uids(c)).calendar, data.deleted, failing);
  }

  /** No resurrection: a task deleted locally whose remote delete goes
      through does not come back. Adoption reads the server's listing after
      the flush, so the deleted todo is not there to be copied back. */
  lemma NoResurrection(data: UserData, c: Calendar, fetch: bool, failing: set<string>, id: string)
    requires WellFormed(data, c)
    requires id in data.deleted && id !in failing
    ensures id !in Ids(Sync(data, c, fetch, failing).data.tasks)
  {
    var o := Sync(data, c, fetch, failing);
    var f := MaybeFetch(data.tasks, c, fetch);
    var s := Survivors(f, Uids(c));
    var a := Adopted(Listing(o.calendar), Ids(s));
    PassShape(data, c, fetch, failing);
    TombstonesFlushed(data, c, fetch, failing);
    assert id !in Uids(o.calendar);
    MaybeFetchKeeps(data.tasks, c, fetch);
    SameIds(f, data.tasks);
    SurvivorsUnique(f, Uids(c));
    assert id !in Ids(s);
    AdoptedFromCollection(o.calendar, Ids(s));
    assert id !in Ids(a);
    IdsConcat(s, a);
  }

  /** The other side of the bare `except`: when the delete of a tombstoned
      id fails and the server still lists the todo, the same pass adopts it
      back, and the tombstone is gone. */
  lemma FailedDeleteResurrects(fetch: bool)
    ensures var o := Sync(UserData([], ["t4"]), [map[UID := "t4"]], fetch, {"t4"});
            "t4" in Ids(o.data.tasks) && o.data.deleted == []
  {
    var c: Calendar := [map[UID := "t4"]];
    var data := UserData([], ["t4"]);
    var o := Sync(data, c, fetch, {"t4"});
    assert Uid(c[0]) == "t4";
    assert "t4" in Uids(c);
    assert Flushed(data.deleted, {"t4"}) == {};
    assert "t4" in Uids(o.calendar);
  }

  /** The shape of the resulting list: the surviving tasks come first, in
      their original order; after them come only adopted tasks, each synced,
      a copy of an item the server lists after the pass, and with an id no
      survivor has. */
  lemma SurvivorsThenAdopted(data: UserData, c: Calendar, fetch: bool, failing: set<string>)
    requires UniqueIds(data.tasks)
    ensures var o := Sync(data, c, fetch, failing);
            var s := Survivors(MaybeFetch(data.tasks, c, fetch), Uids(c));
            && |o.data.tasks| >= |s|
            && o.data.tasks[..|s|] == s
            && forall i | |s| <= i < |o.data.tasks| ::
                 o.data.tasks[i].synced
                 && ToRemote(o.data.tasks[i]) in Listing(o.calendar)
                 && o.data.tasks[i].id !in Ids(s)
  {
    var o := Sync(data, c, fetch, failing);
    var s := Survivors(MaybeFetch(data.tasks, c, fetch), Uids(c));
    PassShape(data, c, fetch, failing);
    var a := Adopted(Listing(o.calendar), Ids(s));
    assert o.data.tasks[..|s|] == s;
    forall i | |s| <= i < |o.data.tasks|
      ensures o.data.tasks[i].synced && ToRemote(o.data.tasks[i]) in Listing(o.calendar)
              && o.data.tasks[i].id !in Ids(s)
    {
      assert o.data.tasks[i] == a[i - |s|];
      assert a[i - |s|] in a;
    }
  }

  /** Without fetch, a synced task the server lists comes through the pass
      untouched. */
  lemma NoFetchKeepsSynced(data: UserData, c: Calendar, failing: set<string>)
    requires UniqueIds(data.tasks)
    ensures forall i | 0 <= i < |data.tasks| && data.tasks[i].synced && data.tasks[i].id in Uids(c) ::
              data.tasks[i] in Sync(data, c, false, failing).data.tasks
  {
    PassShape(data, c, false, failing);
    var s := Survivors(data.tasks, Uids(c));
    forall i | 0 <= i < |data.tasks| && data.tasks[i].synced && data.tasks[i].id in Uids(c)
      ensures data.tasks[i] in Sync(data, c, false, failing).data.tasks
    {
      assert data.tasks[i].(synced := true) == data.tasks[i];
      assert data.tasks[i] in s;
    }
  }

  /** With fetch, a synced task the server lists comes through the pass with
      the server's fields. */
  lemma FetchTakesRemote(data: UserData, c: Calendar, failing: set<string>)
    requires UniqueIds(data.tasks)
    ensures forall i | 0 <= i < |data.tasks| && data.tasks[i].synced && data.tasks[i].id in Uids(c) ::
              FromRemote(View(c)[data.tasks[i].id]) in Sync(data, c, true, failing).data.tasks
  {
    PassShape(data, c, true, failing);
    var f := Fetch(data.tasks, c);
    var s := Survivors(f, Uids(c));
    forall i | 0 <= i < |data.tasks| && data.tasks[i].synced && data.tasks[i].id in Uids(c)
      ensures FromRemote(View(c)[data.tasks[i].id]) in Sync(data, c, true, failing).data.tasks
    {
      assert f[i].(synced := true) == FromRemote(View(c)[data.tasks[i].id]);
      assert f[i].(synced := true) in s;
    }
  }
}
