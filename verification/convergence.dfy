/** Convergence: after a fetching pass over a well-formed store, the store
    and the server agree, and a pass over agreeing state changes nothing —
    so running the pass twice in a row is the same as running it once. */
module Convergence {
  import opened Tasks
  import opened Todos
  import opened Calendars
  import opened Reconcile
  import opened ReconcileTheorems

  /** Store and server agree: no tombstones, ids unique on both sides, the
      same ids on both sides, and every local task a synced copy of the
      server's item. */
  predicate Converged(data: UserData, c: Calendar)
  {
    && data.deleted == []
    && UniqueIds(data.tasks)
    && UniqueUids(c)
    && Uids(c) <= Ids(data.tasks)
    && forall t | t in data.tasks :: t.id in View(c) && t == FromRemote(View(c)[t.id])
  }

  /** A loop over synced tasks the snapshot lists marks nothing, changes no
      task and writes nothing to the server. */
  lemma {:induction false} SettledListIsLeftAlone(ts: seq<Task>, c: Calendar, snapshot: set<string>)
    requires forall i | 0 <= i < |ts| :: ts[i].synced && ts[i].id in snapshot
    ensures ActAll(ts, c, snapshot) == Pass(ts, c, [])
    decreases |ts|
  {
    if |ts| > 0 {
      SettledListIsLeftAlone(ts[1..], c, snapshot);
      assert [ts[0]] + ts[1..] == ts;
    }
  }

  /** Nothing is adopted when every listed id is already known. */
  lemma {:induction false} NothingToAdopt(listing: seq<RemoteTask>, known: set<string>)
    requires forall j | 0 <= j < |listing| :: listing[j].id in known
    ensures Adopted(listing, known) == []
    decreases |listing|
  {
    if |listing| > 0 {
      NothingToAdopt(listing[1..], known);
    }
  }

  /** On agreeing state the fetch step changes nothing. */
  lemma FetchOnConverged(data: UserData, c: Calendar, fetch: bool)
    requires Converged(data, c)
    ensures MaybeFetch(data.tasks, c, fetch) == data.tasks
  {
    var ts := data.tasks;
    if fetch {
      var f := Fetch(ts, c);
      forall i | 0 <= i < |ts| ensures f[i] == ts[i]
      {
        assert ts[i] in ts;
        assert ts[i].id in Uids(c) && ts[i].synced;
        assert f[i] == FromRemote(ToRemote(f[i]));
      }
    }
  }

  /** A pass over agreeing state changes neither the store nor the server,
      with or without fetch and whatever deletes would fail. */
  lemma ConvergedIsFixpoint(data: UserData, c: Calendar, fetch: bool, failing: set<string>)
    requires Converged(data, c)
    ensures Sync(data, c, fetch, failing) == Outcome(data, c)
  {
    var ts := data.tasks;
    FetchOnConverged(data, c, fetch);
    assert forall i | 0 <= i < |ts| :: ts[i].synced && ts[i].id in Uids(c) by {
      forall i | 0 <= i < |ts| ensures ts[i].synced && ts[i].id in Uids(c)
      {
        assert ts[i] in ts;
      }
    }
    SettledListIsLeftAlone(ts, c, Uids(c));
    var acted := ActAll(MaybeFetch(ts, c, fetch), c, Uids(c));
    assert acted == Pass(ts, c, []);
    assert RemoveAll(acted.tasks, acted.doomed) == ts;
    assert Flush(acted.calendar, data.deleted, failing) == c;
    ListingIds(c);
    NothingToAdopt(Listing(c), Ids(ts));
    assert Adopt(ts, Listing(c)) == ts;
  }

  /** A survivor of a fetching pass over a well-formed store is a synced
      copy of what the server holds for its id afterwards. */
  lemma SurvivorMirrored(data: UserData, c: Calendar, failing: set<string>, k: int)
    requires WellFormed(data, c)
    requires 0 <= k < |data.tasks| && !Gone(data.tasks[k], Uids(c))
    ensures var o := Sync(data, c, true, failing);
            var t := Fetch(data.tasks, c)[k].(synced := true);
            t.id in View(o.calendar) && t == FromRemote(View(o.calendar)[t.id])
  {
    var o := Sync(data, c, true, failing);
    var f := Fetch(data.tasks, c);
    var id := data.tasks[k].id;
    if !data.tasks[k].synced {
      LocalWins(data, c, true, failing);
    } else {
      MaybeFetchKeeps(data.tasks, c, true);
      TombstonesFlushed(data, c, true, failing);
      SyncedNotDirty(f, k);
      assert data.tasks[k] in data.tasks;
      assert id !in Flushed(data.deleted, failing);
      assert f[k] == FromRemote(ToRemote(f[k]));
    }
  }

  /** An adopted task is a synced copy of what the server holds for its id. */
  lemma AdoptedMirrored(c: Calendar, known: set<string>)
    requires UniqueUids(c)
    ensures forall t | t in Adopted(Listing(c), known) :: t.id in View(c) && t == FromRemote(View(c)[t.id])
  {
    ViewOfUnique(c);
    forall t | t in Adopted(Listing(c), known) ensures t.id in View(c) && t == FromRemote(View(c)[t.id])
    {
      var j :| 0 <= j < |Listing(c)| && Listing(c)[j].id !in known && t == FromRemote(Listing(c)[j]);
      assert c[j] in c;
    }
  }

  /** A fetching pass over a well-formed store leaves store and server in
      agreement. */
  lemma PassConverges(data: UserData, c: Calendar, failing: set<string>)
    requires WellFormed(data, c)
    ensures Converged(Sync(data, c, true, failing).data, Sync(data, c, true, failing).calendar)
  {
    var o := Sync(data, c, true, failing);
    var f := Fetch(data.tasks, c);
    MaybeFetchKeeps(data.tasks, c, true);
    PassShape(data, c, true, failing);
    TombstonesFlushed(data, c, true, failing);
    var s := Survivors(f, Uids(c));
    var a := Adopted(Listing(o.calendar), Ids(s));
    FlushDeletes(ActAll(f, c, Uids(c)).calendar, data.deleted, failing);
    SurvivorsUnique(f, Uids(c));
    ListingUnique(o.calendar);
    AdoptUnique(s, Listing(o.calendar));
    AdoptedMirrored(o.calendar, Ids(s));
    forall t | t in s ensures t.id in View(o.calendar) && t == FromRemote(View(o.calendar)[t.id])
    {
      var k :| 0 <= k < |f| && !Gone(f[k], Uids(c)) && t == f[k].(synced := true);
      SurvivorMirrored(data, c, failing, k);
    }
    assert forall t :: t in o.data.tasks <==> t in s || t in a;
  }

  /** Running a fetching pass twice in a row, with nothing changing in
      between, is the same as running it once: the second pass (with or
      without fetch) is a no-op. */
  lemma SyncIdempotent(data: UserData, c: Calendar, fetch: bool, failing: set<string>, failing': set<string>)
    requires WellFormed(data, c)
    ensures var o := Sync(data, c, true, failing);
            Sync(o.data, o.calendar, fetch, failing') == o
  {
    var o := Sync(data, c, true, failing);
    PassConverges(data, c, failing);
    ConvergedIsFixpoint(o.data, o.calendar, fetch, failing');
  }
}
