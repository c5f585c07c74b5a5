/** Four worked examples of the reconciliation pass (created offline,
    created on the server, deleted on the server, deleted locally), each
    derived from the general properties of the pass. */
module Scenarios {
  import opened Tasks
  import opened Todos
  import opened Calendars
  import opened Reconcile
  import opened ReconcileTheorems

  /** A: a task created offline and unknown to the server is created there
      and becomes synced. */
  lemma CreatedOffline(fetch: bool)
    ensures var t := Task("t1", "", "Buy milk", false, "", false);
            var o := Sync(UserData([t], []), [], fetch, {});
            && "t1" in View(o.calendar)
            && View(o.calendar)["t1"].text == "Buy milk"
            && t.(synced := true) in o.data.tasks
  {
    var t := Task("t1", "", "Buy milk", false, "", false);
    var data := UserData([t], []);
    LocalWins(data, [], fetch, {});
    DirtyTasksKept(data, [], fetch, {});
  }

  /** B: a todo created on the server is adopted locally as a synced task. */
  lemma CreatedOnServer(fetch: bool)
    ensures var p := map[UID := "t2", SUMMARY := "Call mom"];
            var o := Sync(UserData([], []), [p], fetch, {});
            FromRemote(RemoteTask("t2", "", "Call mom", false, "")) in o.data.tasks
  {
    var p := map[UID := "t2", SUMMARY := "Call mom"];
    var data := UserData([], []);
    var o := Sync(data, [p], fetch, {});
    var r := RemoteTask("t2", "", "Call mom", false, "");
    PassShape(data, [p], fetch, {});
    var s := Survivors(MaybeFetch([], [p], fetch), Uids([p]));
    assert s == [];
    assert o.calendar == [p];
    assert Listing([p])[0] == r by {
      ProjectFields(p);
    }
    assert FromRemote(r) in Adopted(Listing([p]), Ids(s));
  }

  /** C: a synced task the server no longer has is removed locally. */
  lemma DeletedOnServer(fetch: bool)
    ensures var t := Task("t3", "", "Water plants", false, "", true);
            "t3" !in Ids(Sync(UserData([t], []), [], fetch, {}).data.tasks)
  {
    var t := Task("t3", "", "Water plants", false, "", true);
    RemovedExactlyWhenGone(UserData([t], []), [], fetch, {});
  }

  /** D: a tombstoned id is deleted on the server and the tombstone list
      ends empty. */
  lemma DeletedLocally(fetch: bool)
    ensures var p := map[UID := "t4"];
            var o := Sync(UserData([], ["t4"]), [p], fetch, {});
            "t4" !in Uids(o.calendar) && o.data.deleted == []
  {
    var p := map[UID := "t4"];
    TombstonesFlushed(UserData([], ["t4"]), [p], fetch, {});
  }
}
