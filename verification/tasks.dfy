/** The local task store as the reconciliation pass sees it: the ordered task
    records and the list of ids deleted locally but not yet on the server. */
module Tasks {

  /** One local task. `synced` is the app's `synced_nc` flag: true when the
      local copy has already been pushed to the Nextcloud calendar, false when
      it was changed locally since. */
  datatype Task = Task(
    id: string,
    parent: string,
    text: string,
    completed: bool,
    color: string,
    synced: bool)

  /** The store's content: `tasks` in display order and `deleted`, the
      tombstones still to be propagated to the server. */
  datatype UserData = UserData(tasks: seq<Task>, deleted: seq<string>)

  /** The ids present in a task list. */
  function Ids(ts: seq<Task>): (r: set<string>)
  {
    set t | t in ts :: t.id
  }

  /** The store invariant: no two local tasks share an id. */
  predicate UniqueIds(ts: seq<Task>)
  {
    forall i, j | 0 <= i < j < |ts| :: ts[i].id != ts[j].id
  }

  /** In a list with unique ids the head's id does not recur in the tail,
      and the tail's ids are unique. */
  lemma UniqueIdsTail(ts: seq<Task>)
    requires |ts| > 0 && UniqueIds(ts)
    ensures ts[0].id !in Ids(ts[1..])
    ensures UniqueIds(ts[1..])
  {
    forall t | t in ts[1..] ensures t.id != ts[0].id
    {
      var k :| 0 <= k < |ts[1..]| && ts[1..][k] == t;
      assert ts[k + 1] == t;
    }
  }

  /** Two lists with the same id at every position have the same ids. */
  lemma SameIds(a: seq<Task>, b: seq<Task>)
    requires |a| == |b|
    requires forall i | 0 <= i < |a| :: a[i].id == b[i].id
    ensures Ids(a) == Ids(b)
  {
    forall t | t in a ensures t.id in Ids(b)
    {
      var i :| 0 <= i < |a| && a[i] == t;
      assert b[i] in b;
    }
    forall t | t in b ensures t.id in Ids(a)
    {
      var i :| 0 <= i < |b| && b[i] == t;
      assert a[i] in a;
    }
  }

  lemma IdsConcat(a: seq<Task>, b: seq<Task>)
    ensures Ids(a + b) == Ids(a) + Ids(b)
  {
    assert forall t :: t in a + b <==> t in a || t in b;
  }
}
