/** The remote "Errands" calendar: its todos in the order the server lists
    them, the uid-keyed view the pass reads, and the three writes it makes
    (create, update, delete). */
module Calendars {
  import opened Tasks
  import opened Todos

  /** The todo collection, in listing order. */
  type Calendar = seq<Props>

  /** The uid of a todo, as `_get_tasks` reads it. */
  function Uid(p: Props): (r: string)
  {
    Get(p, UID)
  }

  /** The uids present in the collection (`nc_ids`). */
  function Uids(c: Calendar): (r: set<string>)
  {
    set p | p in c :: Uid(p)
  }

  /** No two todos share a uid, as the CalDAV no-uid-conflict rule
      (section 4.1 of RFC 4791) guarantees for one collection. */
  predicate UniqueUids(c: Calendar)
  {
    forall i, j | 0 <= i < j < |c| :: Uid(c[i]) != Uid(c[j])
  }

  /** `_get_tasks`: every todo projected, in listing order; the id listed
      at each position is that todo's uid (so `nc_ids` is `Uids`, see
      `ListingIds`). */
  function Listing(c: Calendar): (r: seq<RemoteTask>)
    ensures |r| == |c|
    ensures forall j | 0 <= j < |c| :: r[j].id == Uid(c[j])
  {
    seq(|c|, i requires 0 <= i < |c| => Project(c[i]))
  }

  /** Todo `i` is the first one listed with its uid. */
  predicate FirstWithUid(c: Calendar, i: int)
    requires 0 <= i < |c|
  {
    forall j | 0 <= j < i :: Uid(c[j]) != Uid(c[i])
  }

  lemma UidsCons(c: Calendar)
    requires |c| > 0
    ensures Uids(c) == {Uid(c[0])} + Uids(c[1..])
  {
    assert c == [c[0]] + c[1..];
  }

  /** The collection looked up by uid: for each uid, the projection of the
      first todo listed with it (the first match a scan of `_get_tasks` finds). */
  function View(c: Calendar): (m: map<string, RemoteTask>)
    ensures m.Keys == Uids(c)
    ensures forall k | k in m :: m[k].id == k
    decreases |c|
  {
    if |c| == 0 then map[]
    else
      UidsCons(c);
      View(c[1..])[Uid(c[0]) := Project(c[0])]
  }

  /** The view holds the first todo listed with each uid. */
  lemma {:induction false} ViewFirst(c: Calendar, i: int)
    requires 0 <= i < |c| && FirstWithUid(c, i)
    ensures View(c)[Uid(c[i])] == Project(c[i])
    decreases |c|
  {
    if i > 0 {
      assert FirstWithUid(c[1..], i - 1);
      ViewFirst(c[1..], i - 1);
    }
  }

  /** Under unique uids every todo is what the view shows for its uid. */
  lemma ViewOfUnique(c: Calendar)
    requires UniqueUids(c)
    ensures forall i | 0 <= i < |c| :: View(c)[Uid(c[i])] == Project(c[i])
  {
    forall i | 0 <= i < |c|
      ensures View(c)[Uid(c[i])] == Project(c[i])
    {
      ViewFirst(c, i);
    }
  }

  /** The listing's ids are exactly the collection's uids. */
  lemma ListingIds(c: Calendar)
    ensures forall j | 0 <= j < |c| :: Listing(c)[j].id in Uids(c)
    ensures forall u | u in Uids(c) :: exists j :: 0 <= j < |c| && Listing(c)[j].id == u
  {
    forall j | 0 <= j < |c| ensures Listing(c)[j].id in Uids(c)
    {
      assert c[j] in c;
    }
    forall u | u in Uids(c) ensures exists j :: 0 <= j < |c| && Listing(c)[j].id == u
    {
      var p :| p in c && Uid(p) == u;
      var j :| 0 <= j < |c| && c[j] == p;
      assert Listing(c)[j].id == u;
    }
  }

  /** Writes to two different keys of a map commute. */
  lemma UpdatesCommute<K, V>(m: map<K, V>, a: K, x: V, b: K, y: V)
    requires a != b
    ensures m[a := x][b := y] == m[b := y][a := x]
  {
  }

  /** A collection with a todo added at the end. */
  lemma UidsSnoc(c: Calendar, p: Props)
    ensures Uids(c + [p]) == Uids(c) + {Uid(p)}
  {
    assert forall q :: q in c + [p] <==> q in c || q == p;
  }

  /** `save_todo` of a todo whose uid is new: the view gains exactly that entry. */
  lemma {:induction false} SaveNew(c: Calendar, p: Props)
    requires Uid(p) !in Uids(c)
    ensures View(c + [p]) == View(c)[Uid(p) := Project(p)]
    decreases |c|
  {
    var d := c + [p];
    if |c| == 0 {
      assert d[1..] == [];
    } else {
      var m := View(c[1..]);
      assert Uid(c[0]) != Uid(p) && Uid(p) !in Uids(c[1..]) by {
        UidsCons(c);
      }
      assert d[0] == c[0] && d[1..] == c[1..] + [p];
      SaveNew(c[1..], p);
      UpdatesCommute(m, Uid(p), Project(p), Uid(c[0]), Project(c[0]));
    }
  }

  /** Adding a todo with a new uid keeps the uids unique. */
  lemma SaveNewUnique(c: Calendar, p: Props)
    requires Uid(p) !in Uids(c)
    requires UniqueUids(c)
    ensures UniqueUids(c + [p])
  {
    forall i, j | 0 <= i < j < |c + [p]| ensures Uid((c + [p])[i]) != Uid((c + [p])[j])
    {
      if j == |c| {
        assert c[i] in c;
      }
    }
  }

  /** The update path on the server: `todo_by_uid` finds the first todo with
      the uid and the rewrite overwrites its fields. */
  function UpdateByUid(c: Calendar, uid: string, t: Task): (r: Calendar)
    ensures |r| == |c|
    ensures forall i | 0 <= i < |c| :: Uid(r[i]) == Uid(c[i])
    decreases |c|
  {
    if |c| == 0 then c
    else if Uid(c[0]) == uid then [Rewrite(c[0], t)] + c[1..]
    else [c[0]] + UpdateByUid(c[1..], uid, t)
  }

  /** An update keeps the set of uids and their uniqueness. */
  lemma UpdateKeepsUids(c: Calendar, uid: string, t: Task)
    ensures Uids(UpdateByUid(c, uid, t)) == Uids(c)
    ensures UniqueUids(c) ==> UniqueUids(UpdateByUid(c, uid, t))
  {
    var r := UpdateByUid(c, uid, t);
    forall u | u in Uids(c) ensures u in Uids(r)
    {
      var i :| 0 <= i < |c| && Uid(c[i]) == u;
      assert r[i] in r;
    }
    forall u | u in Uids(r) ensures u in Uids(c)
    {
      var i :| 0 <= i < |r| && Uid(r[i]) == u;
      assert c[i] in c;
    }
  }

  /** Updating a uid the collection holds overwrites exactly that entry of
      the view with the local task's fields; the uid itself is kept. */
  lemma {:induction false} UpdateOverwrites(c: Calendar, uid: string, t: Task)
    requires uid in Uids(c)
    ensures View(UpdateByUid(c, uid, t)) == View(c)[uid := ToRemote(t).(id := uid)]
    decreases |c|
  {
    var r := UpdateByUid(c, uid, t);
    var m := View(c[1..]);
    if Uid(c[0]) == uid {
      assert r[1..] == c[1..];
    } else {
      assert uid in Uids(c[1..]) by {
        UidsCons(c);
      }
      assert r[1..] == UpdateByUid(c[1..], uid, t);
      UpdateOverwrites(c[1..], uid, t);
      UpdatesCommute(m, uid, ToRemote(t).(id := uid), Uid(c[0]), Project(c[0]));
    }
  }

  /** The delete path on the server: `todo_by_uid` then `delete()` removes
      the first todo with the uid. A missing uid makes the lookup fail; the
      failure is swallowed and the collection stays as it was. */
  function DeleteByUid(c: Calendar, uid: string): (r: Calendar)
    ensures |r| <= |c|
    decreases |c|
  {
    if |c| == 0 then c
    else if Uid(c[0]) == uid then c[1..]
    else [c[0]] + DeleteByUid(c[1..], uid)
  }

  /** Deleting a missing uid is a no-op. */
  lemma {:induction false} DeleteMissing(c: Calendar, uid: string)
    requires uid !in Uids(c)
    ensures DeleteByUid(c, uid) == c
    decreases |c|
  {
    if |c| > 0 {
      UidsCons(c);
      DeleteMissing(c[1..], uid);
    }
  }

  /** In a collection with unique uids the head's uid does not recur in
      the tail, and the tail's uids are unique. */
  lemma UniqueTail(c: Calendar)
    requires |c| > 0 && UniqueUids(c)
    ensures Uid(c[0]) !in Uids(c[1..])
    ensures UniqueUids(c[1..])
  {
    forall q | q in c[1..] ensures Uid(q) != Uid(c[0])
    {
      var k :| 0 <= k < |c[1..]| && c[1..][k] == q;
      assert c[k + 1] == q;
    }
  }

  /** With unique uids a delete removes the uid from the view and changes
      nothing else; uniqueness is kept. */
  lemma {:induction false} DeleteRemoves(c: Calendar, uid: string)
    requires UniqueUids(c)
    ensures UniqueUids(DeleteByUid(c, uid))
    ensures View(DeleteByUid(c, uid)) == View(c) - {uid}
    decreases |c|
  {
    if |c| > 0 {
      UniqueTail(c);
      var m := View(c[1..]);
      if Uid(c[0]) == uid {
        assert m - {uid} == m;
      } else {
        DeleteRemoves(c[1..], uid);
        DeleteCons(c, uid);
        RemoveThenUpdate(m, uid, Uid(c[0]), Project(c[0]));
      }
    }
  }

  /** Removing a key and writing another one commute. */
  lemma RemoveThenUpdate<K, V>(m: map<K, V>, a: K, b: K, y: V)
    requires a != b
    ensures (m - {a})[b := y] == m[b := y] - {a}
  {
  }

  /** Deleting past a head with another uid keeps the head, its view entry
      and uniqueness. */
  lemma DeleteCons(c: Calendar, uid: string)
    requires |c| > 0 && UniqueUids(c) && Uid(c[0]) != uid
    requires UniqueUids(DeleteByUid(c[1..], uid))
    ensures UniqueUids(DeleteByUid(c, uid))
    ensures View(DeleteByUid(c, uid)) == View(DeleteByUid(c[1..], uid))[Uid(c[0]) := Project(c[0])]
  {
    var rest := DeleteByUid(c[1..], uid);
    var r := [c[0]] + rest;
    assert DeleteByUid(c, uid) == r;
    assert r[1..] == rest;
    DeleteShrinks(c[1..], uid);
    UniqueTail(c);
    forall i, j | 0 <= i < j < |r| ensures Uid(r[i]) != Uid(r[j])
    {
      if i == 0 {
        assert r[j] in rest;
      } else {
        assert r[i] == rest[i - 1] && r[j] == rest[j - 1];
      }
    }
  }

  /** A delete only ever removes uids. */
  /** A delete takes away no uid other than its own, even when uids repeat. */
  lemma {:induction false} DeleteKeepsOthers(c: Calendar, uid: string)
    ensures Uids(c) - {uid} <= Uids(DeleteByUid(c, uid))
    decreases |c|
  {
    if |c| > 0 {
      UidsCons(c);
      DeleteKeepsOthers(c[1..], uid);
      if Uid(c[0]) != uid {
        UidsCons(DeleteByUid(c, uid));
        assert DeleteByUid(c, uid)[1..] == DeleteByUid(c[1..], uid);
      }
    }
  }

  lemma {:induction false} DeleteShrinks(c: Calendar, uid: string)
    ensures Uids(DeleteByUid(c, uid)) <= Uids(c)
    decreases |c|
  {
    if |c| > 0 {
      UidsCons(c);
      DeleteShrinks(c[1..], uid);
      if Uid(c[0]) != uid {
        UidsCons(DeleteByUid(c, uid));
        assert DeleteByUid(c, uid)[1..] == DeleteByUid(c[1..], uid);
      }
    }
  }
}
