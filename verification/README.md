# Errands: Nextcloud task-list reconciliation, modelled in Dafny

This project models the reconciliation pass of the Errands to-do app's
Nextcloud sync provider (`SyncProviderNextcloud.sync` and the field
projection `_get_tasks` in `src/sync.py`) and proves its properties.

The pass merges the local task list, stored by `UserData`, with the
"Errands" CalDAV calendar on the server. It uses only two signals per task:
whether the task's id is in a one-time snapshot of the server's uids, and
the task's `synced_nc` flag. Its steps run in this order:

1. Snapshot the uids (`nc_ids`).
2. Optionally fetch: clean tasks take the server's fields.
3. Classify every task by the 2×2 table (listed remotely? synced?) and act:
   - create: absent and dirty;
   - update: present and dirty;
   - mark for local removal: absent and clean;
   - nothing: present and clean.
4. Remove the marked tasks.
5. Flush the tombstone list `deleted` and empty it.
6. Adopt every todo the server now lists that has no local counterpart.

The model is a pure function, `Reconcile.Sync`. It takes the store
(`UserData`: tasks and tombstones), the calendar, the `fetch` flag and the set
of tombstones whose remote delete fails. It returns the new store and the new
calendar.

Files:
- `tasks.dfy` (`Tasks`): the local `Task` record (`synced` is `synced_nc`) and the store.
- `todos.dfy` (`Todos`): a remote todo as an icalendar property map (`Props`) and the
  projection `Project` that `_get_tasks` applies. It also holds the create path `NewTodo`
  and the update path `Rewrite`, modelled on the property map.
- `calendar.dfy` (`Calendars`): the calendar as `seq<Props>` in server listing order.
  `View` is the uid-keyed view: for each uid, the first todo listed with it.
  It also holds the three remote writes: append a new todo, rewrite the first todo
  with a uid, and delete the first todo with a uid.
- `reconcile.dfy` (`Reconcile`): one function per step of the pass and the step lemmas.
  It also holds the reference definitions the steps are proved against:
  - `Pushed`: the intended map inserts and overwrites;
  - `Survivors`: the intended filter of the local list.
- `theorems.dfy` (`ReconcileTheorems`): properties of a whole pass.
- `convergence.dfy` (`Convergence`): after a fetching pass, store and server agree,
  and a second pass changes nothing.
- `scenarios.dfy` (`Scenarios`): four worked examples, each derived from the theorems.

Store invariants are hypotheses of the lemmas, not preconditions of the pass.
`Sync` is total. The invariants are:
- local ids are unique;
- remote uids are unique, as the CalDAV rule in section 4.1 of RFC 4791 requires of one collection;
- no tombstoned id is still a local id.

How the remote writes behave in `src/sync.py`:
- Exceptions from create and update are not caught (src/sync.py:133-153), so those writes are total here.
  The update target always exists during the pass: `ActAllPushes` keeps the snapshot aligned with the calendar.
- A delete that fails for any reason is swallowed by the bare `except` (src/sync.py:167-172).
  The tombstone list is emptied anyway (src/sync.py:173).
  So when the server still lists that todo, the same pass adopts it back as a local task (`ReconcileTheorems.FailedDeleteResurrects`).
  A delete that goes through is never undone by adoption (`ReconcileTheorems.NoResurrection`).
- The create path (src/sync.py:133-138) appends a new todo to the collection.
  With unique local ids the uid is never already on the server.

## Model

| member | source | states |
|---|---|---|
| Todos.Project | src/sync.py:86-94 | `_get_tasks` reads a todo as completed exactly when its status property is "COMPLETED"; a missing status never reads as completed |
| Todos.Complete | src/sync.py:139-140 | `complete()` makes the todo read as completed and changes no other read-back field and no other property |
| Todos.Uncomplete | src/sync.py:147 | `uncomplete()` makes the todo read as not completed and changes no other read-back field and no other property |
| Todos.ProjectFields | src/sync.py:86-94 | a todo reads as completed exactly when its status property is "COMPLETED"; a missing uid, related-to, summary or colour reads as "", a present one as its value |
| Todos.FromRemote | src/sync.py:180-189 | an adopted task carries the remote item's id, text, parent, completion and colour, and is synced |
| Todos.NewTodo | src/sync.py:133-140 | the create path (`save_todo`, then `complete()` when done) reads back as exactly the local task's id, text, parent, completion and colour |
| Todos.Rewrite | src/sync.py:146-153 | the update path (uncomplete, write summary/related-to/colour, complete when done) reads back as the local task's fields, completion included; it keeps the uid and leaves every other property alone |
| Calendars.Listing | src/sync.py:83-97 | `_get_tasks` lists one item per todo, in server order, each carrying its todo's uid |
| Calendars.View | src/sync.py:106 | the uid-keyed view has exactly the collection's uids as keys, and each entry carries its own uid |
| Calendars.ViewFirst | src/sync.py:117-123 | the view holds the first todo listed with a uid, which is the match the fetch loop's `break` picks |
| Calendars.ViewOfUnique | src/sync.py:117-123 | with unique uids, every todo is what the view shows for its uid |
| Calendars.ListingIds | src/sync.py:83-97 | the ids `_get_tasks` lists are exactly the collection's uids |
| Calendars.SaveNew | src/sync.py:133-138 | saving a todo with a new uid adds exactly that uid to the view, mapped to the todo's fields |
| Calendars.SaveNewUnique | src/sync.py:133-138 | saving a todo with a new uid keeps uids unique |
| Calendars.UpdateByUid | src/sync.py:146-151 | an update keeps the number of todos and every todo's uid |
| Calendars.UpdateKeepsUids | src/sync.py:146-151 | an update keeps the set of uids and their uniqueness |
| Calendars.UpdateOverwrites | src/sync.py:146-153 | updating a present uid overwrites exactly that view entry with the local fields and changes no other entry |
| Calendars.DeleteByUid | src/sync.py:169-170 | a delete never lengthens the collection |
| Calendars.DeleteMissing | src/sync.py:166-172 | deleting a uid that is not there is a no-op, as the swallowed lookup failure makes it |
| Calendars.DeleteRemoves | src/sync.py:169-170 | with unique uids a delete removes exactly that uid from the view and keeps uniqueness |
| Calendars.DeleteShrinks | src/sync.py:169-170 | a delete never adds a uid |
| Reconcile.FetchTask | src/sync.py:116-123 | one task through fetch: a synced task the server lists takes the server's text, parent, completion and colour; id and flag are kept; any other task is unchanged |
| Reconcile.Fetch | src/sync.py:109-127 | fetch gives a synced task the server lists the server's text, parent, completion and colour; it keeps every id and flag and leaves dirty or unlisted tasks unchanged |
| Reconcile.MaybeFetch | src/sync.py:109-127 | the optional fetch keeps every task's position, id and flag and never touches a dirty task |
| Reconcile.Classify | src/sync.py:131-157 | a task is pushed (created or updated) exactly when it is dirty, and is created or removed locally exactly when the snapshot does not list it; these two facts fix the action |
| Reconcile.Act | src/sync.py:129-159 | handling one task leaves it synced with its fields unchanged; it is doomed exactly when synced and absent from the snapshot; a clean task causes no remote write |
| Reconcile.ActAll | src/sync.py:129-159 | the classification loop returns every task synced and otherwise unchanged; the tasks marked for removal are exactly those synced and absent from the snapshot |
| Reconcile.Pushed | src/sync.py:130-154 | the intended remote effect gains exactly the dirty ids as keys and leaves every other key's entry unchanged |
| Reconcile.PushedWrites | src/sync.py:130-154 | with unique ids, the intended remote effect holds every dirty task's own fields under its id |
| Reconcile.ActWrites | src/sync.py:130-154 | one task's remote write: a dirty task's fields land under its id (new todo if the snapshot lacks it, overwrite otherwise); a clean task writes nothing; uids stay unique |
| Reconcile.ActAllPushes | src/sync.py:129-154 | the loop's remote writes equal the intended inserts and overwrites; the uids grow by exactly the dirty ids; uid uniqueness is kept |
| Reconcile.RemoveFirst | src/sync.py:163 | `list.remove` only ever drops elements |
| Reconcile.RemoveAll | src/sync.py:162-163 | the removal loop only ever drops elements |
| Reconcile.Survivors | src/sync.py:156-163 | the intended local list holds exactly the tasks not synced-and-absent, each marked synced |
| Reconcile.RemoveFirstFilters | src/sync.py:163 | in a list without repeated values, removing the first equal element is filtering that value out |
| Reconcile.RemoveAllFilters | src/sync.py:161-163 | in a list without repeated values, the removal loop is filtering out all the removed values at once |
| Reconcile.KeptAreSurvivors | src/sync.py:129-163 | with unique ids, classification followed by removal by value leaves exactly the survivors: original order kept, synced-and-absent tasks dropped, dirty tasks never dropped |
| Reconcile.Flush | src/sync.py:165-172 | the tombstone loop never lengthens the collection, and the only uids it can take away are tombstones whose delete goes through |
| Reconcile.FlushDeletes | src/sync.py:165-173 | with unique uids the flush removes exactly the tombstones whose delete goes through, leaves every other entry unchanged, and keeps uniqueness |
| Reconcile.FlushShrinks | src/sync.py:165-172 | the flush never adds a uid |
| Reconcile.Adopted | src/sync.py:176-190 | the appended tasks are exactly the synced copies of the listed items whose id is not already local |
| Reconcile.Adopt | src/sync.py:175-190 | adoption keeps the existing list as a prefix and makes every listed id a local id; each appended task is synced, copies a listed item, and has an id the list did not already have |
| Reconcile.AdoptedUnique | src/sync.py:176-190 | a listing with unique ids yields adopted tasks with unique ids |
| Reconcile.AdoptUnique | src/sync.py:175-190 | adoption keeps local ids unique when listed ids are unique |
| Reconcile.SurvivorsUnique | src/sync.py:156-163 | the survivors of a list with unique ids have unique ids, all drawn from the list |
| Reconcile.Sync | src/sync.py:99-192 | after a pass the tombstone list is empty, every local task is synced, and every uid on the server is a local id |
| ReconcileTheorems.MaybeFetchKeeps | src/sync.py:109-127 | the fetch step keeps length, ids, flags, dirty tasks and uniqueness of ids |
| ReconcileTheorems.PassShape | src/sync.py:99-192 | a pass gives survivors then adopted items locally; the server ends as the intended pushes followed by the flush; remote uids come only from the snapshot or from dirty tasks |
| ReconcileTheorems.DirtyTasksKept | src/sync.py:129-163 | a dirty task is never removed locally; it comes out with the same fields, now synced |
| ReconcileTheorems.GoneNotSurvivor | src/sync.py:156-163 | a synced task absent from the snapshot leaves no survivor with its id |
| ReconcileTheorems.AdoptedFromCollection | src/sync.py:175-190 | every adopted id is a uid of the post-flush collection |
| ReconcileTheorems.GoneLeavesNoTrace | src/sync.py:156-190 | a synced task absent from the snapshot is gone after the pass and is not re-adopted |
| ReconcileTheorems.RemovedExactlyWhenGone | src/sync.py:156-163 | a local task's id survives the pass if and only if the task was not both synced and absent from the snapshot |
| ReconcileTheorems.LocalWins | src/sync.py:130-154 | after the pass the server holds each dirty task under its id with exactly the local text, parent, colour and completion, whether it was created or updated |
| ReconcileTheorems.TombstonesFlushed | src/sync.py:165-173 | the tombstone list ends empty; every tombstone whose delete goes through is absent from the server; nothing else was removed |
| ReconcileTheorems.NoResurrection | src/sync.py:165-190 | on a well-formed store, a tombstoned id whose delete goes through is not a local id after the pass: adoption reads the listing after the flush |
| ReconcileTheorems.FailedDeleteResurrects | src/sync.py:165-190 | when a tombstone's delete fails and the server still lists the todo, the pass empties the tombstone list and adopts the todo back |
| ReconcileTheorems.SurvivorsThenAdopted | src/sync.py:129-190 | the result starts with the surviving tasks in their original order; after them come only adopted tasks, each synced, each a copy of a listed item, none with a survivor's id |
| ReconcileTheorems.NoFetchKeepsSynced | src/sync.py:126-163 | without fetch, a synced task the server lists comes through the pass unchanged |
| ReconcileTheorems.FetchTakesRemote | src/sync.py:109-127 | with fetch, a synced task the server lists comes through as a synced copy of the server's item |
| Convergence.SettledListIsLeftAlone | src/sync.py:129-163 | synced tasks the snapshot lists are neither changed, marked nor written |
| Convergence.NothingToAdopt | src/sync.py:176-190 | nothing is adopted when every listed id is already local |
| Convergence.FetchOnConverged | src/sync.py:109-127 | on agreeing state the fetch changes nothing |
| Convergence.ConvergedIsFixpoint | src/sync.py:99-192 | a pass over agreeing state changes neither store nor server, with or without fetch |
| Convergence.SurvivorMirrored | src/sync.py:109-173 | after a fetching pass each survivor is a synced copy of what the server holds for its id |
| Convergence.AdoptedMirrored | src/sync.py:175-190 | each adopted task is a synced copy of what the server holds for its id |
| Convergence.PassConverges | src/sync.py:99-192 | a fetching pass over a well-formed store leaves store and server in agreement |
| Convergence.SyncIdempotent | src/sync.py:99-192 | after a fetching pass, a second pass with nothing changed in between is a no-op |
| Scenarios.CreatedOffline | src/sync.py:130-141 | a dirty task unknown to the server is created there with its text and stays locally, synced |
| Scenarios.CreatedOnServer | src/sync.py:175-190 | a todo only the server has is adopted locally as a synced copy |
| Scenarios.DeletedOnServer | src/sync.py:156-163 | a synced task the server no longer has is removed locally |
| Scenarios.DeletedLocally | src/sync.py:165-173 | a tombstoned id is deleted from the server and the tombstone list ends empty |

## Left out

- The `Sync` class (src/sync.py:6-36): the provider registry, threaded dispatch and window plumbing. This is orchestration with no state the pass depends on.
- `SyncProviderNextcloud.__init__` (src/sync.py:43-80): settings reads, connecting to the DAV server, and finding or creating the calendar. These are I/O; the calendar is an input of `Sync`.
- `SyncProviderTodoist` (src/sync.py:195-205): an empty stub.
- `UserData.get`/`UserData.set` and the `Log` calls: the store is the input and output of `Sync`. The intermediate save after fetch (src/sync.py:124) is not modelled. It only matters if the pass crashes midway.
- Exceptions from `save_todo`, `todo_by_uid` on update, `save`, `complete` and `uncomplete` abort the pass in the source. The model treats these writes as always succeeding.
- Calendars.UpdateByUid: a missing uid leaves the collection unchanged, where the CalDAV library would raise. The pass never updates a missing uid (see `ActAllPushes`).
- Reconcile.RemoveFirst: when no element equals the value, Python's `list.remove` raises. The model returns the list unchanged. In the pass every removed value comes from the list itself.
- `TaskUtils.new_task` is not part of this model. An adopted task is assumed to get the listed fields and a synced flag of true. Its other fields (the two `False` arguments) are not modelled.
- `complete()`/`uncomplete()` are modelled only through the status property. The COMPLETED timestamp and other properties the CalDAV library may touch are not read back by `_get_tasks`.
- Todos.NewTodo: the create call passes the keywords `related_to` and `x_errands_color` to the CalDAV library's `save_todo` (src/sync.py:136-137). The model assumes the library stores them under the property names `related-to` and `x-errands-color`, which `_get_tasks` reads (src/sync.py:88, 93) and the update path writes (src/sync.py:149-150). That mapping lives in the library, which is not part of this model. If the library kept the keywords as given, a created task's parent and colour would read back as "", and the next fetching pass would blank them locally. The round trip of `NewTodo`, `LocalWins` for created tasks and `Scenarios.CreatedOffline` rest on this assumption.
- Icalendar property names are case-insensitive; the model uses fixed lower-case keys. Values are plain strings, so the `str(...)` conversions are identities except for the status default, which is the text "False".
- Server listing order is an input: a created todo is placed at the end of the listing. Created ids are always local already, so this placement never affects adoption.
