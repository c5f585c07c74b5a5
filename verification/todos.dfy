/** A remote todo as an icalendar property map, the task fields read back
    from it, and the two writes the pass performs on it. */
module Todos {
  import opened Tasks

  /** The properties of one VTODO component, keyed by lower-case name. */
  type Props = map<string, string>

  const UID := "uid"
  const RELATED_TO := "related-to"
  const SUMMARY := "summary"
  const STATUS := "status"
  const COLOR := "x-errands-color"

  const COMPLETED := "COMPLETED"
  const NEEDS_ACTION := "NEEDS-ACTION"

  /** The fields the pass reads from a remote todo. */
  datatype RemoteTask = RemoteTask(
    id: string,
    parent: string,
    text: string,
    completed: bool,
    color: string)

  /** A property read with the empty string as default. */
  function Get(p: Props, key: string): (r: string)
  {
    if key in p then p[key] else ""
  }

  /** The status as text; an absent status defaults to `False`, whose text is "False". */
  function Status(p: Props): (r: string)
  {
    if STATUS in p then p[STATUS] else "False"
  }

  /** The field projection of `_get_tasks`. A todo reads as completed
      exactly when its status property is "COMPLETED": the default taken
      for a missing status never is. */
  function Project(p: Props): (r: RemoteTask)
    ensures r.completed <==> STATUS in p && p[STATUS] == COMPLETED
  {
    RemoteTask(Get(p, UID), Get(p, RELATED_TO), Get(p, SUMMARY), Status(p) == COMPLETED, Get(p, COLOR))
  }

  /** A todo reads as completed exactly when its status is "COMPLETED"; a
      missing uid, related-to, summary or colour reads as the empty string,
      and a present one as its value. */
  lemma ProjectFields(p: Props)
    ensures Project(p).completed <==> STATUS in p && p[STATUS] == COMPLETED
    ensures Project(p).id == (if UID in p then p[UID] else "")
    ensures Project(p).parent == (if RELATED_TO in p then p[RELATED_TO] else "")
    ensures Project(p).text == (if SUMMARY in p then p[SUMMARY] else "")
    ensures Project(p).color == (if COLOR in p then p[COLOR] else "")
  {
  }

  /** The remote fields a local task stands for. */
  function ToRemote(t: Task): (r: RemoteTask)
  {
    RemoteTask(t.id, t.parent, t.text, t.completed, t.color)
  }

  /** The local task adopted from a remote item: its fields copied, already synced. */
  function FromRemote(r: RemoteTask): (t: Task)
    ensures ToRemote(t) == r
    ensures t.synced
  {
    Task(r.id, r.parent, r.text, r.completed, r.color, true)
  }

  /** `complete()` marks the todo done: it now reads as completed, every
      other read-back field is as before, and so is every other property. */
  function Complete(p: Props): (r: Props)
    ensures Project(r) == Project(p).(completed := true)
    ensures forall k | k in p && k != STATUS :: k in r && r[k] == p[k]
  {
    p[STATUS := COMPLETED]
  }

  /** `uncomplete()` marks the todo as still to do: it now reads as not
      completed, every other read-back field is as before, and so is every
      other property. */
  function Uncomplete(p: Props): (r: Props)
    ensures Project(r) == Project(p).(completed := false)
    ensures forall k | k in p && k != STATUS :: k in r && r[k] == p[k]
  {
    p[STATUS := NEEDS_ACTION]
  }

  /** The create path: `save_todo` with uid, summary, related-to and colour,
      then `complete()` when the local task is done. Reading the new todo
      back yields exactly the local task's fields. */
  function NewTodo(t: Task): (p: Props)
    ensures Project(p) == ToRemote(t)
  {
    var saved := map[UID := t.id, SUMMARY := t.text, RELATED_TO := t.parent, COLOR := t.color];
    if t.completed then Complete(saved) else saved
  }

  /** The update path: `uncomplete()`, overwrite summary, related-to and
      colour, save, then `complete()` when the local task is done. Its net
      effect is a full overwrite of the read-back fields, completion
      included; the uid and every other property stay as they were. */
  function Rewrite(p: Props, t: Task): (r: Props)
    ensures Project(r) == ToRemote(t).(id := Get(p, UID))
    ensures Get(r, UID) == Get(p, UID)
    ensures forall k | k in p && k != STATUS && k != SUMMARY && k != RELATED_TO && k != COLOR ::
              k in r && r[k] == p[k]
  {
    var u := Uncomplete(p)[SUMMARY := t.text][RELATED_TO := t.parent][COLOR := t.color];
    if t.completed then Complete(u) else u
  }
}
