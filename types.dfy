/** The records shared by the server and the client. */
module Types {

  datatype Option<T> = None | Some(value: T)
  {
    /** `x || fallback` for an optional string field. */
    function GetOr(fallback: T): T
    {
      match this
      case Some(v) => v
      case None => fallback
    }
  }

  /** Identifiers are opaque strings (Mongo object ids rendered as text). */
  type UserId = string
  type TaskId = string

  /** Milliseconds since the epoch; dates are compared as these numbers. */
  type Millis = int

  /** `1000 * 60 * 60 * 24`. */
  const MsPerDay: int := 86400000

  /** A stored task: `_id`, its owner `user`, the user-supplied fields and the
      creation timestamp that orders the list. */
  datatype Task = Task(
    id: TaskId,
    owner: UserId,
    taskName: string,
    description: Option<string>,
    dueDate: string,
    createdAt: Millis)

  /** No two stored tasks share an `_id`. */
  predicate UniqueIds(s: seq<Task>)
  {
    forall i, j :: 0 <= i < j < |s| ==> s[i].id != s[j].id
  }
}
