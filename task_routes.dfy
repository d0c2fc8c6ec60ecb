/** The five task routes over the task collection. Every lookup is filtered on
    the pair (task id, acting user), so another user's task answers exactly as
    a missing one does. The acting user id is what the authentication layer
    resolved; ids of new documents and their creation times are supplied. */
module TaskRoutes {
  import opened Types
  import opened Validation

  datatype Payload =
    | One(task: Task)
    | Many(tasks: seq<Task>)
    | Message(text: string)
    | Invalid(message: string, errors: seq<FieldError>)

  datatype Response = Response(status: nat, payload: Payload)

  const NotFound := Response(404, Message("Task not found"))

  /** The query `{ _id: id, user }`. */
  predicate Owns(t: Task, user: UserId, id: TaskId)
  {
    t.id == id && t.owner == user
  }

  /** The query `{ user }`, in storage order. */
  function OwnedBy(s: seq<Task>, user: UserId): (r: seq<Task>)
    ensures forall t :: t in r <==> t in s && t.owner == user
    ensures |r| <= |s|
  {
    if s == [] then [] else (if s[0].owner == user then [s[0]] else []) + OwnedBy(s[1..], user)
  }

  /** Selecting one owner's tasks distributes over concatenation of storage. */
  lemma {:induction false} OwnedByConcat(a: seq<Task>, b: seq<Task>, user: UserId)
    ensures OwnedBy(a + b, user) == OwnedBy(a, user) + OwnedBy(b, user)
  {
    if a == [] {
      assert a + b == b;
    } else {
      assert (a + b)[1..] == a[1..] + b;
      OwnedByConcat(a[1..], b, user);
    }
  }

  /** Replacing one user's task by another of the same owner leaves every other
      user's selection as it was. */
  lemma {:induction false} OwnedByReplace(s: seq<Task>, i: nat, t: Task, user: UserId)
    requires i < |s| && s[i].owner == t.owner && t.owner != user
    ensures OwnedBy(s[i := t], user) == OwnedBy(s, user)
  {
    if i > 0 {
      assert s[i := t][1..] == s[1..][i - 1 := t];
      OwnedByReplace(s[1..], i - 1, t, user);
    } else {
      assert s[i := t][1..] == s[1..];
    }
  }

  /** `sort({ createdAt: -1 })` holds: newest first. */
  predicate NewestFirst(s: seq<Task>)
  {
    forall i, j :: 0 <= i < j < |s| ==> s[i].createdAt >= s[j].createdAt
  }

  /** Places `t` in a newest-first list ahead of every task no newer than it. */
  function InsertByAge(t: Task, s: seq<Task>): (r: seq<Task>)
    requires NewestFirst(s)
    ensures NewestFirst(r)
    ensures multiset(r) == multiset(s) + multiset{t}
    ensures |r| == |s| + 1
  {
    if s == [] || t.createdAt >= s[0].createdAt then
      [t] + s
    else
      var rest := InsertByAge(t, s[1..]);
      assert s == [s[0]] + s[1..];
      HeadLeadsRest(s, t, rest);
      [s[0]] + rest
  }

  /** The head of a newest-first list, older than nothing in its tail nor `t`,
      can lead any arrangement of the tail plus `t`. */
  lemma HeadLeadsRest(s: seq<Task>, t: Task, rest: seq<Task>)
    requires s != [] && NewestFirst(s) && NewestFirst(rest)
    requires t.createdAt < s[0].createdAt
    requires multiset(rest) == multiset(s[1..]) + multiset{t}
    ensures NewestFirst([s[0]] + rest)
  {
    forall k | 0 <= k < |rest| ensures s[0].createdAt >= rest[k].createdAt {
      assert rest[k] in multiset(rest);
      if rest[k] != t {
        var tail := s[1..];
        assert rest[k] in multiset(tail);
        var m :| 0 <= m < |tail| && tail[m] == rest[k];
        assert s[m + 1] == rest[k];
      }
    }
    var r := [s[0]] + rest;
    forall i, j | 0 <= i < j < |r| ensures r[i].createdAt >= r[j].createdAt {
      if i == 0 {
        assert r[j] == rest[j - 1];
      } else {
        assert r[i] == rest[i - 1] && r[j] == rest[j - 1];
      }
    }
  }

  /** The ordering the store applies to a query result: newest first, a
      permutation of its input. Equal timestamps keep storage order. */
  function SortNewestFirst(s: seq<Task>): (r: seq<Task>)
    ensures NewestFirst(r)
    ensures multiset(r) == multiset(s)
    ensures |r| == |s|
  {
    if s == [] then [] else
      assert s == [s[0]] + s[1..];
      InsertByAge(s[0], SortNewestFirst(s[1..]))
  }

  /** Inserting a task older than the head of a list leaves that head in front. */
  lemma InsertBehindHead(x: Task, h: Task, rest: seq<Task>)
    requires NewestFirst(rest) && NewestFirst([h] + rest)
    requires x.createdAt < h.createdAt
    ensures InsertByAge(x, [h] + rest) == [h] + InsertByAge(x, rest)
  {
    var l := [h] + rest;
    assert l[0] == h && l[1..] == rest;
  }

  /** A task newer than everything stored goes to the front of the sorted list,
      ahead of the previous order, which is kept. */
  lemma {:induction false} NewestGoesFirst(s: seq<Task>, t: Task)
    requires forall k :: 0 <= k < |s| ==> s[k].createdAt < t.createdAt
    ensures SortNewestFirst(s + [t]) == [t] + SortNewestFirst(s)
  {
    if s == [] {
      assert s + [t] == [t];
    } else {
      var st := s + [t];
      assert st[0] == s[0] && st[1..] == s[1..] + [t];
      NewestGoesFirst(s[1..], t);
      var sorted := SortNewestFirst(s[1..]);
      assert SortNewestFirst(st) == InsertByAge(s[0], [t] + sorted);
      InsertBehindHead(s[0], t, sorted);
    }
  }

  /** Position of the task the query `{ _id: id, user }` finds, if any. */
  function FindOwned(s: seq<Task>, user: UserId, id: TaskId): (r: Option<nat>)
    ensures r.Some? ==> r.value < |s| && Owns(s[r.value], user, id)
    ensures r.None? <==> forall k :: 0 <= k < |s| ==> !Owns(s[k], user, id)
  {
    if s == [] then None
    else if Owns(s[0], user, id) then Some(0)
    else match FindOwned(s[1..], user, id)
      case None => None
      case Some(k) => Some(k + 1)
  }

  /** The document `new Task({ taskName, description, dueDate, user })` builds:
      the owner is the acting user, never a field of the body. */
  function NewTask(id: TaskId, user: UserId, fields: TaskBody, now: Millis): Task
  {
    Task(id, user, Value(fields.taskName), fields.description, Value(fields.dueDate), now)
  }

  /** The three assignments of the update handler, applied to a loaded document. */
  function Edited(t: Task, fields: TaskBody): Task
  {
    t.(taskName := Value(fields.taskName), description := fields.description, dueDate := Value(fields.dueDate))
  }

  class TaskStore {
    /** The task collection, in insertion order. */
    var tasks: seq<Task>

    ghost predicate Valid()
      reads this
    {
      UniqueIds(tasks)
    }

    constructor ()
      ensures Valid() && tasks == []
    {
      tasks := [];
    }

    /** GET /: exactly the caller's tasks, newest first. */
    function List(user: UserId): (r: Response)
      reads this
      ensures r.status == 200 && r.payload.Many?
      ensures forall t :: t in r.payload.tasks <==> t in tasks && t.owner == user
      ensures multiset(r.payload.tasks) == multiset(OwnedBy(tasks, user))
      ensures NewestFirst(r.payload.tasks)
    {
      var r := SortNewestFirst(OwnedBy(tasks, user));
      assert forall t :: t in r <==> t in multiset(OwnedBy(tasks, user));
      Response(200, Many(r))
    }

    /** GET /:id: the task when it exists AND belongs to the caller; otherwise
        the one 404 answer, whether it is absent or someone else's. */
    function Get(user: UserId, id: TaskId): (r: Response)
      reads this
      ensures r.status == 200 <==> exists k :: 0 <= k < |tasks| && Owns(tasks[k], user, id)
      ensures r.status == 200 ==> r.payload.One? && r.payload.task in tasks && Owns(r.payload.task, user, id)
      ensures r.status != 200 ==> r == NotFound
    {
      match FindOwned(tasks, user, id)
      case None => NotFound
      case Some(k) => Response(200, One(tasks[k]))
    }

    /** POST /: after the rule chain, stores a new task owned by the caller with
        the sanitized name, description and due date. A rejected body leaves
        the collection untouched. */
    method Create(user: UserId, body: TaskBody, freshId: TaskId, now: Millis, isISO8601: string -> bool)
      returns (r: Response)
      requires Valid()
      requires forall k :: 0 <= k < |tasks| ==> tasks[k].id != freshId
      modifies this
      ensures Valid()
      ensures var v := ValidateTask(body, isISO8601);
        && (v.Rejected? ==> r == Response(400, Invalid(v.message, v.errors)) && tasks == old(tasks))
        && (v.Next? ==>
              var t := NewTask(freshId, user, v.body, now);
              && r == Response(201, One(t))
              && tasks == old(tasks) + [t]
              && Get(user, freshId) == r.(status := 200))
      ensures forall other :: other != user ==> OwnedBy(tasks, other) == OwnedBy(old(tasks), other)
    {
      var v := ValidateTask(body, isISO8601);
      if v.Rejected? {
        return Response(400, Invalid(v.message, v.errors));
      }
      var t := NewTask(freshId, user, v.body, now);
      tasks := tasks + [t];
      r := Response(201, One(t));
      forall other | other != user ensures OwnedBy(tasks, other) == OwnedBy(old(tasks), other) {
        OwnedByConcat(old(tasks), [t], other);
        assert OwnedBy([t], other) == [];
      }
      assert tasks[|tasks| - 1] == t;
    }

    /** PUT /:id: after the rule chain, replaces the name, description and due
        date of the caller's task with that id; id, owner, creation time and
        every other task are kept. Absent or foreign: 404, nothing changes. */
    method Update(user: UserId, id: TaskId, body: TaskBody, isISO8601: string -> bool)
      returns (r: Response)
      requires Valid()
      modifies this
      ensures Valid()
      ensures var v := ValidateTask(body, isISO8601);
        && (v.Rejected? ==> r == Response(400, Invalid(v.message, v.errors)) && tasks == old(tasks))
        && (v.Next? && FindOwned(old(tasks), user, id).None? ==> r == NotFound && tasks == old(tasks))
        && (v.Next? && FindOwned(old(tasks), user, id).Some? ==>
              var i := FindOwned(old(tasks), user, id).value;
              var t := Edited(old(tasks)[i], v.body);
              && r == Response(200, One(t))
              && tasks == old(tasks)[i := t])
      ensures |tasks| == |old(tasks)|
      ensures forall k :: 0 <= k < |tasks| ==>
        && tasks[k].id == old(tasks)[k].id
        && tasks[k].owner == old(tasks)[k].owner
        && tasks[k].createdAt == old(tasks)[k].createdAt
      ensures forall other :: other != user ==> OwnedBy(tasks, other) == OwnedBy(old(tasks), other)
    {
      var v := ValidateTask(body, isISO8601);
      if v.Rejected? {
        return Response(400, Invalid(v.message, v.errors));
      }
      var found := FindOwned(tasks, user, id);
      if found.None? {
        return NotFound;
      }
      var i := found.value;
      var t := tasks[i];
      t := t.(taskName := Value(v.body.taskName));
      t := t.(description := v.body.description);
      t := t.(dueDate := Value(v.body.dueDate));
      tasks := tasks[i := t];
      r := Response(200, One(t));
      forall other | other != user ensures OwnedBy(tasks, other) == OwnedBy(old(tasks), other) {
        OwnedByReplace(old(tasks), i, t, other);
      }
    }

    /** DELETE /:id: removes the caller's task with that id and nothing else,
        keeping the order of the rest. Absent or foreign: 404, nothing changes. */
    method Delete(user: UserId, id: TaskId) returns (r: Response)
      requires Valid()
      modifies this
      ensures Valid()
      ensures FindOwned(old(tasks), user, id).None? ==> r == NotFound && tasks == old(tasks)
      ensures FindOwned(old(tasks), user, id).Some? ==>
        var i := FindOwned(old(tasks), user, id).value;
        && r == Response(200, Message("Task deleted successfully"))
        && tasks == old(tasks)[..i] + old(tasks)[i + 1..]
      ensures Get(user, id) == NotFound
      ensures forall other :: other != user ==> OwnedBy(tasks, other) == OwnedBy(old(tasks), other)
    {
      var found := FindOwned(tasks, user, id);
      if found.None? {
        return NotFound;
      }
      var i := found.value;
      ghost var s := tasks;
      RemoveAtIds(s, i);
      tasks := tasks[..i] + tasks[i + 1..];
      r := Response(200, Message("Task deleted successfully"));
      forall other | other != user ensures OwnedBy(tasks, other) == OwnedBy(s, other) {
        RemoveAtOthers(s, i, user, other);
      }
    }
  }

  /** Removing the task at `i` keeps ids unique and leaves no task with its id. */
  lemma RemoveAtIds(s: seq<Task>, i: nat)
    requires UniqueIds(s) && i < |s|
    ensures UniqueIds(s[..i] + s[i + 1..])
    ensures forall t :: t in s[..i] + s[i + 1..] ==> t.id != s[i].id
  {
    var rest := s[..i] + s[i + 1..];
    forall k | 0 <= k < |rest| ensures rest[k] == (if k < i then s[k] else s[k + 1]) {
    }
  }

  /** Removing one user's task leaves every other owner's selection as it was. */
  lemma {:induction false} RemoveAtOthers(s: seq<Task>, i: nat, user: UserId, other: UserId)
    requires i < |s| && s[i].owner == user && other != user
    ensures OwnedBy(s[..i] + s[i + 1..], other) == OwnedBy(s, other)
  {
    var r := s[..i] + s[i + 1..];
    if i == 0 {
      assert r == s[1..];
    } else {
      var tail := s[1..];
      assert r[0] == s[0] && r[1..] == tail[..i - 1] + tail[i..];
      RemoveAtOthers(tail, i - 1, user, other);
    }
  }

  /** Existence is not leaked: asking for another user's task gets the same
      answer as asking for an id that is stored nowhere. */
  lemma ForeignLooksMissing(store: TaskStore, caller: UserId, id: TaskId, absent: TaskId)
    requires store.Valid()
    requires exists k :: 0 <= k < |store.tasks| && store.tasks[k].id == id && store.tasks[k].owner != caller
    requires forall k :: 0 <= k < |store.tasks| ==> store.tasks[k].id != absent
    ensures store.Get(caller, id) == store.Get(caller, absent) == NotFound
  {
  }
}
