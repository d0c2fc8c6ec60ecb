/** The dashboard's task list and its pagination. React state is a record
    that each handler replaces; each handler is one step taken after its
    request has answered (`None`/`false` when the request failed). */
module Dashboard {
  import opened Types
  import opened Numeric

  const PageSize := 5

  datatype State = State(tasks: seq<Task>, loading: bool, page: nat)

  const Initial := State([], true, 1)

  // ------------------------------------------------------------ list updates

  /** `fetchTasks`: the fetched list replaces the tasks when the request
      succeeds; loading ends either way. */
  function AfterFetch(st: State, fetched: Option<seq<Task>>): (r: State)
    ensures !r.loading && r.page == st.page
    ensures r.tasks == if fetched.Some? then fetched.value else st.tasks
  {
    State(if fetched.Some? then fetched.value else st.tasks, false, st.page)
  }

  /** `handleCreateTask`: the created task goes in front of the list. */
  function HandleCreate(st: State, created: Option<Task>): (r: State)
    ensures r.loading == st.loading && r.page == st.page
    ensures created.None? ==> r == st
    ensures created.Some? ==>
      && |r.tasks| == |st.tasks| + 1
      && r.tasks[0] == created.value
      && r.tasks[1..] == st.tasks
  {
    match created
    case None => st
    case Some(t) => st.(tasks := [t] + st.tasks)
  }

  /** `tasks.map(task => task._id === id ? updated : task)`. */
  function ReplaceById(s: seq<Task>, id: TaskId, updated: Task): (r: seq<Task>)
    ensures |r| == |s|
    ensures forall k :: 0 <= k < |s| ==> r[k] == (if s[k].id == id then updated else s[k])
  {
    if s == [] then []
    else [if s[0].id == id then updated else s[0]] + ReplaceById(s[1..], id, updated)
  }

  /** `handleUpdateTask`: every entry with that id becomes the returned task;
      the rest, and the length, stay. */
  function HandleUpdate(st: State, id: TaskId, updated: Option<Task>): (r: State)
    ensures r.loading == st.loading && r.page == st.page
    ensures updated.None? ==> r == st
    ensures updated.Some? ==> r.tasks == ReplaceById(st.tasks, id, updated.value)
  {
    match updated
    case None => st
    case Some(t) => st.(tasks := ReplaceById(st.tasks, id, t))
  }

  /** `r` is `s` with some entries left out, the rest in their order. */
  predicate Subsequence(r: seq<Task>, s: seq<Task>)
    decreases |s|
  {
    if r == [] then true
    else if s == [] then false
    else (r[0] == s[0] && Subsequence(r[1..], s[1..])) || Subsequence(r, s[1..])
  }

  /** `tasks.filter(task => task._id !== id)`: every entry with another id is
      kept, in order, and no entry with this id remains. */
  function RemoveById(s: seq<Task>, id: TaskId): (r: seq<Task>)
    ensures forall t :: t in r <==> t in s && t.id != id
    ensures Subsequence(r, s)
  {
    if s == [] then []
    else
      assert s == [s[0]] + s[1..];
      if s[0].id == id then RemoveById(s[1..], id)
      else
        var rest := RemoveById(s[1..], id);
        assert ([s[0]] + rest)[1..] == rest;
        [s[0]] + rest
  }

  /** The filter keeps every entry with another id as many times as it
      occurs, and none with this id. */
  lemma {:induction false} RemoveByIdCounts(s: seq<Task>, id: TaskId)
    ensures forall t :: multiset(RemoveById(s, id))[t] == if t.id == id then 0 else multiset(s)[t]
  {
    if s != [] {
      RemoveByIdCounts(s[1..], id);
      assert s == [s[0]] + s[1..];
    }
  }

  /** `handleDeleteTask`, as written: the entry goes, and the page number stays
      whatever it was. */
  function HandleDelete(st: State, id: TaskId, deleted: bool): (r: State)
    ensures r.loading == st.loading && r.page == st.page
    ensures !deleted ==> r == st
    ensures deleted ==> r.tasks == RemoveById(st.tasks, id)
  {
    if deleted then st.(tasks := RemoveById(st.tasks, id)) else st
  }

  // -------------------------------------------------------------- pagination

  /** `Math.ceil(tasks.length / PAGE_SIZE)`: the fewest pages of five that hold
      the list; none for an empty list. */
  function TotalPages(n: nat): (r: nat)
    ensures n <= r * PageSize
    ensures r > 0 ==> (r - 1) * PageSize < n
    ensures r == 0 <==> n == 0
  {
    CeilDiv(n, PageSize)
  }

  /** `Array.prototype.slice` with non-negative bounds, which clamps both to
      the length and yields nothing when they cross. */
  function Slice(s: seq<Task>, start: nat, end: nat): (r: seq<Task>)
    ensures start <= |s| && start <= end ==> r == s[start..if end <= |s| then end else |s|]
    ensures |s| <= start || end <= start ==> r == []
  {
    var lo := if start <= |s| then start else |s|;
    var hi := if end <= |s| then end else |s|;
    if hi <= lo then [] else s[lo..hi]
  }

  /** The tasks shown on a page: at most five; some for each page from 1 to
      the page count; none past it; entry `idx` is the list's entry
      `(page - 1) * 5 + idx`. */
  function PageSlice(tasks: seq<Task>, page: nat): (r: seq<Task>)
    requires page >= 1
    ensures |r| <= PageSize
    ensures page <= TotalPages(|tasks|) ==> |r| > 0
    ensures page > TotalPages(|tasks|) ==> r == []
    ensures forall idx :: 0 <= idx < |r| ==> (page - 1) * PageSize + idx < |tasks| && r[idx] == tasks[(page - 1) * PageSize + idx]
  {
    Slice(tasks, (page - 1) * PageSize, page * PageSize)
  }

  /** The pages 1 to `count`, one after another. */
  function Pages(tasks: seq<Task>, count: nat): seq<Task>
  {
    if count == 0 then [] else Pages(tasks, count - 1) + PageSlice(tasks, count)
  }

  /** The first `count` pages are exactly the first `5 * count` tasks. */
  lemma {:induction false} PagesArePrefix(tasks: seq<Task>, count: nat)
    ensures Pages(tasks, count) == tasks[..if count * PageSize <= |tasks| then count * PageSize else |tasks|]
  {
    if count > 0 {
      PagesArePrefix(tasks, count - 1);
      var lo := (count - 1) * PageSize;
      if lo <= |tasks| {
        var hi := if count * PageSize <= |tasks| then count * PageSize else |tasks|;
        assert tasks[..lo] + tasks[lo..hi] == tasks[..hi];
      }
    }
  }

  /** Reading every page in turn shows the whole list, once, in order. */
  lemma AllPagesShowTheList(tasks: seq<Task>)
    ensures Pages(tasks, TotalPages(|tasks|)) == tasks
  {
    PagesArePrefix(tasks, TotalPages(|tasks|));
  }

  /** The number printed on a row, `(page - 1) * PAGE_SIZE + idx + 1`. */
  function RowNumber(page: nat, idx: nat): int
  {
    (page - 1) * PageSize + idx + 1
  }

  datatype Row = Row(number: int, task: Task)

  datatype Body = Loading | NoTasksFound | Rows(rows: seq<Row>)

  /** The list area: "Loading..." while loading, "No tasks found." when the
      current page has nothing, otherwise one row per task of the page, in
      order. Row `k` is numbered `(page - 1) * 5 + k + 1`, which is that task's
      1-based position in the whole list. */
  function ListBody(st: State): (r: Body)
    requires st.page >= 1
    ensures st.loading ==> r == Loading
    ensures !st.loading && st.page > TotalPages(|st.tasks|) ==> r == NoTasksFound
    ensures !st.loading && st.page <= TotalPages(|st.tasks|) ==> r.Rows? && 0 < |r.rows| <= PageSize
    ensures r.Rows? ==> |r.rows| == |PageSlice(st.tasks, st.page)|
    ensures r.Rows? ==> forall k :: 0 <= k < |r.rows| ==>
      && r.rows[k].number == (st.page - 1) * PageSize + k + 1
      && r.rows[k].task == PageSlice(st.tasks, st.page)[k]
    ensures r.Rows? ==> forall k :: 0 <= k < |r.rows| ==>
      1 <= r.rows[k].number <= |st.tasks| && st.tasks[r.rows[k].number - 1] == r.rows[k].task
  {
    var shown := PageSlice(st.tasks, st.page);
    if st.loading then Loading
    else if |shown| == 0 then NoTasksFound
    else Rows(seq(|shown|, idx requires 0 <= idx < |shown| => Row(RowNumber(st.page, idx), shown[idx])))
  }

  datatype Controls = Hidden | Shown(prevDisabled: bool, nextDisabled: bool, buttons: seq<nat>)

  /** The pagination bar: present only with more than one page; Prev disabled
      on page 1, Next disabled on the last page, and one button per page. */
  function Pagination(st: State): (r: Controls)
    ensures r.Shown? <==> TotalPages(|st.tasks|) > 1
    ensures r.Shown? ==>
      && (r.prevDisabled <==> st.page == 1)
      && (r.nextDisabled <==> st.page == TotalPages(|st.tasks|))
      && |r.buttons| == TotalPages(|st.tasks|)
      && forall i :: 0 <= i < |r.buttons| ==> r.buttons[i] == i + 1
  {
    var total := TotalPages(|st.tasks|);
    if total > 1 then Shown(st.page == 1, st.page == total, seq(total, i => i + 1)) else Hidden
  }

  /** The clicks the bar accepts; a disabled or absent button does nothing. */
  datatype Click = Prev | Next | PageButton(i: nat)

  /** A click moves to the previous, the next or the chosen page; with no
      bar, or on a disabled or missing button, nothing changes. */
  function OnClick(st: State, click: Click): (r: State)
    requires st.page >= 1
    ensures r.tasks == st.tasks && r.loading == st.loading
    ensures TotalPages(|st.tasks|) <= 1 ==> r == st
    ensures click.Prev? && TotalPages(|st.tasks|) > 1 ==>
      r.page == if st.page == 1 then st.page else st.page - 1
    ensures click.Next? && TotalPages(|st.tasks|) > 1 ==>
      r.page == if st.page == TotalPages(|st.tasks|) then st.page else st.page + 1
    ensures click.PageButton? && TotalPages(|st.tasks|) > 1 ==>
      r.page == if click.i < TotalPages(|st.tasks|) then click.i + 1 else st.page
  {
    match Pagination(st)
    case Hidden => st
    case Shown(prevDisabled, nextDisabled, buttons) =>
      match click
      case Prev => if prevDisabled then st else st.(page := st.page - 1)
      case Next => if nextDisabled then st else st.(page := st.page + 1)
      case PageButton(i) => if i < |buttons| then st.(page := buttons[i]) else st
  }

  /** The page number never drops below 1, whatever is clicked. */
  lemma PageStaysPositive(st: State, click: Click)
    requires st.page >= 1
    ensures OnClick(st, click).page >= 1
  {
  }

  /** The dashboard opens loading, with no bar; once the first fetch answers,
      page 1 shows the first five tasks (all of them when fewer), numbered from 1. */
  lemma FirstFetchShowsFirstPage(tasks: seq<Task>)
    ensures ListBody(Initial) == Loading && Pagination(Initial) == Hidden
    ensures
      var body := ListBody(AfterFetch(Initial, Some(tasks)));
      && (tasks == [] <==> body == NoTasksFound)
      && (tasks != [] ==>
            && body.Rows?
            && |body.rows| == (if |tasks| < PageSize then |tasks| else PageSize)
            && forall k :: 0 <= k < |body.rows| ==> body.rows[k] == Row(k + 1, tasks[k]))
  {
    var shown := PageSlice(tasks, 1);
    assert shown == tasks[..if |tasks| < PageSize then |tasks| else PageSize];
  }

  // ----------------------------------------------------------------- finding

  /** As written, deleting the only task of the last page leaves the page
      number past the end. With six tasks on page 2, deleting the sixth shows
      "No tasks found." and, with one page left, no pagination bar to go back:
      the remaining five tasks cannot be reached. */
  lemma DeleteStrandsOnEmptyPage(tasks: seq<Task>)
    requires |tasks| == 6 && UniqueIds(tasks)
    ensures
      var st := HandleDelete(State(tasks, false, 2), tasks[5].id, true);
      && |st.tasks| == 5
      && ListBody(st) == NoTasksFound
      && Pagination(st) == Hidden
  {
    var id := tasks[5].id;
    assert tasks == tasks[..5] + [tasks[5]];
    RemoveByIdAbsent(tasks[..5], id);
    RemoveByIdAppend(tasks[..5], tasks[5], id);
  }

  /** Filtering out an id that is absent keeps the list as it is. */
  lemma {:induction false} RemoveByIdAbsent(s: seq<Task>, id: TaskId)
    requires forall k :: 0 <= k < |s| ==> s[k].id != id
    ensures RemoveById(s, id) == s
  {
    if s != [] {
      RemoveByIdAbsent(s[1..], id);
    }
  }

  /** Filtering distributes over appending one entry at the end. */
  lemma {:induction false} RemoveByIdAppend(s: seq<Task>, t: Task, id: TaskId)
    ensures RemoveById(s + [t], id) == RemoveById(s, id) + (if t.id == id then [] else [t])
  {
    if s == [] {
      assert s + [t] == [t];
    } else {
      assert (s + [t])[1..] == s[1..] + [t];
      RemoveByIdAppend(s[1..], t, id);
    }
  }

  /** The page the list should stay on after a delete: the current one, moved
      back to the last page when it no longer exists. */
  function ClampPage(page: nat, n: nat): (r: nat)
    requires page >= 1
    ensures 1 <= r <= page
    ensures n > 0 ==> r <= TotalPages(n)
    ensures page <= TotalPages(n) ==> r == page
  {
    var total := TotalPages(n);
    if page <= total || total == 0 then page else total
  }

  /** `handleDeleteTask` with the page kept in range: while any task is left,
      the list area shows a non-empty page. */
  function HandleDeleteClamped(st: State, id: TaskId, deleted: bool): (r: State)
    requires st.page >= 1
    ensures r.loading == st.loading && r.page >= 1
    ensures !deleted ==> r == st
    ensures deleted ==> r.tasks == RemoveById(st.tasks, id)
    ensures deleted && !r.loading && r.tasks != [] ==> ListBody(r).Rows?
  {
    if deleted then
      var tasks := RemoveById(st.tasks, id);
      State(tasks, st.loading, ClampPage(st.page, |tasks|))
    else st
  }
}
