/** The card list of tasks: the due-date urgency colour, the confirmation guard
    on delete and the empty state. The current instant and the parsing of due
    dates are supplied; a due date that does not parse is `None`. */
module TaskList {
  import opened Types
  import opened Numeric

  /** The three urgency colours, shown as the classes 'text-red-600',
      'text-yellow-600' and 'text-green-600'. */
  datatype Status = Red | Yellow | Green

  /** `Math.ceil((due - now) / 86400000)`. */
  function DiffDays(due: Millis, now: Millis): int
  {
    CeilDiv(due - now, MsPerDay)
  }

  /** `getStatusColor`: red once the task is overdue by a full day or more,
      yellow from then up to three days ahead, green after that. An Invalid
      Date gives NaN, which fails both comparisons: green. */
  function StatusColor(due: Option<Millis>, now: Millis): (r: Status)
    ensures due.None? ==> r == Green
    ensures due.Some? ==>
      && (r == Red <==> due.value - now <= -MsPerDay)
      && (r == Yellow <==> -MsPerDay < due.value - now <= 3 * MsPerDay)
      && (r == Green <==> due.value - now > 3 * MsPerDay)
  {
    match due
    case None => Green
    case Some(d) =>
      var diffDays := DiffDays(d, now);
      if diffDays < 0 then Red
      else if diffDays <= 3 then Yellow
      else Green
  }

  /** How pressing a colour is: red above yellow above green. */
  function Urgency(s: Status): nat
  {
    match s
    case Red => 2
    case Yellow => 1
    case Green => 0
  }

  /** With `now` fixed, a later due date is never more urgent. */
  lemma UrgencyIsMonotone(early: Millis, late: Millis, now: Millis)
    requires early <= late
    ensures Urgency(StatusColor(Some(late), now)) <= Urgency(StatusColor(Some(early), now))
  {
  }

  /** A task that is overdue but by less than a day is still yellow. */
  lemma OverdueUnderADayIsYellow(due: Millis, now: Millis)
    requires now - MsPerDay < due < now
    ensures DiffDays(due, now) == 0
    ensures StatusColor(Some(due), now) == Yellow
  {
  }

  /** `handleDelete`: `onDelete(id)` is called exactly when the user confirms. */
  function HandleDelete(id: TaskId, confirmed: bool): (r: Option<TaskId>)
    ensures r.Some? <==> confirmed
    ensures r.Some? ==> r.value == id
  {
    if confirmed then Some(id) else None
  }

  datatype Card = Card(task: Task, status: Status)

  datatype View = EmptyState | Cards(cards: seq<Card>)

  /** The component's output: the "No tasks yet" state for an empty list,
      otherwise one card per task, in list order, coloured by its due date. */
  function Render(tasks: seq<Task>, parseDate: string -> Option<Millis>, now: Millis): (r: View)
    ensures r.EmptyState? <==> tasks == []
    ensures r.Cards? ==> |r.cards| == |tasks| && forall k :: 0 <= k < |tasks| ==>
      r.cards[k].task == tasks[k] && r.cards[k].status == StatusColor(parseDate(tasks[k].dueDate), now)
  {
    if |tasks| == 0 then EmptyState
    else Cards(seq(|tasks|, k requires 0 <= k < |tasks| => Card(tasks[k], StatusColor(parseDate(tasks[k].dueDate), now))))
  }
}
