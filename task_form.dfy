/** The add/edit task form: the edit prefill, field edits, validation and the
    submit guard. Date strings are turned into instants by a supplied parser,
    whose `None` stands for an Invalid Date; times are milliseconds of the
    local clock. */
module TaskForm {
  import opened Types
  import opened Text
  import Validation

  datatype FormData = FormData(taskName: string, description: string, dueDate: string)

  datatype Errors = Errors(taskName: Option<string>, dueDate: Option<string>)

  const NoErrors := Errors(None, None)

  datatype Form = Form(data: FormData, errors: Errors)

  const Initial := Form(FormData("", "", ""), NoErrors)

  datatype Field = TaskName | Description | DueDate

  const NameRequired := "Task name is required."
  const DueRequired := "Due date is required."
  const DueInPast := "Due date cannot be in the past."

  /** `iso.split('T')[0]`: the part of an ISO timestamp before the first 'T'. */
  function DatePart(iso: string): (r: string)
    ensures |r| <= |iso| && r == iso[..|r|]
    ensures 'T' !in r
    ensures |r| < |iso| ==> iso[|r|] == 'T'
  {
    if iso == [] || iso[0] == 'T' then [] else [iso[0]] + DatePart(iso[1..])
  }

  /** The edit-mode effect: with a task, the form is replaced by its name, its
      description or '' when it has none, and the date part of `dueIso` (the
      task's due date rendered by `toISOString`); without one, nothing changes. */
  function Prefill(form: Form, task: Option<Task>, dueIso: string): (r: Form)
    ensures task.None? ==> r == form
    ensures task.Some? ==>
      && r.data.taskName == task.value.taskName
      && r.data.description == task.value.description.GetOr("")
      && r.data.dueDate == DatePart(dueIso)
      && r.errors == form.errors
  {
    match task
    case None => form
    case Some(t) => form.(data := FormData(t.taskName, t.description.GetOr(""), DatePart(dueIso)))
  }

  function Read(data: FormData, field: Field): string
  {
    match field
    case TaskName => data.taskName
    case Description => data.description
    case DueDate => data.dueDate
  }

  /** The error slot a field's input clears; the description has none. */
  function ErrorOf(errors: Errors, field: Field): Option<string>
  {
    match field
    case TaskName => errors.taskName
    case Description => None
    case DueDate => errors.dueDate
  }

  /** `handleChange`: the named field takes the new value and only its error
      is cleared. */
  function Change(form: Form, field: Field, value: string): (r: Form)
    ensures Read(r.data, field) == value && ErrorOf(r.errors, field) == None
    ensures forall f :: f != field ==> Read(r.data, f) == Read(form.data, f) && ErrorOf(r.errors, f) == ErrorOf(form.errors, f)
  {
    match field
    case TaskName => Form(form.data.(taskName := value), form.errors.(taskName := None))
    case Description => Form(form.data.(description := value), form.errors)
    case DueDate => Form(form.data.(dueDate := value), form.errors.(dueDate := None))
  }

  /** `today.setHours(0, 0, 0, 0)`: the first millisecond of the day of `now`. */
  function Midnight(now: Millis): (r: Millis)
    ensures r <= now < r + MsPerDay
  {
    (now / MsPerDay) * MsPerDay
  }

  /** `validate`: the name must hold something other than whitespace; the due
      date must be given and, when it parses, not lie before today's midnight.
      A date that does not parse compares false and so is not flagged. */
  function Validate(data: FormData, parseDate: string -> Option<Millis>, now: Millis): (r: (Errors, bool))
    ensures r.0.taskName.Some? <==> AllWhitespace(data.taskName)
    ensures r.0.taskName.Some? ==> r.0.taskName == Some(NameRequired)
    ensures r.0.dueDate == Some(DueRequired) <==> data.dueDate == ""
    ensures r.0.dueDate == Some(DueInPast) <==>
      data.dueDate != "" && parseDate(data.dueDate).Some? && parseDate(data.dueDate).value < Midnight(now)
    ensures r.0.dueDate.Some? ==> r.0.dueDate == Some(DueRequired) || r.0.dueDate == Some(DueInPast)
    ensures r.1 <==> r.0 == NoErrors
  {
    var nameError := if Trim(data.taskName) == [] then Some(NameRequired) else None;
    var dueError :=
      if data.dueDate == "" then Some(DueRequired)
      else match parseDate(data.dueDate)
        case Some(due) => if due < Midnight(now) then Some(DueInPast) else None
        case None => None;
    var errors := Errors(nameError, dueError);
    (errors, errors == NoErrors)
  }

  /** The past-date rule works on whole days: a due instant is flagged exactly
      when its day comes before today's, so anything later today passes even
      if that hour is already over. */
  lemma {:induction false} PastMeansEarlierDay(due: Millis, now: Millis)
    ensures due < Midnight(now) <==> due / MsPerDay < now / MsPerDay
  {
    var q, d := now / MsPerDay, due / MsPerDay;
    assert d * MsPerDay <= due < d * MsPerDay + MsPerDay;
    if d < q {
      assert (d + 1) * MsPerDay <= q * MsPerDay;
    } else {
      assert q * MsPerDay <= d * MsPerDay;
    }
  }

  /** `handleSubmit`: `onSubmit` receives the form data unchanged, and only when
      validation passes. */
  function Submit(form: Form, parseDate: string -> Option<Millis>, now: Millis): (r: (Form, Option<FormData>))
    ensures r.0.data == form.data
    ensures r.0.errors == Validate(form.data, parseDate, now).0
    ensures r.1.Some? <==> r.0.errors == NoErrors
    ensures r.1.Some? ==> r.1.value == form.data
  {
    var (errors, ok) := Validate(form.data, parseDate, now);
    (form.(errors := errors), if ok then Some(form.data) else None)
  }

  /** The request body built from submitted form data. */
  function ToBody(data: FormData): Validation.TaskBody
  {
    Validation.TaskBody(Some(data.taskName), Some(data.description), Some(data.dueDate), None)
  }

  /** The client's name rule is stricter than the server's: a name the form
      lets through passes the server's emptiness check and is still non-empty
      after the server trims it. */
  lemma SentNameSurvivesServer(form: Form, parseDate: string -> Option<Millis>, now: Millis, isISO8601: string -> bool)
    requires Submit(form, parseDate, now).1.Some?
    requires isISO8601(form.data.dueDate)
    ensures
      var v := Validation.ValidateTask(ToBody(form.data), isISO8601);
      v.Next? && v.body.taskName.Some? && v.body.taskName.value != ""
  {
  }

  /** Submitting the untouched add form sends nothing and flags the name as
      required and the due date as required, whatever the clock says. */
  lemma EmptyFormIsBlocked(parseDate: string -> Option<Millis>, now: Millis)
    ensures Submit(Initial, parseDate, now).1 == None
    ensures Submit(Initial, parseDate, now).0.data == Initial.data
    ensures Submit(Initial, parseDate, now).0.errors == Errors(Some(NameRequired), Some(DueRequired))
  {
    var v := Validate(Initial.data, parseDate, now);
    assert AllWhitespace(Initial.data.taskName);
    assert v.0.taskName == Some(NameRequired);
    assert v.0.dueDate == Some(DueRequired);
  }
}
