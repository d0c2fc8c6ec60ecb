/** The server's request-body rule chains and the middleware that turns their
    findings into a 400 answer. The library predicates `isEmail`, `isISO8601`
    and the `normalizeEmail` sanitizer are parameters. */
module Validation {
  import opened Types
  import opened Text

  /** One entry of the `errors` array sent back: the body field and its message. */
  datatype FieldError = FieldError(path: string, msg: string)

  /** What a rule chain does with a request: either hand the sanitized body to
      the next handler, or answer by itself. */
  datatype Outcome<T> =
    | Next(body: T)
    | Rejected(status: nat, message: string, errors: seq<FieldError>)

  predicate HasError(errors: seq<FieldError>, path: string)
  {
    exists e :: e in errors && e.path == path
  }

  /** The errors of two chains together are those of either. */
  lemma HasErrorAppend(a: seq<FieldError>, b: seq<FieldError>, path: string)
    ensures HasError(a + b, path) <==> HasError(a, path) || HasError(b, path)
  {
    if HasError(a + b, path) {
      var e :| e in a + b && e.path == path;
      assert e in a || e in b;
    }
    if HasError(b, path) {
      var e :| e in b && e.path == path;
      assert e in a + b;
    }
  }

  /** The standard validators read a missing body field as the empty string. */
  function Value(field: Option<string>): string
  {
    field.GetOr("")
  }

  /** `handleValidationErrors`: the next handler runs exactly when no rule
      failed; otherwise the answer is 400 'Validation failed' with every error. */
  function HandleValidationErrors<T>(errors: seq<FieldError>, sanitized: T): (r: Outcome<T>)
    ensures r.Next? <==> errors == []
    ensures r.Next? ==> r.body == sanitized
    ensures r.Rejected? ==> r.status == 400 && r.message == "Validation failed" && r.errors == errors
  {
    if errors != [] then Rejected(400, "Validation failed", errors) else Next(sanitized)
  }

  // ---------------------------------------------------------------- accounts

  /** The body of `/auth/register` and `/auth/login`. */
  datatype Credentials = Credentials(email: Option<string>, password: Option<string>)

  const MinPasswordLength := 6

  function EmailErrors(body: Credentials, isEmail: string -> bool): seq<FieldError>
  {
    if isEmail(Value(body.email)) then [] else [FieldError("email", "Please enter a valid email")]
  }

  /** `validateRegistration`: a valid email and a password of at least six
      characters; on success the email is normalized. */
  function ValidateRegistration(body: Credentials, isEmail: string -> bool, normalizeEmail: string -> string): (r: Outcome<Credentials>)
    ensures r.Next? <==> isEmail(Value(body.email)) && |Value(body.password)| >= MinPasswordLength
    ensures r.Next? ==> r.body == body.(email := Some(normalizeEmail(Value(body.email))))
    ensures r.Rejected? ==>
      && r.status == 400
      && (HasError(r.errors, "email") <==> !isEmail(Value(body.email)))
      && (HasError(r.errors, "password") <==> |Value(body.password)| < MinPasswordLength)
  {
    var errors := EmailErrors(body, isEmail)
      + (if |Value(body.password)| >= MinPasswordLength then []
         else [FieldError("password", "Password must be at least 6 characters long")]);
    assert |Value(body.password)| < MinPasswordLength ==> errors[|errors| - 1].path == "password";
    HandleValidationErrors(errors, body.(email := Some(normalizeEmail(Value(body.email)))))
  }

  /** `validateLogin`: a valid email and a non-empty password, of any length. */
  function ValidateLogin(body: Credentials, isEmail: string -> bool, normalizeEmail: string -> string): (r: Outcome<Credentials>)
    ensures r.Next? <==> isEmail(Value(body.email)) && Value(body.password) != ""
    ensures r.Next? ==> r.body == body.(email := Some(normalizeEmail(Value(body.email))))
    ensures r.Rejected? ==>
      && r.status == 400
      && (HasError(r.errors, "email") <==> !isEmail(Value(body.email)))
      && (HasError(r.errors, "password") <==> Value(body.password) == "")
  {
    var errors := EmailErrors(body, isEmail)
      + (if Value(body.password) != "" then [] else [FieldError("password", "Password is required")]);
    assert Value(body.password) == "" ==> errors[|errors| - 1].path == "password";
    HandleValidationErrors(errors, body.(email := Some(normalizeEmail(Value(body.email)))))
  }

  /** The length rule sits exactly between five and six characters. */
  lemma RegistrationPasswordBoundary(email: Option<string>, isEmail: string -> bool, normalizeEmail: string -> string, p5: string, p6: string)
    requires |p5| == 5 && |p6| == 6
    ensures ValidateRegistration(Credentials(email, Some(p5)), isEmail, normalizeEmail).Rejected?
    ensures ValidateRegistration(Credentials(email, Some(p6)), isEmail, normalizeEmail).Next? <==> isEmail(Value(email))
  {
  }

  /** Login accepts every non-empty password, whatever its length. */
  lemma LoginHasNoMinimumLength(email: string, password: string, isEmail: string -> bool, normalizeEmail: string -> string)
    requires isEmail(email) && password != []
    ensures ValidateLogin(Credentials(Some(email), Some(password)), isEmail, normalizeEmail).Next?
  {
  }

  // ------------------------------------------------------------------- tasks

  /** The body of POST and PUT on `/api/tasks`, including an owner field a
      client may send, which no handler reads. */
  datatype TaskBody = TaskBody(
    taskName: Option<string>,
    description: Option<string>,
    dueDate: Option<string>,
    user: Option<UserId>)

  /** The sanitizers of `validateTask`: the name is trimmed, and the optional
      description is trimmed only when present. */
  function SanitizeTask(body: TaskBody): (r: TaskBody)
  {
    body.(taskName := Some(Trim(Value(body.taskName))),
          description := if body.description.Some? then Some(Trim(body.description.value)) else None)
  }

  /** `validateTask`: the name must be non-empty BEFORE it is trimmed, the due
      date must pass the ISO 8601 check, and the description is never the cause
      of a rejection; on success the next handler sees the sanitized body. */
  function ValidateTask(body: TaskBody, isISO8601: string -> bool): (r: Outcome<TaskBody>)
    ensures r.Next? <==> Value(body.taskName) != "" && isISO8601(Value(body.dueDate))
    ensures r.Next? ==>
      && r.body.taskName == Some(Trim(Value(body.taskName)))
      && r.body.dueDate == body.dueDate
      && (body.description.None? ==> r.body.description.None?)
      && (body.description.Some? ==> r.body.description == Some(Trim(body.description.value)))
    ensures r.Rejected? ==>
      && r.status == 400
      && (HasError(r.errors, "taskName") <==> Value(body.taskName) == "")
      && (HasError(r.errors, "dueDate") <==> !isISO8601(Value(body.dueDate)))
      && !HasError(r.errors, "description")
  {
    var nameErrors := if Value(body.taskName) != "" then [] else [FieldError("taskName", "Task name is required")];
    var dueErrors := if isISO8601(Value(body.dueDate)) then [] else [FieldError("dueDate", "Please enter a valid due date")];
    var errors := nameErrors + dueErrors;
    HasErrorAppend(nameErrors, dueErrors, "taskName");
    HasErrorAppend(nameErrors, dueErrors, "dueDate");
    HasErrorAppend(nameErrors, dueErrors, "description");
    assert !isISO8601(Value(body.dueDate)) ==> dueErrors[0] in dueErrors;
    assert Value(body.taskName) == "" ==> nameErrors[0] in nameErrors;
    HandleValidationErrors(errors, SanitizeTask(body))
  }

  /** The description never decides acceptance: adding, removing or changing it
      leaves the verdict as it was. */
  lemma DescriptionIsOptional(body: TaskBody, d: Option<string>, isISO8601: string -> bool)
    ensures ValidateTask(body.(description := d), isISO8601).Next? == ValidateTask(body, isISO8601).Next?
  {
  }

  /** Because the emptiness check runs before `trim`, a name made only of
      whitespace is accepted and reaches the handler as the empty string. */
  lemma BlankNameIsAcceptedAsEmpty(body: TaskBody, isISO8601: string -> bool)
    requires body.taskName.Some? && body.taskName.value != [] && AllWhitespace(body.taskName.value)
    requires isISO8601(Value(body.dueDate))
    ensures ValidateTask(body, isISO8601) == Next(SanitizeTask(body))
    ensures SanitizeTask(body).taskName == Some("")
  {
  }
}
