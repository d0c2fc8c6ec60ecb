/** The login form: field edits, client-side validation and the submit guard. */
module Login {
  import opened Types
  import opened EmailFormat
  import Validation

  datatype Credentials = Credentials(email: string, password: string)

  datatype Errors = Errors(email: Option<string>, password: Option<string>)

  const NoErrors := Errors(None, None)

  datatype Form = Form(data: Credentials, errors: Errors)

  const Initial := Form(Credentials("", ""), NoErrors)

  datatype Field = Email | Password

  function Read(form: Form, field: Field): string
  {
    match field
    case Email => form.data.email
    case Password => form.data.password
  }

  function ErrorOf(errors: Errors, field: Field): Option<string>
  {
    match field
    case Email => errors.email
    case Password => errors.password
  }

  /** `handleChange`: the named field takes the new value and only its error
      is cleared. */
  function Change(form: Form, field: Field, value: string): (r: Form)
    ensures Read(r, field) == value && ErrorOf(r.errors, field) == None
    ensures forall f :: f != field ==> Read(r, f) == Read(form, f) && ErrorOf(r.errors, f) == ErrorOf(form.errors, f)
  {
    match field
    case Email => Form(form.data.(email := value), form.errors.(email := None))
    case Password => Form(form.data.(password := value), form.errors.(password := None))
  }

  /** `validate`: the same email pattern as registration, and a password that
      is merely non-empty. */
  function Validate(data: Credentials): (r: (Errors, bool))
    ensures r.0.email.Some? <==> !MatchesPattern(data.email)
    ensures r.0.password.Some? <==> data.password == ""
    ensures r.1 <==> r.0 == NoErrors
  {
    var errors := Errors(
      if !ValidateEmail(data.email) then Some("Please enter a valid email address.") else None,
      if data.password == "" then Some("Password is required.") else None);
    (errors, errors == NoErrors)
  }

  datatype Submission = Blocked | SendLogin(credentials: Credentials)

  /** `handleSubmit`: the login request goes out, with the credentials as
      typed, only when the form is valid. */
  function Submit(form: Form): (r: (Form, Submission))
    ensures r.0.data == form.data
    ensures r.0.errors == Validate(form.data).0
    ensures r.1.SendLogin? <==> r.0.errors == NoErrors
    ensures r.1.SendLogin? ==> r.1.credentials == form.data
  {
    var (errors, ok) := Validate(form.data);
    (form.(errors := errors), if ok then SendLogin(form.data) else Blocked)
  }

  /** The client's password rule is exactly the server's: a login the client
      sends is refused by the server's rule chain only for the email. */
  lemma SentFormPassesServerPasswordRule(form: Form, isEmail: string -> bool, normalizeEmail: string -> string)
    requires Submit(form).1.SendLogin?
    ensures
      var body := Validation.Credentials(Some(form.data.email), Some(form.data.password));
      Validation.ValidateLogin(body, isEmail, normalizeEmail).Next? <==> isEmail(form.data.email)
  {
  }

  /** Filling in a well-formed email and any non-empty password from the
      initial form gets the request sent, with exactly those credentials. */
  lemma FilledFormIsSent(email: string, password: string)
    requires MatchesPattern(email) && password != ""
    ensures Submit(Change(Change(Initial, Email, email), Password, password)).1 == SendLogin(Credentials(email, password))
  {
  }
}
