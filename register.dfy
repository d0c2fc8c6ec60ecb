/** The registration form: field edits, client-side validation and the guard
    that keeps an invalid form from being sent. */
module Register {
  import opened Types
  import opened EmailFormat
  import opened Text
  import Validation

  datatype Credentials = Credentials(email: string, password: string)

  datatype Errors = Errors(email: Option<string>, password: Option<string>, confirmPassword: Option<string>)

  const NoErrors := Errors(None, None, None)

  /** The state the handlers read and replace: the credentials, the separate
      confirmation field and the error record. */
  datatype Form = Form(data: Credentials, confirmPassword: string, errors: Errors)

  const Initial := Form(Credentials("", ""), "", NoErrors)

  datatype Field = Email | Password | ConfirmPassword

  function Read(form: Form, field: Field): string
  {
    match field
    case Email => form.data.email
    case Password => form.data.password
    case ConfirmPassword => form.confirmPassword
  }

  function ErrorOf(errors: Errors, field: Field): Option<string>
  {
    match field
    case Email => errors.email
    case Password => errors.password
    case ConfirmPassword => errors.confirmPassword
  }

  /** `handleChange` for the email and password inputs, and the inline change
      handler of the confirmation input: the named field takes the new value
      and only its error is cleared. */
  function Change(form: Form, field: Field, value: string): (r: Form)
    ensures Read(r, field) == value && ErrorOf(r.errors, field) == None
    ensures forall f :: f != field ==> Read(r, f) == Read(form, f) && ErrorOf(r.errors, f) == ErrorOf(form.errors, f)
  {
    match field
    case Email => Form(form.data.(email := value), form.confirmPassword, form.errors.(email := None))
    case Password => Form(form.data.(password := value), form.confirmPassword, form.errors.(password := None))
    case ConfirmPassword => Form(form.data, value, form.errors.(confirmPassword := None))
  }

  /** The three checks of `validate`, with the password's length as counted:
      the form is valid iff none fails. */
  function Check(data: Credentials, confirmPassword: string, passwordLength: nat): (r: (Errors, bool))
    ensures r.0.email.Some? <==> !MatchesPattern(data.email)
    ensures r.0.password.Some? <==> passwordLength < 6
    ensures r.0.confirmPassword.Some? <==> data.password != confirmPassword
    ensures r.1 <==> r.0 == NoErrors
  {
    var errors := Errors(
      if !ValidateEmail(data.email) then Some("Please enter a valid email address.") else None,
      if passwordLength < 6 then Some("Password must be at least 6 characters long.") else None,
      if data.password != confirmPassword then Some("Passwords do not match.") else None);
    (errors, errors == NoErrors)
  }

  /** `validate`, as written: `password.length` counts UTF-16 code units, so a
      character above U+FFFF counts twice. */
  function Validate(data: Credentials, confirmPassword: string): (r: (Errors, bool))
    ensures r.0.email.Some? <==> !MatchesPattern(data.email)
    ensures r.0.password.Some? <==> Utf16Length(data.password) < 6
    ensures r.0.confirmPassword.Some? <==> data.password != confirmPassword
    ensures r.1 <==> r.0 == NoErrors
  {
    Check(data, confirmPassword, Utf16Length(data.password))
  }

  /** `validate` counting characters as the server's length rule does. */
  function ValidateCorrected(data: Credentials, confirmPassword: string): (r: (Errors, bool))
    ensures r.0.email.Some? <==> !MatchesPattern(data.email)
    ensures r.0.password.Some? <==> |data.password| < Validation.MinPasswordLength
    ensures r.0.confirmPassword.Some? <==> data.password != confirmPassword
    ensures r.1 <==> r.0 == NoErrors
  {
    Check(data, confirmPassword, |data.password|)
  }

  datatype Submission = Blocked | SendRegister(credentials: Credentials)

  /** `handleSubmit`: the errors are replaced by a fresh validation, and the
      register request goes out, with the credentials as typed, only when
      the form is valid. The confirmation is never sent. */
  function Submit(form: Form): (r: (Form, Submission))
    ensures r.0.data == form.data && r.0.confirmPassword == form.confirmPassword
    ensures r.0.errors == Validate(form.data, form.confirmPassword).0
    ensures r.1.SendRegister? <==> r.0.errors == NoErrors
    ensures r.1.SendRegister? ==> r.1.credentials == form.data
  {
    var (errors, ok) := Validate(form.data, form.confirmPassword);
    (form.(errors := errors), if ok then SendRegister(form.data) else Blocked)
  }

  /** As written, a password of four letters and one emoji is six UTF-16
      units long, so the form sends it; the server counts five characters
      and refuses it. */
  lemma AstralPasswordIsSentThenRefused(email: string, isEmail: string -> bool, normalizeEmail: string -> string)
    requires MatchesPattern(email)
    ensures
      var password := "abcd\U{1F600}";
      var form := Form(Credentials(email, password), password, NoErrors);
      var body := Validation.Credentials(Some(email), Some(password));
      var server := Validation.ValidateRegistration(body, isEmail, normalizeEmail);
      && Submit(form).1 == SendRegister(Credentials(email, password))
      && server.Rejected? && Validation.HasError(server.errors, "password")
  {
    var password := "abcd\U{1F600}";
    assert Utf16Length(password) == 6 by {
      assert password[1..] == "bcd\U{1F600}";
      assert password[2..] == "cd\U{1F600}";
      assert password[3..] == "d\U{1F600}";
      assert password[4..] == "\U{1F600}";
      assert password[5..] == "";
    }
  }

  /** `handleSubmit` with the corrected validation. */
  function SubmitCorrected(form: Form): (r: (Form, Submission))
    ensures r.0.data == form.data && r.0.confirmPassword == form.confirmPassword
    ensures r.0.errors == ValidateCorrected(form.data, form.confirmPassword).0
    ensures r.1.SendRegister? <==> r.0.errors == NoErrors
    ensures r.1.SendRegister? ==> r.1.credentials == form.data
  {
    var (errors, ok) := ValidateCorrected(form.data, form.confirmPassword);
    (form.(errors := errors), if ok then SendRegister(form.data) else Blocked)
  }

  /** With the corrected count, what the client lets through also passes the
      server's password rule, so the server can only refuse it for the email. */
  lemma SentFormPassesServerPasswordRule(form: Form, isEmail: string -> bool, normalizeEmail: string -> string)
    requires SubmitCorrected(form).1.SendRegister?
    ensures
      var body := Validation.Credentials(Some(form.data.email), Some(form.data.password));
      Validation.ValidateRegistration(body, isEmail, normalizeEmail).Next? <==> isEmail(form.data.email)
  {
  }

  /** Filling in a well-formed email and a matching password of six or more
      characters from the initial form gets the request sent. */
  lemma FilledFormIsSent(email: string, password: string)
    requires MatchesPattern(email) && |password| >= 6
    ensures
      var form := Change(Change(Change(Initial, Email, email), Password, password), ConfirmPassword, password);
      Submit(form).1 == SendRegister(Credentials(email, password))
  {
  }
}
