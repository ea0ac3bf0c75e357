/**
 The dashboard's registration form: handleSubmit checks that username and
 password are given, that the password is long enough and that the
 confirmation matches, in that order, before it calls `register`; the
 first failed check sets its message and clears the loading flag.
 */
module RegisterForm {
  import opened Text

  datatype Fields = Fields(username: string, password: string, confirmPassword: string, email: string)

  const RequiredError := "Username and password are required"
  const LengthError := "Password must be at least 8 characters long"
  const MismatchError := "Passwords do not match"
  const MinPasswordLength := 8

  /** Where validation leaves the form: an error shown, or `register` called
      with the three values it takes. */
  datatype Outcome = Rejected(error: string) | Register(username: string, password: string, email: string)

  /** The outcome and the loading flag once validation is over. */
  datatype Submitted = Submitted(outcome: Outcome, loading: bool)

  /** The three checks, with the password length measured by `length`. */
  function Check(f: Fields, length: nat): (r: Submitted)
    ensures r.outcome.Rejected? <==> !r.loading
    ensures f.username == "" || f.password == "" ==> r.outcome == Rejected(RequiredError)
    ensures f.username != "" && f.password != "" && length < MinPasswordLength ==>
              r.outcome == Rejected(LengthError)
    ensures f.username != "" && f.password != "" && length >= MinPasswordLength
            && f.password != f.confirmPassword ==>
              r.outcome == Rejected(MismatchError)
    ensures r.outcome.Register? <==>
              f.username != "" && f.password != "" && length >= MinPasswordLength
              && f.password == f.confirmPassword
    ensures r.outcome.Register? ==> r.outcome == Register(f.username, f.password, f.email)
  {
    if f.username == "" || f.password == "" then Submitted(Rejected(RequiredError), false)
    else if length < MinPasswordLength then Submitted(Rejected(LengthError), false)
    else if f.password != f.confirmPassword then Submitted(Rejected(MismatchError), false)
    else Submitted(Register(f.username, f.password, f.email), true)
  }

  /** handleSubmit's validation as written: `password.length` counts UTF-16
      code units. */
  function Validate(f: Fields): (r: Submitted)
    ensures r.outcome.Register? <==>
              f.username != "" && f.password != "" && Utf16Length(f.password) >= MinPasswordLength
              && f.password == f.confirmPassword
    ensures r.outcome.Register? ==> r.outcome == Register(f.username, f.password, f.email)
    ensures r.outcome.Rejected? ==> !r.loading
  {
    Check(f, Utf16Length(f.password))
  }

  /** The validation with the length counted in characters (code points),
      as the message and the server mean it: `[...password].length`. */
  function ValidateCodePoints(f: Fields): (r: Submitted)
    ensures r.outcome.Register? <==>
              f.username != "" && f.password != "" && |f.password| >= MinPasswordLength
              && f.password == f.confirmPassword
    ensures r.outcome.Register? ==> r.outcome == Register(f.username, f.password, f.email)
    ensures r.outcome.Rejected? ==> !r.loading
  {
    Check(f, |f.password|)
  }

  /** The first failed check decides: a missing field is reported even when
      the password is also short and the confirmation also differs. */
  lemma RequiredComesFirst(f: Fields, length: nat)
    requires f.username == "" || f.password == ""
    ensures Check(f, length).outcome == Rejected(RequiredError)
  {
  }

  /** A short password is reported before a mismatch. */
  lemma LengthBeforeMismatch(f: Fields, length: nat)
    requires f.username != "" && f.password != "" && length < MinPasswordLength
    ensures Check(f, length).outcome == Rejected(LengthError)
  {
  }

  /** Only the three messages ever appear, and each rejection clears the
      loading flag. */
  lemma RejectionMessages(f: Fields, length: nat)
    ensures var r := Check(f, length);
            r.outcome.Rejected? ==>
              r.outcome.error in {RequiredError, LengthError, MismatchError} && !r.loading
  {
  }

  /** For passwords without characters outside the Basic Multilingual Plane
      the two ways of counting agree. */
  lemma CountsAgreeOnBmp(f: Fields)
    requires forall i :: 0 <= i < |f.password| ==> f.password[i] as int <= 0xFFFF
    ensures Validate(f) == ValidateCodePoints(f)
  {
  }

  /** Whatever the password, the form as written accepts everything the
      code-point count accepts. */
  lemma CodePointsStricter(f: Fields)
    requires ValidateCodePoints(f).outcome.Register?
    ensures Validate(f).outcome.Register?
  {
  }

  /** How the `register` call ended: success, or an error carrying the
      server's `error` and `detail` fields and the error's own message ("" for
      a missing one). */
  datatype CallResult = Succeeded | Failed(dataError: string, dataDetail: string, message: string)

  /** After the call: a redirect to the login page with its notice, or an
      error shown; the loading flag is cleared either way. */
  datatype Finished = GoToLogin(notice: string) | ShowError(error: string)

  const LoginNotice := "Registration successful! Please login."
  const GenericFailure := "Registration failed. Please try again."

  /** The message chain `data.error || data.detail || message || fallback`. */
  function Finish(r: CallResult): (f: Finished)
    ensures r.Succeeded? <==> f.GoToLogin?
    ensures r.Succeeded? ==> f == GoToLogin(LoginNotice)
    ensures r.Failed? && r.dataError != "" ==> f == ShowError(r.dataError)
    ensures r.Failed? && r.dataError == "" && r.dataDetail != "" ==> f == ShowError(r.dataDetail)
    ensures r.Failed? && r.dataError == "" && r.dataDetail == "" && r.message != "" ==> f == ShowError(r.message)
    ensures r.Failed? && r.dataError == "" && r.dataDetail == "" && r.message == "" ==> f == ShowError(GenericFailure)
    ensures f.ShowError? ==> f.error != ""
  {
    match r
    case Succeeded => GoToLogin(LoginNotice)
    case Failed(e, d, m) =>
      ShowError(if e != "" then e else if d != "" then d else if m != "" then m else GenericFailure)
  }
}
