/**
 The registration form against the registration endpoint: what the form
 lets through, the server's first two checks let through, as long as both
 count the password's length the same way.
 */
module Registration {
  import opened Text
  import opened Dom
  import RegisterForm
  import AuthViews

  /** The request the form's `register` call sends. */
  function Request(o: RegisterForm.Outcome): (AuthViews.Field, AuthViews.Field)
    requires o.Register?
  {
    (Some(o.username), Some(o.password))
  }

  /** A form counting code points never sends a request the server refuses
      as incomplete or too short: the only 400 it can meet is a taken name,
      and with a free name and a working database the user is created. */
  lemma AcceptedFormPassesServerChecks(f: RegisterForm.Fields, t: AuthViews.Users, dbError: Option<string>)
    requires RegisterForm.ValidateCodePoints(f).outcome.Register?
    ensures var (u, p) := Request(RegisterForm.ValidateCodePoints(f).outcome);
            var resp := AuthViews.RegisterUser(t, u, p, dbError).0;
            (resp.status == 400 ==> resp.body == AuthViews.Error(AuthViews.TakenError))
            && (f.username !in t.ids && dbError.None? ==> resp.status == 201)
  {
    var o := RegisterForm.ValidateCodePoints(f).outcome;
    assert o == RegisterForm.Register(f.username, f.password, f.email);
    var resp := AuthViews.RegisterUser(t, Some(f.username), Some(f.password), dbError).0;
    assert !AuthViews.Missing(Some(f.username)) && !AuthViews.Missing(Some(f.password));
    assert |f.password| >= AuthViews.MinPasswordLength;
  }

  /** The form as written gives the same guarantee for passwords within the
      Basic Multilingual Plane. */
  lemma AcceptedBmpFormPassesServerChecks(f: RegisterForm.Fields, t: AuthViews.Users, dbError: Option<string>)
    requires RegisterForm.Validate(f).outcome.Register?
    requires forall i :: 0 <= i < |f.password| ==> f.password[i] as int <= 0xFFFF
    ensures var (u, p) := Request(RegisterForm.Validate(f).outcome);
            var resp := AuthViews.RegisterUser(t, u, p, dbError).0;
            resp.status == 400 ==> resp.body == AuthViews.Error(AuthViews.TakenError)
  {
    RegisterForm.CountsAgreeOnBmp(f);
    AcceptedFormPassesServerChecks(f, t, dbError);
  }

  /** Four emoji: eight UTF-16 code units, four characters. */
  const FourEmoji := "\U{1F600}\U{1F600}\U{1F600}\U{1F600}"

  /** The form as written accepts a four-emoji password that the server then
      refuses as too short. */
  lemma AstralPasswordCounterexample(t: AuthViews.Users)
    ensures var f := RegisterForm.Fields("ana", FourEmoji, FourEmoji, "");
            RegisterForm.Validate(f).outcome.Register?
            && !RegisterForm.ValidateCodePoints(f).outcome.Register?
            && AuthViews.RegisterUser(t, Some("ana"), Some(FourEmoji), None).0
               == AuthViews.Response(400, AuthViews.Error(AuthViews.LengthError))
  {
    assert Utf16Length(FourEmoji) == 8;
  }

  /** A refusal from the server reaches the user as the server worded it. */
  lemma ServerErrorShownVerbatim(t: AuthViews.Users, u: AuthViews.Field, p: AuthViews.Field,
                                 dbError: Option<string>, detail: string, message: string)
    requires AuthViews.RegisterUser(t, u, p, dbError).0.status != 201
    requires AuthViews.RegisterUser(t, u, p, dbError).0.body.error != ""
    ensures var e := AuthViews.RegisterUser(t, u, p, dbError).0.body.error;
            RegisterForm.Finish(RegisterForm.Failed(e, detail, message)) == RegisterForm.ShowError(e)
  {
  }
}
