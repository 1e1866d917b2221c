/** The admin login page: an error line and a busy flag around one call
    of `signIn`, and the redirect to the dashboard once the provider
    reports an admin. */
module AdminLogin {
  import opened Wrappers
  import opened Auth

  /** The page's own state: `error` (empty when none is shown) and `loading`. */
  datatype LoginPage = LoginPage(error: string, loading: bool)

  const Mounted := LoginPage("", false)

  const LoginFailed := "Login failed. Please try again."

  /** The redirect effect: it fires iff the provider has settled on an
      admin, and then also clears the page's busy flag. */
  function OnAuthChange(p: LoginPage, auth: AuthState): (r: (LoginPage, bool))
    ensures r.1 <==> !auth.loading && auth.isAdmin
    ensures r.1 ==> r.0 == p.(loading := false)
    ensures !r.1 ==> r.0 == p
  {
    if !auth.loading && auth.isAdmin then (p.(loading := false), true) else (p, false)
  }

  /** Submitting: busy, and the previous error cleared, before `signIn`. */
  function StartSubmit(p: LoginPage): (r: LoginPage)
    ensures r.loading && r.error == ""
  {
    LoginPage("", true)
  }

  /** `signIn` settles: success changes nothing (the redirect effect takes
      over); failure shows the reported error, or a generic one when none
      was given, and frees the button. */
  function FinishSubmit(p: LoginPage, result: SignInResult): (r: LoginPage)
    ensures result.success ==> r == p
    ensures !result.success ==> !r.loading
    ensures !result.success && Present(result.error) ==> r.error == result.error.value
    ensures !result.success && !Present(result.error) ==> r.error == LoginFailed
  {
    if result.success then p else LoginPage(OrElse(result.error, LoginFailed), false)
  }

  /** The full-page spinner shows while the provider is loading. */
  predicate ShowsSpinner(auth: AuthState) {
    auth.loading
  }

  /** The sign-in button is disabled while the page is busy. */
  predicate ButtonDisabled(p: LoginPage) {
    p.loading
  }

  /** A failed login always ends with a non-empty message on screen and the
      button usable again, whatever the service replied. */
  lemma FailureIsShown(p: LoginPage, email: string, password: string, first: AuthReply, second: AuthReply)
    requires !SignIn(email, password, first, second).1.success
    ensures var after := FinishSubmit(StartSubmit(p), SignIn(email, password, first, second).1);
      after.error != "" && !ButtonDisabled(after)
  {
  }

  /** The sentinel login that the service accepts, followed by the event
      reporting the admin's session, takes the page to the dashboard with
      the button freed. */
  lemma SentinelLoginRedirects(p: LoginPage, auth: AuthState, second: AuthReply)
    ensures var (calls, result) := SignIn("admin", "admin", AuthOk, second);
      var busy := FinishSubmit(StartSubmit(p), result);
      var auth' := OnAuthEvent(auth, Some(Session(User(Some(calls[0].email)))));
      && result.success
      && ButtonDisabled(busy)
      && OnAuthChange(busy, auth') == (LoginPage("", false), true)
  {
  }

  /** A successful login of any other account leaves the button disabled
      with no message: no redirect follows, and nothing frees the page. */
  lemma OtherAccountStaysBusy(p: LoginPage, auth: AuthState, email: string, password: string, second: AuthReply)
    requires !Sentinel(email, password) && email != AdminEmail
    ensures var (calls, result) := SignIn(email, password, AuthOk, second);
      var busy := FinishSubmit(StartSubmit(p), result);
      var auth' := OnAuthEvent(auth, Some(Session(User(Some(calls[0].email)))));
      && OnAuthChange(busy, auth') == (busy, false)
      && ButtonDisabled(busy) && busy.error == ""
  {
  }
}
