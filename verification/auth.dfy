/** The authentication context: the session the auth service reports,
    the `isAdmin` flag derived from it, the `loading` flag, and the
    `signIn` decision tree over the service's replies. */
module Auth {
  import opened Wrappers
  import opened Text

  /** The one address granted admin rights, and the password the sentinel
      login uses for it. */
  const AdminEmail := "rajshekharan2020@gmail.com"
  const AdminPassword := "admin123"

  datatype User = User(email: Option<string>)

  datatype Session = Session(user: User)

  /** The provider's state. */
  datatype AuthState = AuthState(session: Option<Session>, user: Option<User>, isAdmin: bool, loading: bool)

  /** Nothing known yet, and loading. */
  const Initial := AuthState(None, None, false, true)

  /** The admin check: exact, case-sensitive equality with the fixed address. */
  predicate IsAdminUser(u: User) {
    u.email == Some(AdminEmail)
  }

  /** The state agrees with its session: `user` is the session's user and
      `isAdmin` holds iff that user is the admin. */
  predicate Consistent(a: AuthState) {
    && a.user == (if a.session.Some? then Some(a.session.value.user) else None)
    && (a.isAdmin <==> a.user.Some? && IsAdminUser(a.user.value))
  }

  /** The `onAuthStateChange` listener: take the session, derive the user
      and the admin flag from it, and stop loading. */
  function OnAuthEvent(a: AuthState, s: Option<Session>): (r: AuthState)
    ensures r.session == s && !r.loading
    ensures r.user == (if s.Some? then Some(s.value.user) else None)
    ensures r.isAdmin <==> s.Some? && s.value.user.email == Some(AdminEmail)
  {
    match s
    case None => AuthState(None, None, false, false)
    case Some(session) => AuthState(s, Some(session.user), IsAdminUser(session.user), false)
  }

  /** The `getSession` bootstrap: it stops loading only when there is no
      session; a stored session waits for the listener's event. */
  function OnInitialSession(a: AuthState, s: Option<Session>): (r: AuthState)
    ensures s.None? ==> r == a.(loading := false)
    ensures s.Some? ==> r == a
  {
    if s.None? then a.(loading := false) else a
  }

  /** The two inputs the provider reacts to. */
  datatype Event = AuthChanged(session: Option<Session>) | InitialSession(initial: Option<Session>)

  function Step(a: AuthState, e: Event): AuthState {
    match e
    case AuthChanged(s) => OnAuthEvent(a, s)
    case InitialSession(s) => OnInitialSession(a, s)
  }

  /** The state after a sequence of events. */
  function Run(a: AuthState, events: seq<Event>): AuthState
    decreases |events|
  {
    if |events| == 0 then a else Run(Step(a, events[0]), events[1..])
  }

  /** Whatever events arrive, the state stays consistent with its session,
      so `isAdmin` is never granted to any other address; `loading`, once
      cleared, is never set again; and an admin is never still loading. */
  lemma {:induction false} RunConsistent(a: AuthState, events: seq<Event>)
    requires Consistent(a)
    ensures Consistent(Run(a, events))
    ensures !a.loading ==> !Run(a, events).loading
    ensures Run(a, events).isAdmin ==> Run(a, events).user == Some(User(Some(AdminEmail)))
    ensures (a.isAdmin ==> !a.loading) ==> (Run(a, events).isAdmin ==> !Run(a, events).loading)
    decreases |events|
  {
    if |events| > 0 {
      RunConsistent(Step(a, events[0]), events[1..]);
    }
  }

  /** Any listener event clears `loading` for good. */
  lemma {:induction false} EventSettles(a: AuthState, before: seq<Event>, s: Option<Session>, after: seq<Event>)
    ensures !Run(a, before + [AuthChanged(s)] + after).loading
    decreases |before|
  {
    if |before| == 0 {
      assert before + [AuthChanged(s)] + after == [AuthChanged(s)] + after;
      assert ([AuthChanged(s)] + after)[1..] == after;
      RunConsistent(OnAuthEvent(a, s), after) by {
        assert Consistent(OnAuthEvent(a, s));
      }
    } else {
      assert (before + [AuthChanged(s)] + after)[1..] == before[1..] + [AuthChanged(s)] + after;
      EventSettles(Step(a, before[0]), before[1..], s, after);
    }
  }

  /** The admin's address with a capital first letter: the same mailbox
      to a mail server, but no admin rights here. */
  lemma CaseVariantIsNotAdmin(a: AuthState)
    ensures var variant := "Rajshekharan2020@gmail.com";
      Lower(variant) == AdminEmail && !OnAuthEvent(a, Some(Session(User(Some(variant))))).isAdmin
  {
    var variant := "Rajshekharan2020@gmail.com";
    assert forall i :: 0 <= i < |variant| ==> LowerChar(variant[i]) == AdminEmail[i];
  }

  /** `signOut` hands over to the auth service; the state changes when the
      service reports the session gone. */
  function SignOut(a: AuthState): (r: AuthState)
    ensures r.session.None? && r.user.None? && !r.isAdmin && !r.loading
  {
    OnAuthEvent(a, None)
  }

  // ---------------------------------------------------------------------------
  // signIn

  /** The auth service's reply to one call; `Thrown` is a rejected promise. */
  datatype AuthReply = AuthOk | AuthErr(message: string) | Thrown

  /** The calls `signIn` makes, in order. */
  datatype Call = SignInWithPassword(email: string, password: string) | SignUp(email: string, password: string)

  /** `{ success, error? }`. */
  datatype SignInResult = SignInResult(success: bool, error: Option<string>)

  const Unexpected := "An unexpected error occurred"

  /** The literal `admin` / `admin` pair that triggers the fixed login. */
  predicate Sentinel(email: string, password: string) {
    email == "admin" && password == "admin"
  }

  /** `signIn(email, password)` given the replies to its first and (when it
      makes one) second call. */
  function SignIn(email: string, password: string, first: AuthReply, second: AuthReply): (r: (seq<Call>, SignInResult))
    ensures 1 <= |r.0| <= 2
    ensures r.1.success <==> r.1.error.None?
    ensures Sentinel(email, password) ==> r.0[0] == SignInWithPassword(AdminEmail, AdminPassword)
    ensures !Sentinel(email, password) ==> r.0 == [SignInWithPassword(email, password)]
    ensures |r.0| == 2 <==>
      Sentinel(email, password) && first.AuthErr? && Contains(first.message, "Invalid login credentials")
    ensures |r.0| == 2 ==> r.0[1] == SignUp(AdminEmail, AdminPassword)
    ensures first.Thrown? ==> r.1 == SignInResult(false, Some(Unexpected))
    ensures first.AuthOk? ==> r.1 == SignInResult(true, None)
    ensures first.AuthErr? && (!Sentinel(email, password) || !Contains(first.message, "Invalid login credentials")) ==>
      r.1 == SignInResult(false, Some(first.message))
    ensures |r.0| == 2 ==>
      r.1 == match second
        case AuthOk => SignInResult(true, None)
        case AuthErr(m) => SignInResult(false, Some(m))
        case Thrown => SignInResult(false, Some(Unexpected))
  {
    if Sentinel(email, password) then
      var calls := [SignInWithPassword(AdminEmail, AdminPassword)];
      match first
      case Thrown => (calls, SignInResult(false, Some(Unexpected)))
      case AuthOk => (calls, SignInResult(true, None))
      case AuthErr(m) =>
        if !Contains(m, "Invalid login credentials") then (calls, SignInResult(false, Some(m)))
        else
          var calls' := calls + [SignUp(AdminEmail, AdminPassword)];
          match second
          case Thrown => (calls', SignInResult(false, Some(Unexpected)))
          case AuthErr(m') => (calls', SignInResult(false, Some(m')))
          case AuthOk => (calls', SignInResult(true, None))
    else
      var calls := [SignInWithPassword(email, password)];
      match first
      case Thrown => (calls, SignInResult(false, Some(Unexpected)))
      case AuthErr(m) => (calls, SignInResult(false, Some(m)))
      case AuthOk => (calls, SignInResult(true, None))
  }

  /** Off the sentinel path the typed pair goes straight through and the
      service's verdict is the result, its message included. */
  lemma PassThrough(email: string, password: string, first: AuthReply, second: AuthReply)
    requires !Sentinel(email, password) && !first.Thrown?
    ensures var (calls, res) := SignIn(email, password, first, second);
      && calls == [SignInWithPassword(email, password)]
      && (res.success <==> first.AuthOk?)
      && (first.AuthErr? ==> res.error == Some(first.message))
  {
  }

  /** On the sentinel path the typed password never reaches the service,
      and a sign-up is the fallback for a missing account only: it succeeds
      iff the sign-up does. */
  lemma SentinelFallback(first: AuthReply, second: AuthReply)
    requires first.AuthErr? && Contains(first.message, "Invalid login credentials")
    ensures var (calls, res) := SignIn("admin", "admin", first, second);
      && (forall i :: 0 <= i < |calls| ==> calls[i].email == AdminEmail && calls[i].password == AdminPassword)
      && (res.success <==> second.AuthOk?)
      && (second.AuthErr? ==> res.error == Some(second.message))
  {
  }

  /** `admin` with any other password is an ordinary login for the address
      `admin`. */
  lemma AdminWithOtherPassword(password: string, first: AuthReply, second: AuthReply)
    requires password != "admin"
    ensures SignIn("admin", password, first, second).0 == [SignInWithPassword("admin", password)]
  {
  }
}
