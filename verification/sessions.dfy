/**
 * The session gate: the signed session dictionary, admin login and logout,
 * and the `login_required` decorator that guards every protected view.
 */
module Sessions {
  import opened Wrappers
  import opened Credentials
  import opened Store

  /** A value stored in the session dictionary. */
  datatype Value = Flag(b: bool) | Text(s: string)

  /** The session: a dictionary from key to value. */
  type Session = map<string, Value>

  const LoggedInKey: string := "logged_in"
  const UsernameKey: string := "username"

  /** The gate's test: is the `logged_in` key present? */
  predicate LoggedIn(s: Session)
  {
    LoggedInKey in s
  }

  /** The user name recorded at login, if any. */
  function SessionUser(s: Session): Option<string>
  {
    if UsernameKey in s && s[UsernameKey].Text? then Some(s[UsernameKey].s) else None
  }

  datatype LoginForm = LoginForm(username: string, password: string)

  /** The login form's `DataRequired` rules. */
  predicate LoginFormValid(f: LoginForm)
  {
    Present(f.username) && Present(f.password)
  }

  /** Some admin has this user name and a password hash that accepts `password`. */
  predicate CredentialsMatch(db: Db, username: string, password: string)
  {
    exists id :: id in db.users && db.users[id].username == username && Verify(password, db.users[id].passwordHash)
  }

  datatype LoginOutcome =
    | ToDashboard        // already logged in
    | LoginSucceeded
    | LoginFailed        // generic "wrong user name or password"
    | ShowLoginForm      // GET, or a form that failed its field rules

  /**
   * `admin_login`. `form` is `None` for a GET; a submitted form is checked
   * against its field rules, then against the user table.
   */
  function AdminLogin(db: Db, s: Session, form: Option<LoginForm>): (r: (Session, LoginOutcome))
    ensures LoggedIn(s) ==> r == (s, ToDashboard)
    ensures r.1 == LoginSucceeded ==>
      && form.Some? && LoginFormValid(form.value)
      && CredentialsMatch(db, form.value.username, form.value.password)
      && LoggedIn(r.0) && SessionUser(r.0) == Some(form.value.username)
      && (forall k :: k in s && k != LoggedInKey && k != UsernameKey ==> k in r.0 && r.0[k] == s[k])
      && r.0.Keys == s.Keys + {LoggedInKey, UsernameKey}
    ensures r.1 != LoginSucceeded ==> r.0 == s
    ensures r.1 == LoginFailed ==> form.Some? && LoginFormValid(form.value)
    ensures !LoggedIn(s) && form.Some? && LoginFormValid(form.value) ==> r.1 == LoginSucceeded || r.1 == LoginFailed
    ensures r.1 == ToDashboard <==> LoggedIn(s)
  {
    if LoggedIn(s) then (s, ToDashboard)
    else if form.None? || !LoginFormValid(form.value) then (s, ShowLoginForm)
    else
      match UserByName(db, form.value.username)
      case Some(id) =>
        if Verify(form.value.password, db.users[id].passwordHash) then
          (s[LoggedInKey := Flag(true)][UsernameKey := Text(db.users[id].username)], LoginSucceeded)
        else (s, LoginFailed)
      case None => (s, LoginFailed)
  }

  /**
   * With user names unique, a submitted valid form logs in exactly when
   * some admin's credentials match.
   */
  lemma LoginSucceedsIffCredentialsMatch(db: Db, s: Session, form: LoginForm)
    requires UsersWf(db)
    requires !LoggedIn(s) && LoginFormValid(form)
    ensures AdminLogin(db, s, Some(form)).1 == LoginSucceeded <==> CredentialsMatch(db, form.username, form.password)
  {
  }

  /** `admin_logout`: both keys go, whatever was there; every other key stays. */
  function AdminLogout(s: Session): (r: Session)
    ensures !LoggedIn(r) && SessionUser(r).None?
    ensures LoggedInKey !in r && UsernameKey !in r
    ensures forall k :: k in s && k != LoggedInKey && k != UsernameKey ==> k in r && r[k] == s[k]
    ensures r.Keys <= s.Keys
  {
    s - {LoggedInKey, UsernameKey}
  }

  /** Logging out twice is the same as logging out once. */
  lemma LogoutIdempotent(s: Session)
    ensures AdminLogout(AdminLogout(s)) == AdminLogout(s)
  {
  }

  /** A logout undoes a login: only the two gate keys were touched. */
  lemma LogoutUndoesLogin(db: Db, s: Session, form: LoginForm)
    requires AdminLogin(db, s, Some(form)).1 == LoginSucceeded
    ensures AdminLogout(AdminLogin(db, s, Some(form)).0) == AdminLogout(s)
  {
  }

  /** What a guarded view produced: a redirect to the login page, or its own result. */
  datatype Guarded<+R> = RedirectToLogin | Ran(result: R)

  /**
   * `login_required`: the view runs on `state` only when the session holds
   * `logged_in`; otherwise nothing changes and the caller is sent to log in.
   */
  function LoginRequired<S, R>(s: Session, state: S, view: S -> (S, R)): (r: (S, Guarded<R>))
    ensures !LoggedIn(s) ==> r.0 == state && r.1 == RedirectToLogin
    ensures r.1.Ran? <==> LoggedIn(s)
    ensures LoggedIn(s) ==> (r.0, r.1.result) == view(state)
  {
    if !LoggedIn(s) then (state, RedirectToLogin)
    else
      var (state', result) := view(state);
      (state', Ran(result))
  }
}
