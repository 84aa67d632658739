/**
 * The protected admin routes that write: changing one's own password and
 * purging expired reset tokens. Both sit behind the login gate.
 */
module Admin {
  import opened Wrappers
  import opened Credentials
  import opened Store
  import opened Sessions
  import opened Tokens

  datatype ChangeForm = ChangeForm(currentPassword: string, newPassword: string, confirmPassword: string)

  /** The change-password form's field rules. */
  predicate ChangeFormValid(f: ChangeForm)
  {
    Present(f.currentPassword) && NewPasswordAccepted(f.newPassword, f.confirmPassword)
  }

  datatype ChangeOutcome =
    | ShowChangeForm                 // GET, or a form that failed its field rules
    | WrongCurrentPassword
    | PasswordChanged(userId: nat)
    | ChangeServerError              // the session's user name is missing or names no admin

  /**
   * The body of `admin_change_password`, once past the gate: the logged-in
   * admin is looked up by the session's user name, and the hash is replaced
   * only if the current password verifies against it.
   */
  function ChangePasswordView(db: Db, s: Session, form: Option<ChangeForm>, salt: nat): (r: (Db, ChangeOutcome))
    ensures !r.1.PasswordChanged? ==> r.0 == db
    ensures r.1.PasswordChanged? ==>
      && form.Some? && ChangeFormValid(form.value)
      && SessionUser(s).Some?
      && r.1.userId in db.users
      && db.users[r.1.userId].username == SessionUser(s).value
      && Verify(form.value.currentPassword, db.users[r.1.userId].passwordHash)
      && OnlyPasswordChanged(db, r.0, r.1.userId, Hash(form.value.newPassword, salt))
      && Verify(form.value.newPassword, r.0.users[r.1.userId].passwordHash)
    ensures r.1 == WrongCurrentPassword ==>
      form.Some? && SessionUser(s).Some? &&
      exists id :: id in db.users && db.users[id].username == SessionUser(s).value
                && !Verify(form.value.currentPassword, db.users[id].passwordHash)
    ensures r.1 == ChangeServerError <==>
      form.Some? && ChangeFormValid(form.value)
      && (SessionUser(s).None? || UserByName(db, SessionUser(s).value).None?)
  {
    if form.None? || !ChangeFormValid(form.value) then (db, ShowChangeForm)
    else
      match SessionUser(s)
      case None => (db, ChangeServerError)
      case Some(name) =>
        match UserByName(db, name)
        case None => (db, ChangeServerError)
        case Some(id) =>
          if !Verify(form.value.currentPassword, db.users[id].passwordHash) then (db, WrongCurrentPassword)
          else
            var user := db.users[id];
            (db.(users := db.users[id := user.(passwordHash := Hash(form.value.newPassword, salt))]),
             PasswordChanged(id))
  }

  /** `admin_change_password`: the view above behind `login_required`. */
  function AdminChangePassword(s: Session, db: Db, form: Option<ChangeForm>, salt: nat): (r: (Db, Guarded<ChangeOutcome>))
    ensures !LoggedIn(s) ==> r == (db, RedirectToLogin)
    ensures !(r.1.Ran? && r.1.result.PasswordChanged?) ==> r.0 == db
    ensures LoggedIn(s) ==>
      var (d, outcome) := ChangePasswordView(db, s, form, salt);
      r.0 == d && r.1 == Ran(outcome)
  {
    LoginRequired(s, db, (d: Db) => ChangePasswordView(d, s, form, salt))
  }

  /** A password change keeps every constraint. */
  lemma ChangeKeepsWf(s: Session, db: Db, form: Option<ChangeForm>, salt: nat)
    requires Wf(db)
    ensures Wf(AdminChangePassword(s, db, form, salt).0)
  {
  }

  /**
   * With user names unique, a logged-in admin whose session names an
   * existing user changes the password exactly when the form passes and
   * the current password verifies.
   */
  lemma ChangeSucceedsIffCurrentVerifies(db: Db, s: Session, form: ChangeForm, salt: nat, id: nat)
    requires UsersWf(db)
    requires LoggedIn(s) && id in db.users && SessionUser(s) == Some(db.users[id].username)
    requires ChangeFormValid(form)
    ensures AdminChangePassword(s, db, Some(form), salt).1 == Ran(PasswordChanged(id))
        <==> Verify(form.currentPassword, db.users[id].passwordHash)
    ensures !Verify(form.currentPassword, db.users[id].passwordHash)
        ==> AdminChangePassword(s, db, Some(form), salt) == (db, Ran(WrongCurrentPassword))
  {
  }

  /** `cleanup_expired_tokens`: the purge behind `login_required`, answering the count. */
  function CleanupExpiredTokens(s: Session, db: Db, now: int): (r: (Db, Guarded<nat>))
    ensures !LoggedIn(s) ==> r == (db, RedirectToLogin)
    ensures LoggedIn(s) ==> r.1 == Ran(|ExpiredIds(db, now)|)
    ensures LoggedIn(s) ==> r.0.tokens.Keys == db.tokens.Keys - ExpiredIds(db, now)
    ensures r.0.users == db.users && r.0.contacts == db.contacts
    ensures forall id :: id in r.0.tokens ==> id in db.tokens && r.0.tokens[id] == db.tokens[id]
    ensures r.0.nextUserId == db.nextUserId && r.0.nextTokenId == db.nextTokenId
         && r.0.nextContactId == db.nextContactId
    ensures LoggedIn(s) ==> r.0 == PurgeExpired(db, now).0
  {
    LoginRequired(s, db, (d: Db) => PurgeExpired(d, now))
  }
}
