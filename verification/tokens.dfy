/**
 * The token service and the two public routes built on it: a forgotten
 * password issues a single-use, 24-hour reset token; a reset consumes it and
 * sets the new password; a purge deletes expired rows.
 */
module Tokens {
  import opened Wrappers
  import opened Credentials
  import opened Store

  /**
   * Row `id` is a live reset capability for `token` at time `now`: the
   * strings match, it expires strictly after `now`, it is unused, and its
   * user exists (the lookup joins on the user table).
   */
  predicate ValidRow(db: Db, id: nat, token: string, now: int)
  {
    && id in db.tokens
    && db.tokens[id].token == token
    && db.tokens[id].expiresAt > now
    && !db.tokens[id].used
    && db.tokens[id].userId in db.users
  }

  predicate TokenValid(db: Db, token: string, now: int)
  {
    exists id :: id in db.tokens && ValidRow(db, id, token, now)
  }

  /** Some row, live or not, carries this token string. */
  predicate TokenTaken(db: Db, token: string)
  {
    exists id :: id in db.tokens && db.tokens[id].token == token
  }

  /** The validity lookup of the reset route. */
  function FindValidToken(db: Db, token: string, now: int): (r: Option<nat>)
    ensures r.Some? ==> ValidRow(db, r.value, token, now)
    ensures r.None? <==> !TokenValid(db, token, now)
  {
    var ids := set id | id in db.tokens && ValidRow(db, id, token, now);
    assert forall id :: ValidRow(db, id, token, now) ==> id in ids;
    if ids == {} then None else Some(FirstId(ids))
  }

  /**
   * The outcome of an INSERT into the token table: the new database, or the
   * UNIQUE constraint's refusal, after which the request fails and its
   * transaction is not committed.
   */
  datatype Insertion = Inserted(db: Db) | UniqueViolation

  /**
   * Insert a token row for `userId`, expiring `TokenLifetime` after `now`
   * and unused. The UNIQUE constraint on `token` rejects a string already in
   * the table, and then nothing is written.
   */
  function IssueToken(db: Db, userId: nat, token: string, now: int): (r: Insertion)
    ensures r.UniqueViolation? <==> TokenTaken(db, token)
    ensures r.Inserted? ==>
      var id := db.nextTokenId;
      && r.db.tokens.Keys == db.tokens.Keys + {id}
      && r.db.tokens[id].userId == userId
      && r.db.tokens[id].token == token
      && r.db.tokens[id].expiresAt == now + TokenLifetime
      && !r.db.tokens[id].used
      && (forall j :: j in db.tokens && j != id ==> r.db.tokens[j] == db.tokens[j])
      && r.db.users == db.users && r.db.contacts == db.contacts
      && r.db.nextTokenId == id + 1
      && r.db.nextUserId == db.nextUserId && r.db.nextContactId == db.nextContactId
  {
    if TokenTaken(db, token) then UniqueViolation
    else
      var id := db.nextTokenId;
      var row := ResetToken(userId, token, now + TokenLifetime, false, now);
      Inserted(db.(tokens := db.tokens[id := row], nextTokenId := id + 1))
  }

  /** Issuing for an existing user keeps every constraint and adds exactly one row. */
  lemma IssueTokenKeepsWf(db: Db, userId: nat, token: string, now: int)
    requires Wf(db) && userId in db.users
    requires IssueToken(db, userId, token, now).Inserted?
    ensures Wf(IssueToken(db, userId, token, now).db)
    ensures |IssueToken(db, userId, token, now).db.tokens| == |db.tokens| + 1
  {
    var row := ResetToken(userId, token, now + TokenLifetime, false, now);
    assert forall j :: j in db.tokens ==> db.tokens[j].token != token;
    InsertTokenKeepsWf(db, row);
  }

  /**
   * A token issued at `now` validates at every time `t < now + TokenLifetime`
   * (the check has no lower bound) and at no later time.
   */
  lemma IssuedTokenValidity(db: Db, userId: nat, token: string, now: int, t: int)
    requires Wf(db) && userId in db.users
    requires IssueToken(db, userId, token, now).Inserted?
    ensures TokenValid(IssueToken(db, userId, token, now).db, token, t) <==> t < now + TokenLifetime
  {
  }

  /**
   * A token issued for a user, presented with an accepted form before it
   * expires, resets that user's password through that very row.
   */
  lemma IssuedTokenResets(db: Db, userId: nat, token: string, now: int, form: ResetForm, salt: nat, t: int)
    requires Wf(db) && userId in db.users
    requires IssueToken(db, userId, token, now).Inserted?
    requires now <= t < now + TokenLifetime
    requires ResetFormValid(form)
    ensures ResetPassword(IssueToken(db, userId, token, now).db, token, Some(form), salt, t).1
         == PasswordReset(db.nextTokenId, userId)
  {
    var db' := IssueToken(db, userId, token, now).db;
    IssuedTokenValidity(db, userId, token, now, t);
    var found := FindValidToken(db', token, t);
    assert found.Some?;
    assert found.value == db.nextTokenId;
  }

  datatype ForgotForm = ForgotForm(username: string, email: string, securityAnswer: string)

  /** The forgot-password form's field rules; the e-mail syntax check is external and arrives as `emailSyntaxOk`. */
  predicate ForgotFormValid(f: ForgotForm, emailSyntaxOk: bool)
  {
    Present(f.username) && Present(f.email) && emailSyntaxOk && Present(f.securityAnswer)
  }

  /** Some admin has this user name and this e-mail, and a security-answer hash that accepts the answer. */
  predicate IdentityConfirmed(db: Db, f: ForgotForm)
  {
    exists id :: id in db.users && db.users[id].username == f.username && db.users[id].email == f.email
              && Verify(f.securityAnswer, db.users[id].answerHash)
  }

  datatype ForgotOutcome =
    | ShowForgotForm          // GET, or a form that failed its field rules
    | DetailsRejected         // generic "the details are wrong"
    | LinkIssued(token: string, userId: nat, mailed: bool)  // unmailed: the link is flashed instead
    | ForgotServerError       // the token INSERT raised

  /**
   * `forgot_password`. `freshToken` stands for the random URL-safe string;
   * `mailSent` is the mail collaborator's answer, which picks the message and
   * nothing else.
   */
  function ForgotPassword(db: Db, form: Option<ForgotForm>, emailSyntaxOk: bool,
                          freshToken: string, now: int, mailSent: bool): (r: (Db, ForgotOutcome))
    ensures !r.1.LinkIssued? ==> r.0 == db
    ensures r.1.LinkIssued? ==>
      && form.Some? && ForgotFormValid(form.value, emailSyntaxOk)
      && r.1.userId in db.users
      && db.users[r.1.userId].username == form.value.username
      && db.users[r.1.userId].email == form.value.email
      && Verify(form.value.securityAnswer, db.users[r.1.userId].answerHash)
      && r.1.token == freshToken && r.1.mailed == mailSent
      && IssueToken(db, r.1.userId, freshToken, now) == Inserted(r.0)
    ensures r.1 == ForgotServerError ==> TokenTaken(db, freshToken)
    ensures form.Some? && ForgotFormValid(form.value, emailSyntaxOk) && !IdentityConfirmed(db, form.value)
        ==> r == (db, DetailsRejected)
    ensures Wf(db) ==> Wf(r.0)
  {
    if form.None? || !ForgotFormValid(form.value, emailSyntaxOk) then (db, ShowForgotForm)
    else
      var f := form.value;
      match UserByNameAndEmail(db, f.username, f.email)
      case None => (db, DetailsRejected)
      case Some(uid) =>
        if !Verify(f.securityAnswer, db.users[uid].answerHash) then (db, DetailsRejected)
        else
          match IssueToken(db, uid, freshToken, now)
          case UniqueViolation => (db, ForgotServerError)
          case Inserted(db') =>
            (db', LinkIssued(freshToken, uid, mailSent))
  }

  /**
   * With user names unique, a valid form issues a token exactly when the
   * identity is confirmed and the fresh string is not already in the table.
   */
  lemma ForgotIssuesIffIdentityConfirmed(db: Db, form: ForgotForm, freshToken: string, now: int, mailSent: bool)
    requires Wf(db)
    requires ForgotFormValid(form, true)
    ensures ForgotPassword(db, Some(form), true, freshToken, now, mailSent).1.LinkIssued?
        <==> IdentityConfirmed(db, form) && !TokenTaken(db, freshToken)
  {
  }

  /** The mail collaborator's answer picks the message only: the tables come out the same either way. */
  lemma MailOutcomeLeavesTablesAlone(db: Db, form: Option<ForgotForm>, emailSyntaxOk: bool, freshToken: string, now: int)
    ensures ForgotPassword(db, form, emailSyntaxOk, freshToken, now, true).0
         == ForgotPassword(db, form, emailSyntaxOk, freshToken, now, false).0
  {
  }

  /**
   * `after` is `before` with token row `id` marked used and that token's
   * user given the password hash `h`; nothing else differs.
   */
  predicate Consumed(before: Db, after: Db, id: nat, h: Digest)
  {
    && id in before.tokens
    && after.tokens.Keys == before.tokens.Keys
    && after.tokens[id] == before.tokens[id].(used := true)
    && (forall j :: j in before.tokens && j != id ==> after.tokens[j] == before.tokens[j])
    && OnlyPasswordChanged(before, after.(tokens := before.tokens), before.tokens[id].userId, h)
  }

  /**
   * The reset route's update: set the user's password hash and mark the
   * token used, in one transaction.
   */
  function ConsumeToken(db: Db, id: nat, h: Digest): (r: Db)
    requires id in db.tokens && db.tokens[id].userId in db.users
    ensures Consumed(db, r, id, h)
  {
    var row := db.tokens[id];
    var user := db.users[row.userId];
    db.(users := db.users[row.userId := user.(passwordHash := h)],
        tokens := db.tokens[id := row.(used := true)])
  }

  /** A consumption keeps every constraint. */
  lemma ConsumedKeepsWf(before: Db, after: Db, id: nat, h: Digest)
    requires Wf(before)
    requires Consumed(before, after, id, h)
    ensures Wf(after)
  {
  }

  datatype ResetForm = ResetForm(newPassword: string, confirmPassword: string)

  predicate ResetFormValid(f: ResetForm)
  {
    NewPasswordAccepted(f.newPassword, f.confirmPassword)
  }

  datatype ResetOutcome =
    | InvalidLink                       // unknown, expired and used tokens alike
    | ShowResetForm(username: string)   // GET, or a form that failed its field rules
    | PasswordReset(tokenId: nat, userId: nat)

  /**
   * `reset_password`: the token is looked up first; only a live one lets the
   * form through, and only an accepted form consumes it.
   */
  function ResetPassword(db: Db, token: string, form: Option<ResetForm>, salt: nat, now: int): (r: (Db, ResetOutcome))
    ensures r.1 == InvalidLink <==> !TokenValid(db, token, now)
    ensures r.1.PasswordReset? <==> TokenValid(db, token, now) && form.Some? && ResetFormValid(form.value)
    ensures !r.1.PasswordReset? ==> r.0 == db
    ensures r.1.PasswordReset? ==>
      && ValidRow(db, r.1.tokenId, token, now)
      && r.1.userId == db.tokens[r.1.tokenId].userId
      && Consumed(db, r.0, r.1.tokenId, Hash(form.value.newPassword, salt))
      && Verify(form.value.newPassword, r.0.users[r.1.userId].passwordHash)
    ensures r.1.ShowResetForm? ==> exists id :: ValidRow(db, id, token, now) && r.1.username == db.users[db.tokens[id].userId].username
  {
    match FindValidToken(db, token, now)
    case None => (db, InvalidLink)
    case Some(id) =>
      var uid := db.tokens[id].userId;
      if form.Some? && ResetFormValid(form.value) then
        (ConsumeToken(db, id, Hash(form.value.newPassword, salt)), PasswordReset(id, uid))
      else
        (db, ShowResetForm(db.users[uid].username))
  }

  /** A reset keeps every constraint. */
  lemma ResetKeepsWf(db: Db, token: string, form: Option<ResetForm>, salt: nat, now: int)
    requires Wf(db)
    ensures Wf(ResetPassword(db, token, form, salt, now).0)
  {
  }

  /**
   * Single use: once a reset succeeds, its token string never validates
   * again, at any time, even before the row's expiry.
   */
  lemma ConsumedTokenNeverValidates(db: Db, token: string, form: Option<ResetForm>, salt: nat, now: int, later: int)
    requires Wf(db)
    requires ResetPassword(db, token, form, salt, now).1.PasswordReset?
    ensures !TokenValid(ResetPassword(db, token, form, salt, now).0, token, later)
  {
  }

  /** The rows whose expiry lies strictly before `now`. */
  function ExpiredIds(db: Db, now: int): set<nat>
  {
    set id | id in db.tokens && db.tokens[id].expiresAt < now
  }

  /**
   * `cleanup_expired_tokens`' DELETE: exactly the rows expiring strictly
   * before `now` go, used or not; the count is the number deleted.
   */
  function PurgeExpired(db: Db, now: int): (r: (Db, nat))
    ensures r.0.tokens.Keys == db.tokens.Keys - ExpiredIds(db, now)
    ensures forall id :: id in r.0.tokens ==> r.0.tokens[id] == db.tokens[id]
    ensures r.1 == |ExpiredIds(db, now)|
    ensures r.0.users == db.users && r.0.contacts == db.contacts
    ensures r.0.nextUserId == db.nextUserId && r.0.nextTokenId == db.nextTokenId && r.0.nextContactId == db.nextContactId
  {
    var kept := map id | id in db.tokens && db.tokens[id].expiresAt >= now :: db.tokens[id];
    PurgeCount(db, kept, now);
    (db.(tokens := kept), |db.tokens| - |kept|)
  }

  /** The kept rows and the expired rows partition the table. */
  lemma PurgeCount(db: Db, kept: map<nat, ResetToken>, now: int)
    requires kept.Keys == set id | id in db.tokens && db.tokens[id].expiresAt >= now
    ensures |db.tokens| == |kept| + |ExpiredIds(db, now)|
  {
    var e := ExpiredIds(db, now);
    assert db.tokens.Keys == kept.Keys + e;
    assert kept.Keys * e == {};
    assert |db.tokens.Keys| == |kept.Keys| + |e|;
  }

  /** A purge keeps every constraint. */
  lemma PurgeKeepsWf(db: Db, now: int)
    requires Wf(db)
    ensures Wf(PurgeExpired(db, now).0)
  {
  }

  /** Purging twice at the same instant: the second finds nothing. */
  lemma PurgeIdempotent(db: Db, now: int)
    ensures PurgeExpired(PurgeExpired(db, now).0, now).1 == 0
    ensures PurgeExpired(PurgeExpired(db, now).0, now).0 == PurgeExpired(db, now).0
  {
  }

  /**
   * A purge at `now` changes no token's validity at any `t >= now`: it only
   * removes rows that could not validate then.
   */
  lemma PurgePreservesValidity(db: Db, now: int, token: string, t: int)
    requires t >= now
    ensures TokenValid(PurgeExpired(db, now).0, token, t) <==> TokenValid(db, token, t)
  {
  }

  /** At the boundary `expiresAt == now` a row is neither valid nor purged. */
  lemma ExpiryBoundary(db: Db, id: nat, now: int)
    requires id in db.tokens && db.tokens[id].expiresAt == now
    ensures !ValidRow(db, id, db.tokens[id].token, now)
    ensures id in PurgeExpired(db, now).0.tokens
  {
  }
}
