/**
 * The admin core as one state machine: the database and the session, and
 * every request that can change them. The lemmas here follow a token
 * through any sequence of requests: issued, then used or expired, and never
 * live again.
 */
module Lifecycle {
  import opened Wrappers
  import opened Credentials
  import opened Store
  import opened Sessions
  import opened Tokens
  import opened Admin
  import opened Contacts
  import opened Seeding

  datatype System = System(db: Db, session: Session)

  /** One request, with the inputs the environment supplies to it (clock, randomness, mail outcome). */
  datatype Action =
    | Login(loginForm: Option<LoginForm>)
    | Logout
    | RequestReset(forgotForm: Option<ForgotForm>, emailSyntaxOk: bool, freshToken: string, now: int, mailSent: bool)
    | Reset(token: string, resetForm: Option<ResetForm>, salt: nat, now: int)
    | ChangePassword(changeForm: Option<ChangeForm>, salt: nat)
    | Cleanup(now: int)
    | SubmitContactForm(form: Form, now: int)
    | Startup(seed: AdminSeed, now: int, passwordSalt: nat, answerSalt: nat)

  function Apply(sys: System, a: Action): System
  {
    match a
    case Login(f) => sys.(session := AdminLogin(sys.db, sys.session, f).0)
    case Logout => sys.(session := AdminLogout(sys.session))
    case RequestReset(f, ok, t, now, sent) => sys.(db := ForgotPassword(sys.db, f, ok, t, now, sent).0)
    case Reset(t, f, salt, now) => sys.(db := ResetPassword(sys.db, t, f, salt, now).0)
    case ChangePassword(f, salt) => sys.(db := AdminChangePassword(sys.session, sys.db, f, salt).0)
    case Cleanup(now) => sys.(db := CleanupExpiredTokens(sys.session, sys.db, now).0)
    case SubmitContactForm(f, now) => sys.(db := SubmitContact(sys.db, f, now).0)
    case Startup(seed, now, s1, s2) => sys.(db := SeedDefaultAdmin(sys.db, seed, now, s1, s2))
  }

  /** The state after a sequence of requests. */
  function Run(sys: System, trace: seq<Action>): System
    decreases |trace|
  {
    if trace == [] then sys else Run(Apply(sys, trace[0]), trace[1..])
  }

  /** Every request keeps the schema's constraints. */
  lemma ApplyKeepsWf(sys: System, a: Action)
    requires Wf(sys.db)
    ensures Wf(Apply(sys, a).db)
  {
    match a
    case Login(_) =>
    case Logout =>
    case RequestReset(_, _, _, _, _) =>
    case Reset(t, f, salt, now) => ResetKeepsWf(sys.db, t, f, salt, now);
    case ChangePassword(f, salt) => ChangeKeepsWf(sys.session, sys.db, f, salt);
    case Cleanup(now) => PurgeKeepsWf(sys.db, now);
    case SubmitContactForm(f, now) => SubmitKeepsWf(sys.db, f, now);
    case Startup(seed, now, s1, s2) => SeedKeepsWf(sys.db, seed, now, s1, s2);
  }

  /** Any sequence of requests keeps the schema's constraints. */
  lemma {:induction false} RunKeepsWf(sys: System, trace: seq<Action>)
    requires Wf(sys.db)
    ensures Wf(Run(sys, trace).db)
    decreases |trace|
  {
    if trace != [] {
      ApplyKeepsWf(sys, trace[0]);
      RunKeepsWf(Apply(sys, trace[0]), trace[1..]);
    }
  }

  /** A token row only ever changes by becoming used. */
  predicate RowAges(before: ResetToken, after: ResetToken)
  {
    after == before || after == before.(used := true)
  }

  /**
   * From `before` to `after`, every surviving token row has kept its user,
   * string and expiry and at most turned used, and every new row has an id
   * not handed out before.
   */
  predicate TokensAge(before: Db, after: Db)
  {
    && (forall id :: id in after.tokens && id in before.tokens ==> RowAges(before.tokens[id], after.tokens[id]))
    && (forall id :: id in after.tokens && id !in before.tokens ==> id >= before.nextTokenId)
    && before.nextTokenId <= after.nextTokenId
  }

  /** The token state machine: no request revives, retargets or extends a token row. */
  lemma ApplyAgesTokens(sys: System, a: Action)
    requires Wf(sys.db)
    ensures TokensAge(sys.db, Apply(sys, a).db)
  {
  }

  /** Does this request draw `token` as its fresh string? */
  predicate Mints(a: Action, token: string)
  {
    a.RequestReset? && a.freshToken == token
  }

  /** Every row carrying `token` is used or expires no later than `now`. */
  predicate Retired(db: Db, token: string, now: int)
  {
    forall id :: id in db.tokens && db.tokens[id].token == token ==> db.tokens[id].used || db.tokens[id].expiresAt <= now
  }

  /** A retired token validates at no time from `now` on. */
  lemma RetiredNeverValidates(db: Db, token: string, now: int, t: int)
    requires Retired(db, token, now) && t >= now
    ensures !TokenValid(db, token, t)
  {
  }

  /** No request other than one minting the same string brings a retired token back. */
  lemma ApplyKeepsRetired(sys: System, a: Action, token: string, now: int)
    requires Wf(sys.db)
    requires Retired(sys.db, token, now)
    requires !Mints(a, token)
    ensures Retired(Apply(sys, a).db, token, now)
  {
  }

  /** Retirement survives any sequence of requests that never mints the same string. */
  lemma {:induction false} RunKeepsRetired(sys: System, trace: seq<Action>, token: string, now: int)
    requires Wf(sys.db)
    requires Retired(sys.db, token, now)
    requires forall i :: 0 <= i < |trace| ==> !Mints(trace[i], token)
    ensures Retired(Run(sys, trace).db, token, now)
    decreases |trace|
  {
    if trace != [] {
      ApplyKeepsWf(sys, trace[0]);
      ApplyKeepsRetired(sys, trace[0], token, now);
      RunKeepsRetired(Apply(sys, trace[0]), trace[1..], token, now);
    }
  }

  /**
   * Single use: after a successful reset with `token`, whatever requests
   * follow (short of one drawing the same fresh string), every later reset
   * with it is refused and changes nothing, at any time, expired or not.
   */
  lemma ResetTokenIsSingleUse(sys: System, token: string, form: Option<ResetForm>, salt: nat, now: int,
                                trace: seq<Action>, form': Option<ResetForm>, salt': nat, later: int)
    requires Wf(sys.db)
    requires ResetPassword(sys.db, token, form, salt, now).1.PasswordReset?
    requires forall i :: 0 <= i < |trace| ==> !Mints(trace[i], token)
    ensures var after := Run(Apply(sys, Reset(token, form, salt, now)), trace).db;
            ResetPassword(after, token, form', salt', later) == (after, InvalidLink)
  {
    var consumed := Apply(sys, Reset(token, form, salt, now));
    var minTime := if later <= now then later else now;
    ConsumedTokenNeverValidates(sys.db, token, form, salt, now, minTime);
    assert Retired(consumed.db, token, minTime) by {
      forall id | id in consumed.db.tokens && consumed.db.tokens[id].token == token
        ensures consumed.db.tokens[id].used
      {
        var r := ResetPassword(sys.db, token, form, salt, now);
        assert sys.db.tokens[id].token == token;
        assert id == r.1.tokenId;
      }
    }
    ApplyKeepsWf(sys, Reset(token, form, salt, now));
    RunKeepsRetired(consumed, trace, token, minTime);
    RetiredNeverValidates(Run(consumed, trace).db, token, minTime, later);
  }

  /**
   * Expiry is terminal: once every row carrying `token` has expired by
   * `now`, resets with it are refused from then on, through any requests
   * that never mint the same string.
   */
  lemma ExpiredTokenStaysInvalid(sys: System, token: string, now: int, trace: seq<Action>,
                                   form: Option<ResetForm>, salt: nat, later: int)
    requires Wf(sys.db)
    requires forall id :: id in sys.db.tokens && sys.db.tokens[id].token == token ==> sys.db.tokens[id].expiresAt <= now
    requires forall i :: 0 <= i < |trace| ==> !Mints(trace[i], token)
    requires later >= now
    ensures var after := Run(sys, trace).db;
            ResetPassword(after, token, form, salt, later) == (after, InvalidLink)
  {
    RunKeepsRetired(sys, trace, token, now);
    RetiredNeverValidates(Run(sys, trace).db, token, now, later);
  }

  /** The default administrator's reset request, as a constant. */
  const DefaultRequest: ForgotForm := ForgotForm("admin", "admin@example.com", "your-answer-here")

  /** On a freshly seeded database the default request with the right details issues token 1 for user 1. */
  lemma SeededRequestIssues(now: int, s1: nat, s2: nat, token: string)
    ensures var db0 := SeedDefaultAdmin(EmptyDb, DefaultAdminSeed, now, s1, s2);
            && Wf(db0) && 1 in db0.users
            && IssueToken(db0, 1, token, now).Inserted?
            && ForgotPassword(db0, Some(DefaultRequest), true, token, now, false)
               == (IssueToken(db0, 1, token, now).db, LinkIssued(token, 1, false))
  {
    var db0 := SeedDefaultAdmin(EmptyDb, DefaultAdminSeed, now, s1, s2);
    assert Present(DefaultRequest.username) by { assert !IsSpace(DefaultRequest.username[0]); }
    assert Present(DefaultRequest.email) by { assert !IsSpace(DefaultRequest.email[0]); }
    assert Present(DefaultRequest.securityAnswer) by { assert !IsSpace(DefaultRequest.securityAnswer[0]); }
    SeedKeepsWf(EmptyDb, DefaultAdminSeed, now, s1, s2);
    assert db0.users.Keys == {1};
    assert UserByNameAndEmail(db0, DefaultRequest.username, DefaultRequest.email) == Some(1);
  }

  /**
   * The token scenario in general: issue a token for a user, reset with it
   * before expiry (that user's password is replaced through the new row),
   * then any further reset with it is refused, at any time, and the new
   * password matches the user's credentials.
   */
  lemma IssueThenResetOnce(db: Db, uid: nat, token: string, now: int, form: ResetForm, salt: nat, t: int,
                           form': Option<ResetForm>, salt': nat, later: int)
    requires Wf(db) && uid in db.users
    requires IssueToken(db, uid, token, now).Inserted?
    requires now <= t < now + TokenLifetime
    requires ResetFormValid(form)
    ensures var second := ResetPassword(IssueToken(db, uid, token, now).db, token, Some(form), salt, t);
            && second.1 == PasswordReset(db.nextTokenId, uid)
            && ResetPassword(second.0, token, form', salt', later) == (second.0, InvalidLink)
            && CredentialsMatch(second.0, db.users[uid].username, form.newPassword)
  {
    var db1 := IssueToken(db, uid, token, now).db;
    IssueTokenKeepsWf(db, uid, token, now);
    IssuedTokenResets(db, uid, token, now, form, salt, t);
    ConsumedTokenNeverValidates(db1, token, Some(form), salt, t, later);
    var second := ResetPassword(db1, token, Some(form), salt, t);
    assert Verify(form.newPassword, second.0.users[uid].passwordHash);
  }

  /**
   * End to end on a freshly seeded database: the default admin asks for a
   * reset with the right details and gets token 1; the reset an hour later
   * succeeds for user 1, a second one with the same token is refused, and
   * the new password logs in.
   */
  lemma ResetScenario(now: int, s1: nat, s2: nat, token: string, salt: nat, newPassword: string)
    requires Present(newPassword) && |newPassword| >= MinPasswordLength
    ensures
      var db0 := SeedDefaultAdmin(EmptyDb, DefaultAdminSeed, now, s1, s2);
      var form := Some(ResetForm(newPassword, newPassword));
      var first := ForgotPassword(db0, Some(DefaultRequest), true, token, now, false);
      var second := ResetPassword(first.0, token, form, salt, now + 3600);
      && first.1 == LinkIssued(token, 1, false)
      && second.1 == PasswordReset(1, 1)
      && ResetPassword(second.0, token, form, salt, now + 7200) == (second.0, InvalidLink)
      && AdminLogin(second.0, map[], Some(LoginForm("admin", newPassword))).1 == LoginSucceeded
  {
    var db0 := SeedDefaultAdmin(EmptyDb, DefaultAdminSeed, now, s1, s2);
    var form := ResetForm(newPassword, newPassword);
    SeededRequestIssues(now, s1, s2, token);
    IssueThenResetOnce(db0, 1, token, now, form, salt, now + 3600, Some(form), salt, now + 7200);
    var second := ResetPassword(IssueToken(db0, 1, token, now).db, token, Some(form), salt, now + 3600);
    ResetKeepsWf(IssueToken(db0, 1, token, now).db, token, Some(form), salt, now + 3600);
    LoginSucceedsIffCredentialsMatch(second.0, map[], LoginForm("admin", newPassword));
  }
}
