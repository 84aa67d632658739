/**
 * Start-up seeding: the default administrator is created only when the
 * admin table has no rows.
 */
module Seeding {
  import opened Wrappers
  import opened Credentials
  import opened Store
  import opened Sessions

  /** The operator-configured identity of the seeded administrator. */
  datatype AdminSeed = AdminSeed(
    username: string,
    password: string,
    email: string,
    securityQuestion: string,
    securityAnswer: string)

  /** The built-in defaults used when the environment configures nothing. */
  const DefaultAdminSeed: AdminSeed := AdminSeed(
    "admin",
    "change-this-password",
    "admin@example.com",
    "あなたの最初のペットの名前は？",
    "your-answer-here")

  /**
   * The count-then-insert of `init_db` and `ensure_db_initialized`. The two
   * salts stand for the randomness of the two hash calls.
   */
  function SeedDefaultAdmin(db: Db, seed: AdminSeed, now: int, passwordSalt: nat, answerSalt: nat): (r: Db)
    ensures |db.users| > 0 ==> r == db
    ensures |db.users| == 0 ==>
      && r.users.Keys == {db.nextUserId}
      && r.users[db.nextUserId].username == seed.username
      && r.users[db.nextUserId].email == seed.email
      && r.users[db.nextUserId].securityQuestion == seed.securityQuestion
      && Verify(seed.password, r.users[db.nextUserId].passwordHash)
      && Verify(seed.securityAnswer, r.users[db.nextUserId].answerHash)
      && r.nextUserId == db.nextUserId + 1
    ensures r.tokens == db.tokens && r.contacts == db.contacts
    ensures r.nextTokenId == db.nextTokenId && r.nextContactId == db.nextContactId
  {
    if |db.users| != 0 then db
    else
      var id := db.nextUserId;
      var admin := AdminUser(seed.username, Hash(seed.password, passwordSalt), seed.email,
                             seed.securityQuestion, Hash(seed.securityAnswer, answerSalt), now);
      db.(users := map[id := admin], nextUserId := id + 1)
  }

  /** Seeding keeps every constraint. */
  lemma SeedKeepsWf(db: Db, seed: AdminSeed, now: int, passwordSalt: nat, answerSalt: nat)
    requires Wf(db)
    ensures Wf(SeedDefaultAdmin(db, seed, now, passwordSalt, answerSalt))
  {
  }

  /** A second start-up seeds nothing, whatever salts, time or identity it uses. */
  lemma SeedIdempotent(db: Db, seed: AdminSeed, now: int, s1: nat, s2: nat,
                       seed': AdminSeed, now': int, s1': nat, s2': nat)
    ensures var once := SeedDefaultAdmin(db, seed, now, s1, s2);
            SeedDefaultAdmin(once, seed', now', s1', s2') == once
  {
  }

  /**
   * On a fresh database the seeded administrator can log in with the
   * configured password, and with no other.
   */
  lemma SeededAdminCanLogIn(seed: AdminSeed, now: int, s1: nat, s2: nat, password: string, s: Session)
    requires Present(seed.username) && Present(password) && !LoggedIn(s)
    ensures var db := SeedDefaultAdmin(EmptyDb, seed, now, s1, s2);
            AdminLogin(db, s, Some(LoginForm(seed.username, password))).1 == LoginSucceeded <==> password == seed.password
  {
  }

  /** The default identity: `admin` logs in with the default password and not with a wrong one. */
  lemma DefaultAdminScenario(now: int, s1: nat, s2: nat)
    ensures var db := SeedDefaultAdmin(EmptyDb, DefaultAdminSeed, now, s1, s2);
            && AdminLogin(db, map[], Some(LoginForm("admin", "change-this-password"))).1 == LoginSucceeded
            && AdminLogin(db, map[], Some(LoginForm("admin", "wrong"))).1 == LoginFailed
  {
    assert !IsSpace('a') && !IsSpace('c') && !IsSpace('w');
    assert "admin"[0] == 'a' && "change-this-password"[0] == 'c' && "wrong"[0] == 'w';
    SeededAdminCanLogIn(DefaultAdminSeed, now, s1, s2, "change-this-password", map[]);
    SeededAdminCanLogIn(DefaultAdminSeed, now, s1, s2, "wrong", map[]);
  }
}
