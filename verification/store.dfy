/**
 * The three tables the admin core reads and writes (`admin_users`,
 * `password_reset_tokens`, `contacts`), held as maps from row id to row, with
 * the AUTOINCREMENT counters and the schema's UNIQUE and FOREIGN KEY
 * constraints as a well-formedness predicate.
 */
module Store {
  import opened Wrappers
  import opened Credentials

  /** How long a reset token stays valid after issue, in seconds (24 hours). */
  const TokenLifetime: int := 24 * 60 * 60

  datatype AdminUser = AdminUser(
    username: string,
    passwordHash: Digest,
    email: string,
    securityQuestion: string,
    answerHash: Digest,
    createdAt: int)

  datatype ResetToken = ResetToken(
    userId: nat,
    token: string,
    expiresAt: int,
    used: bool,
    createdAt: int)

  datatype Contact = Contact(
    name: string,
    email: string,
    phone: string,
    genre: string,
    userType: string,
    message: string,
    createdAt: int)

  /** The database: each table keyed by row id, plus the id the next INSERT receives. */
  datatype Db = Db(
    users: map<nat, AdminUser>,
    tokens: map<nat, ResetToken>,
    contacts: map<nat, Contact>,
    nextUserId: nat,
    nextTokenId: nat,
    nextContactId: nat)

  /** Freshly created tables: no rows, AUTOINCREMENT starting at 1. */
  const EmptyDb: Db := Db(map[], map[], map[], 1, 1, 1)

  /** `admin_users`: ids below the counter, `username` and `email` UNIQUE. */
  predicate UsersWf(db: Db)
  {
    && (forall id :: id in db.users ==> id < db.nextUserId)
    && (forall a, b :: a in db.users && b in db.users && db.users[a].username == db.users[b].username ==> a == b)
    && (forall a, b :: a in db.users && b in db.users && db.users[a].email == db.users[b].email ==> a == b)
  }

  /** `password_reset_tokens`: ids below the counter, `token` UNIQUE, `user_id` referring to a user. */
  predicate TokensWf(db: Db)
  {
    && (forall id :: id in db.tokens ==> id < db.nextTokenId)
    && (forall a, b :: a in db.tokens && b in db.tokens && db.tokens[a].token == db.tokens[b].token ==> a == b)
    && (forall id :: id in db.tokens ==> db.tokens[id].userId in db.users)
  }

  /** `contacts`: ids below the counter. */
  predicate ContactsWf(db: Db)
  {
    forall id :: id in db.contacts ==> id < db.nextContactId
  }

  predicate Wf(db: Db)
  {
    UsersWf(db) && TokensWf(db) && ContactsWf(db)
  }

  /**
   * `after` is `before` with user `uid`'s password hash replaced by `h`;
   * every other column of every table, and every counter, is as it was.
   */
  predicate OnlyPasswordChanged(before: Db, after: Db, uid: nat, h: Digest)
  {
    && uid in before.users
    && after.users.Keys == before.users.Keys
    && after.users[uid] == before.users[uid].(passwordHash := h)
    && (forall u :: u in before.users && u != uid ==> after.users[u] == before.users[u])
    && after.tokens == before.tokens
    && after.contacts == before.contacts
    && after.nextUserId == before.nextUserId
    && after.nextTokenId == before.nextTokenId
    && after.nextContactId == before.nextContactId
  }

  /** There is a least id in every non-empty set of row ids. */
  lemma {:induction false} LeastIdExists(ids: set<nat>)
    requires ids != {}
    ensures exists m :: m in ids && forall x :: x in ids ==> m <= x
    decreases ids
  {
    var y :| y in ids;
    var rest := ids - {y};
    if rest == {} {
      forall x | x in ids
        ensures y <= x
      {
        assert x !in rest;
      }
    } else {
      LeastIdExists(rest);
      var m :| m in rest && forall x :: x in rest ==> m <= x;
      var least := if y <= m then y else m;
      assert least in ids;
      forall x | x in ids
        ensures least <= x
      {
        if x != y {
          assert x in rest;
        }
      }
    }
  }

  /**
   * The row `fetchone()` returns among several that match. SQL leaves that
   * order unspecified; the model picks the least id. Under `Wf` every lookup
   * here matches at most one row, so the choice never shows.
   */
  function FirstId(ids: set<nat>): (m: nat)
    requires ids != {}
    ensures m in ids
    ensures forall x :: x in ids ==> m <= x
  {
    LeastIdExists(ids);
    var m :| m in ids && forall x :: x in ids ==> m <= x;
    m
  }

  /** `SELECT * FROM admin_users WHERE username = ?` */
  function UserByName(db: Db, username: string): (r: Option<nat>)
    ensures r.Some? ==> r.value in db.users && db.users[r.value].username == username
    ensures r.None? <==> forall id :: id in db.users ==> db.users[id].username != username
  {
    var ids := set id | id in db.users && db.users[id].username == username;
    assert forall id :: id in db.users && db.users[id].username == username ==> id in ids;
    if ids == {} then None else Some(FirstId(ids))
  }

  /** `SELECT * FROM admin_users WHERE username = ? AND email = ?` */
  function UserByNameAndEmail(db: Db, username: string, email: string): (r: Option<nat>)
    ensures r.Some? ==> r.value in db.users && db.users[r.value].username == username && db.users[r.value].email == email
    ensures r.None? <==> forall id :: id in db.users ==> db.users[id].username != username || db.users[id].email != email
  {
    var ids := set id | id in db.users && db.users[id].username == username && db.users[id].email == email;
    assert forall id :: id in db.users && db.users[id].username == username && db.users[id].email == email ==> id in ids;
    if ids == {} then None else Some(FirstId(ids))
  }

  /** Under the UNIQUE constraint on `username`, the lookup finds the one user of that name. */
  lemma UserByNameUnique(db: Db, id: nat)
    requires UsersWf(db)
    requires id in db.users
    ensures UserByName(db, db.users[id].username) == Some(id)
  {
  }

  /** Appending a token row with an unused string for an existing user keeps every constraint. */
  lemma InsertTokenKeepsWf(db: Db, row: ResetToken)
    requires Wf(db)
    requires row.userId in db.users
    requires forall j :: j in db.tokens ==> db.tokens[j].token != row.token
    ensures Wf(db.(tokens := db.tokens[db.nextTokenId := row], nextTokenId := db.nextTokenId + 1))
    ensures |db.tokens[db.nextTokenId := row]| == |db.tokens| + 1
  {
    var id := db.nextTokenId;
    var db' := db.(tokens := db.tokens[id := row], nextTokenId := id + 1);
    assert id !in db.tokens;
    assert UsersWf(db') by {
      assert db'.users == db.users && db'.nextUserId == db.nextUserId;
    }
    assert ContactsWf(db') by {
      assert db'.contacts == db.contacts && db'.nextContactId == db.nextContactId;
    }
    assert TokensWf(db') by {
      InsertedTokenUnique(db.tokens, id, row);
    }
  }

  /** A row added under a new id with a string no other row carries keeps the strings unique. */
  lemma InsertedTokenUnique(tokens: map<nat, ResetToken>, id: nat, row: ResetToken)
    requires id !in tokens
    requires forall a, b :: a in tokens && b in tokens && tokens[a].token == tokens[b].token ==> a == b
    requires forall j :: j in tokens ==> tokens[j].token != row.token
    ensures var t := tokens[id := row];
            forall a, b :: a in t && b in t && t[a].token == t[b].token ==> a == b
  {
  }
}
