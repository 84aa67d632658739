# Admin credential and password-reset lifecycle

A Dafny model of the admin side of a small business website (a Flask
application over SQLite): the admin user table, the password-reset token
table, the contact table and the signed session, and the route handlers
that change them.

- **Credential service** (`credentials.dfy`): password digests and their
  verification; the `DataRequired` rule, and the `Length(min=6)` and
  `EqualTo` rules that the change-password and reset-password forms put on
  a new password. The login form's rules are `Sessions.LoginFormValid` and
  the forgot-password form's are `Tokens.ForgotFormValid`.
- **Store** (`store.dfy`): the three tables as maps from row id to row,
  the AUTOINCREMENT counters, and the schema's UNIQUE (`username`, `email`,
  `token`) and FOREIGN KEY (`user_id`) constraints as `Wf`. SQL does not fix
  which row `fetchone()` returns when several match; the model picks the
  least id, and under `Wf` at most one row ever matches, so the choice never
  shows.
- **Session gate** (`sessions.dfy`): `admin_login`, `admin_logout` and the
  `login_required` decorator over the session dictionary.
- **Token service** (`tokens.dfy`): `forgot_password` (issue a 24-hour,
  unused token after the user name, e-mail and security answer all match),
  `reset_password` (validate, then set the new hash and mark the token used
  in one transaction), and the DELETE of `cleanup_expired_tokens`.
- **Protected admin writes** (`admin.dfy`): `admin_change_password` and
  `cleanup_expired_tokens` behind the gate.
- **Contact form** (`contacts.dfy`) and **start-up seeding** (`seeding.dfy`).
- **Lifecycle** (`lifecycle.dfy`): all requests as one state machine, with
  the lemmas that follow a token through any sequence of requests: the
  schema constraints always hold, a token row only ever turns used, and a
  consumed or expired token never validates again unless a later request
  draws the same string afresh.

Time is an integer count of seconds; the 24-hour lifetime is
`TokenLifetime = 86400`. The hashing routine's salt, the random token
string, the clock, the e-mail syntax check and the mail collaborator's
success are all parameters of the operations that use them.

Three behaviours of the code the model keeps:

- When sending the reset mail fails, `forgot_password` flashes the reset
  link to the requester whatever `IS_PRODUCTION` says
  (`LinkIssued` with `mailed == false`).
- A token string that collides with an existing row is not assumed away:
  the UNIQUE constraint makes the INSERT raise, the request fails and no
  row is written (`ForgotServerError`).
- `admin_change_password` reads `session['username']` and the user row
  without a guard; if either is missing the request fails
  (`ChangeServerError`) and nothing changes.

## Model

| member | source | states |
|---|---|---|
| `Credentials.Hash` | app.py:500 | a digest accepts the password it was made from and no other, whatever the salt |
| `Credentials.StripEmptyIffBlank` | app.py:280-281 | `DataRequired`'s test, the value being non-empty after Python's `strip()`, holds exactly when the value has a non-whitespace character |
| `Credentials.NewPasswordRules` | app.py:285-288 | a new password is accepted iff it is at least 6 code points, equals its confirmation and is non-empty after `strip()`; six spaces are refused |
| `Store.UserByName` | app.py:382 | the lookup returns a user with that name, and returns nothing only when no user has it |
| `Store.UserByNameAndEmail` | app.py:409-412 | the lookup returns a user matching both name and e-mail, and nothing only when none matches both |
| `Store.UserByNameUnique` | app.py:133 | with user names UNIQUE, the lookup by a user's name finds exactly that user |
| `Sessions.AdminLogin` | app.py:372-390 | an already logged-in session is sent on unchanged; a login sets `logged_in` and `username` only for a valid form whose credentials match a user, touching no other key of the modelled session; any other outcome leaves it as it was; the answer is "to the dashboard" exactly when `logged_in` was already present |
| `Sessions.LoginSucceedsIffCredentialsMatch` | app.py:382-389 | for a submitted valid form, login succeeds iff some admin has that name and a hash accepting the password |
| `Sessions.AdminLogout` | app.py:392-397 | logout removes both gate keys whatever values they held and keeps every other key of the modelled session |
| `Sessions.LogoutIdempotent` | app.py:394-395 | logging out twice equals logging out once |
| `Sessions.LogoutUndoesLogin` | app.py:384-395 | logout after a successful login gives the same session as logout alone |
| `Sessions.LoginRequired` | app.py:304-311 | the guarded view runs iff `logged_in` is present; otherwise the state is untouched and the result is a redirect to login |
| `Tokens.FindValidToken` | app.py:485-490 | the lookup returns a row with the same string, expiring strictly after now, unused and with an existing user; it finds nothing only when no such row exists |
| `Tokens.IssueToken` | app.py:416-427 | the new row has the next id, the user, the string, expiry now + 24h and `used = false`; every old row, the other tables and their counters are unchanged and the token counter advances by one; a string already in the table makes it fail and write nothing |
| `Tokens.IssueTokenKeepsWf` | app.py:141-150 | issuing for an existing user keeps the table's UNIQUE and FOREIGN KEY constraints and adds exactly one row |
| `Tokens.IssuedTokenValidity` | app.py:419-426 | a token issued at `now` validates at time `t` iff `t < now + 24h` |
| `Tokens.IssuedTokenResets` | app.py:485-512 | a token issued for a user and presented before expiry with an accepted form resets that user's password through the new row |
| `Tokens.ForgotPassword` | app.py:399-476 | a token row is added only for a valid form whose user name and e-mail match a user whose security-answer hash accepts the answer; on every other path no table changes; the mail result only picks the message; a valid form whose user name, e-mail and answer do not all match one user gets the single `DetailsRejected` answer, whichever part is wrong, and nothing changes |
| `Tokens.ForgotIssuesIffIdentityConfirmed` | app.py:409-414 | for a valid form, a token is issued iff the identity is confirmed and the fresh string is not already taken |
| `Tokens.MailOutcomeLeavesTablesAlone` | app.py:469-472 | whether the mail is sent or not, the tables come out the same |
| `Tokens.ConsumeToken` | app.py:502-514 | the token row turns used, its user gets the new hash, and no other row, column or counter changes |
| `Tokens.ConsumedKeepsWf` | app.py:503-512 | a consumption keeps every schema constraint |
| `Tokens.ResetPassword` | app.py:478-519 | the link is refused iff no live row matches, and then nothing changes; the password is reset iff the token is live and the form accepted, and then exactly that token is marked used and its user's hash accepts the new password; a live token with a GET or a refused form changes nothing |
| `Tokens.ResetKeepsWf` | app.py:478-519 | a reset keeps every schema constraint |
| `Tokens.ConsumedTokenNeverValidates` | app.py:486-512 | after a successful reset, the token string validates at no time at all, even before its expiry |
| `Tokens.PurgeExpired` | app.py:641-644 | exactly the rows with `expires_at < now` are deleted, used or not; the count is the number of such rows; every kept row and every other table is unchanged |
| `Tokens.PurgeKeepsWf` | app.py:641-644 | deleting the expired rows keeps every schema constraint |
| `Tokens.PurgeIdempotent` | app.py:641-647 | a second purge at the same instant deletes nothing and returns 0 |
| `Tokens.PurgePreservesValidity` | app.py:641-644 | a purge at `now` changes no token's validity at any time from `now` on |
| `Tokens.ExpiryBoundary` | app.py:488 | a row with `expires_at == now` is neither valid nor purged at `now` |
| `Admin.ChangePasswordView` | app.py:524-540 | the hash changes only for a valid form, a session user that exists and a current password that verifies, and then only that user's hash changes and it accepts the new password; a wrong current password leaves the tables as they were; the server-error outcome arises exactly for a valid form whose session carries no user name or names no user |
| `Admin.AdminChangePassword` | app.py:521-523 | without `logged_in` nothing changes and the caller is redirected; with it the change-password view runs on the unchanged database and its outcome is returned; without a successful change the tables are unchanged |
| `Admin.ChangeSucceedsIffCurrentVerifies` | app.py:527-535 | for a logged-in admin and a valid form, the password changes iff the current password verifies, and a wrong current password answers `WrongCurrentPassword` with the tables unchanged |
| `Admin.ChangeKeepsWf` | app.py:533-535 | a password change keeps every schema constraint |
| `Admin.CleanupExpiredTokens` | app.py:633-647 | without `logged_in` nothing is deleted; otherwise the result is exactly the purge: the expired rows go and their count is returned; the users, the contacts, every kept row and all three AUTOINCREMENT counters stay as they were |
| `Contacts.SubmitContact` | app.py:340-364 | a row is inserted iff every read field was sent and name, e-mail and message are non-empty; the row carries the submitted name, e-mail, genre, user type and message, the phone defaulting to empty, and the next contact id, which advances by one; other rows, users and tokens are unchanged; otherwise nothing is stored, and the answer is `MissingRequired` exactly when every read field was sent but one of the three is empty |
| `Contacts.SubmitKeepsWf` | app.py:356-362 | a submission keeps the constraints and an accepted one adds exactly one row |
| `Contacts.EmptyMessageRejected` | app.py:348-350 | an empty message is refused and the tables are unchanged |
| `Seeding.SeedDefaultAdmin` | app.py:153-156 | an admin is inserted only when the admin table is empty, with the configured identity and hashes accepting the configured password and answer; other tables are unchanged |
| `Seeding.SeedKeepsWf` | app.py:84-98 | seeding keeps every schema constraint |
| `Seeding.SeedIdempotent` | app.py:192-197 | a second start-up seeds nothing |
| `Seeding.SeededAdminCanLogIn` | app.py:88-97 | on a fresh database the seeded admin logs in with the configured password and with no other |
| `Seeding.DefaultAdminScenario` | app.py:55-59 | with the built-in defaults, `admin` logs in with the default password and fails with a wrong one |
| `Lifecycle.ApplyKeepsWf` | app.py:130-150 | every request keeps the schema's UNIQUE and FOREIGN KEY constraints |
| `Lifecycle.RunKeepsWf` | app.py:130-150 | any sequence of requests keeps them |
| `Lifecycle.ApplyAgesTokens` | app.py:503-512 | no request changes a token row's user, string or expiry, or turns a used row unused; new rows get fresh ids |
| `Lifecycle.RetiredNeverValidates` | app.py:488 | a token all of whose rows are used or expired by `now` validates at no later time |
| `Lifecycle.ApplyKeepsRetired` | app.py:485-512 | no request other than one drawing the same fresh string revives a retired token |
| `Lifecycle.RunKeepsRetired` | app.py:485-512 | retirement survives any sequence of requests that never draws the same string |
| `Lifecycle.ResetTokenIsSingleUse` | app.py:485-514 | after a successful reset, every later reset with that token, at any time, is refused and changes nothing, through any later trace in which no request draws that string afresh |
| `Lifecycle.SeededRequestIssues` | app.py:409-426 | on a freshly seeded database the default admin's request with the right user name, e-mail and answer issues token 1 for user 1 |
| `Lifecycle.IssueThenResetOnce` | app.py:416-514 | issue, then reset before expiry, succeeds for that user; any further reset with the token is refused at any time; the new password then matches the user's credentials |
| `Lifecycle.ResetScenario` | app.py:399-519 | end to end on a seeded database: request, reset an hour later, a refused second reset, and a login with the new password |
| `Lifecycle.ExpiredTokenStaysInvalid` | app.py:485-490 | once every row with a token has expired, resets with it are refused and change nothing through any later trace in which no request draws that string afresh |

## Left out

- Sending mail (`send_email`) and the HTML body: network I/O; its success is a boolean parameter that only chooses the outcome message.
- Flask routing, templates, flash messages, redirects and CSRF: framework glue; each handler returns an outcome tag instead. A form that the framework rejects (CSRF, or a GET) is `None`. The session model therefore omits the keys those layers write, `_flashes` (from `flash()`) and `csrf_token` (from Flask-WTF); "every other key" in the contracts means every other key of the modelled session.
- The e-mail syntax check of the forgot-password form: an external library; its verdict is the parameter `emailSyntaxOk`.
- SQLite connections (`get_db_connection`, `get_db`, `close_db`) and the file and table-existence probes of `ensure_db_initialized`: persistence I/O; the tables are in-memory maps that always exist.
- A missing `password_reset_tokens` table: `ensure_db_initialized` (app.py:178-186) probes only `contacts` and `admin_users`, so a database without the token table is never repaired and `forgot_password`, `reset_password` and `cleanup_expired_tokens` then raise; the model's token table always exists.
- Password hashing: the werkzeug routine is a foreign library; `Hash` keeps only its contract (the digest accepts its own password and no other), with the salt as a parameter.
- `secrets.token_urlsafe`: randomness; the fresh string is a parameter, and unguessability is not modelled.
- Time zones and the text encoding of timestamps: times are integer seconds, compared as numbers.
- `api_stats`, `admin_contacts`, `admin_contact_detail`, `api_contacts`, `admin_dashboard` and `test_email`: read-only views or mail I/O behind the same gate; they change no table.
- Concurrent resets of the same token: the code takes no lock, and the model applies requests one at a time.
- Python `str.isspace` is modelled by its list of code points; no other Unicode property is used.
- `Lifecycle.ExpiredTokenStaysInvalid`: excludes traces that draw the same string again; after `cleanup_expired_tokens` deletes the expired row, `forgot_password` can insert a live row with that string (app.py:422-426), which would then validate.
- `Lifecycle.ResetTokenIsSingleUse`: excludes traces that draw the same fresh string again; such a string can be re-inserted only after its used row was purged.
