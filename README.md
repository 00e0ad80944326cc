# Authentication core: a Dafny model

This project models the `Auth` class of the WeatherWise API
(`api/v1/auth/auth.py`): user registration with a salted bcrypt hash, password
login, session ids issued and revoked per user, and the password-reset flow with
a one-time reset token. Every operation touches one row of the users table.

Modules:

- `Wrappers`: the `Option` type used for nullable columns and results.
- `Hashing`: `_hash_password` and `bcrypt.checkpw`. bcrypt is a symbolic
  term `Digest(salt, preimage)`; `CheckPassword(p, HashPassword(q, salt))`
  holds exactly when `p == q`. A stored value that `checkpw` cannot parse is
  `Malformed` and never checks. The salt (`bcrypt.gensalt()`) is a parameter.
- `Store`: the users table as a value (`Table`: rows by id plus the next id),
  `find_user_by` (`Find`: the matching row or `None` for `NoResultFound`),
  `add_user` (`Insert`), `update_user` (`Update` with a list of column
  assignments), and the `DB` object holding the table and updated in place.
- `AuthSpec`: one function per operation of `Auth`, giving the table after the
  call and the value returned or the `ValueError` raised (`AuthError`), plus
  the table invariant (one row per email; a present session id or reset
  token names exactly one row). `str(uuid4())` is a `token` parameter that must
  be `Fresh`: non-empty and held by no row.
- `AuthProperties`: lemmas about sequences of operations.
- `Auth`: the class `Auth` owning a `DB`; each mutating method changes the
  store exactly as the matching `AuthSpec` function says and keeps the
  invariant. `valid_login` and `get_user_from_session_id` are functions of the
  store. `SignupLoginLogout` walks through sign-up, login, session and logout
  on a fresh object.

## Model

| member | source | states |
|---|---|---|
| `Hashing.HashPassword` | api/v1/auth/auth.py:14-21 | the stored hash carries the given salt and checks against exactly the password it was made from |
| `Hashing.CheckPassword` | api/v1/auth/auth.py:56 | `checkpw` holds exactly when the stored value is the digest of this password under the salt it carries; a malformed stored hash never checks |
| `Hashing.SaltedHashesDiffer` | api/v1/auth/auth.py:16-19 | the same password hashed with two different salts gives two different stored hashes, both of which check against it |
| `Store.Find` | api/v1/auth/auth.py:40-43 | a lookup returns a row stored under its own id that matches the query; `None` (`NoResultFound`) only when no row matches |
| `Store.Insert` | api/v1/auth/auth.py:45 | `add_user` stores one new row under an id not used before, with the given email and hash and no session or reset token; other rows are unchanged |
| `Store.Update` | api/v1/auth/auth.py:73 | `update_user` changes only the row with the given id, never its id or email, and keeps the table well formed |
| `Store.DB.constructor` | api/v1/auth/auth.py:36 | `DB()` is an empty table whose first row will get id 1 |
| `Store.DB.FindUserBy` | api/v1/auth/auth.py:41 | `find_user_by` on the store object returns a row stored under its own id that matches the query, and `None` (`NoResultFound`) only when no row matches |
| `Store.DB.AddUser` | api/v1/auth/auth.py:45 | the store object after `add_user` holds the table `Insert` gives and returns the new row |
| `Store.DB.UpdateUser` | api/v1/auth/auth.py:91 | the store object after `update_user` holds the table `Update` gives |
| `AuthSpec.RegisterUser` | api/v1/auth/auth.py:38-46 | fails with `AlreadyExists(email)` exactly when a user has that email, leaving the table unchanged; otherwise adds exactly one user with that email, a hash of the password, no session and no reset token, returns it, and keeps the invariant |
| `AuthSpec.ValidLogin` | api/v1/auth/auth.py:48-64 | true exactly when a user with that email exists and the password checks against the stored hash; false for an unknown email or a malformed hash, never an error |
| `AuthSpec.CreateSession` | api/v1/auth/auth.py:66-74 | `None` and no change for an unknown email; otherwise returns the fresh token and sets only that user's session id to it, overwriting any earlier one; every other column and row is unchanged |
| `AuthSpec.GetUserFromSessionId` | api/v1/auth/auth.py:76-85 | `None` for an absent or empty session id; otherwise the user whose session id equals it, and `None` exactly when no user holds it |
| `AuthSpec.DestroySession` | api/v1/auth/auth.py:87-93 | clears the session id of the user with that id; an unknown id changes nothing; every other column and row is unchanged |
| `AuthSpec.GetResetPasswordToken` | api/v1/auth/auth.py:95-103 | `UserNotFound` and no change for an unknown email; otherwise returns the fresh token and sets only that user's reset token to it |
| `AuthSpec.UpdatePassword` | api/v1/auth/auth.py:105-113 | `InvalidResetToken` and no change unless a user holds the given token; otherwise that user's hash becomes a hash of the new password and its reset token is cleared in one update, session id untouched, other rows unchanged |
| `AuthSpec.UpdatePasswordAsWritten` | api/v1/auth/auth.py:105-113 | succeeds exactly when some row's reset token equals the argument, `None` included, and then replaces that row's hash and clears its reset token |
| `Auth.Auth.constructor` | api/v1/auth/auth.py:34-36 | a new object owns a fresh, empty store that satisfies the invariant |
| `Auth.Auth.RegisterUser` | api/v1/auth/auth.py:38-46 | the store and result are those of `AuthSpec.RegisterUser` on the store before the call; the invariant is kept |
| `Auth.Auth.ValidLogin` | api/v1/auth/auth.py:48-64 | true exactly when a stored user has that email and the password checks against its hash; never an error |
| `Auth.Auth.CreateSession` | api/v1/auth/auth.py:66-74 | the store and result are those of `AuthSpec.CreateSession`; the invariant is kept |
| `Auth.Auth.GetUserFromSessionId` | api/v1/auth/auth.py:76-85 | `None` for an absent or empty session id; otherwise the stored user holding it, and `None` exactly when no user holds it; reads the store only |
| `Auth.Auth.DestroySession` | api/v1/auth/auth.py:87-93 | the store is that of `AuthSpec.DestroySession`; the invariant is kept |
| `Auth.Auth.GetResetPasswordToken` | api/v1/auth/auth.py:95-103 | the store and result are those of `AuthSpec.GetResetPasswordToken`; the invariant is kept |
| `Auth.Auth.UpdatePassword` | api/v1/auth/auth.py:105-113 | the store and result are those of `AuthSpec.UpdatePassword` (the corrected operation, see ## Findings); the invariant is kept |
| `Auth.SignupLoginLogout` | api/v1/auth/auth.py:38-93 | on a new object: registering succeeds, login with the right password succeeds and with a wrong one fails, the new session id resolves to the registered email, and after logout it resolves to no user |
| `AuthProperties.RegisterTwiceFails` | api/v1/auth/auth.py:40-46 | registering a new email succeeds; registering it again fails with `AlreadyExists` and changes nothing |
| `AuthProperties.LoginAfterRegister` | api/v1/auth/auth.py:43-64 | right after registration, login succeeds with exactly the registered password |
| `AuthProperties.SessionResolvesToUser` | api/v1/auth/auth.py:66-85 | for a known email the returned session id resolves to that user |
| `AuthProperties.SecondSessionRevokesFirst` | api/v1/auth/auth.py:72-82 | after two `create_session` calls for one email the first session id resolves to no user |
| `AuthProperties.SecondSessionResolves` | api/v1/auth/auth.py:72-82 | after two `create_session` calls for a known email the second session id resolves to that user |
| `AuthProperties.DestroyRevokesSession` | api/v1/auth/auth.py:76-93 | after `destroy_session` on the user a session id resolved to, that session id resolves to no user |
| `AuthProperties.ResetFlow` | api/v1/auth/auth.py:95-113 | a reset token issued for a known email lets `update_password` succeed, after which login succeeds with exactly the new password |
| `AuthProperties.ResetTokenSingleUse` | api/v1/auth/auth.py:105-113 | after a successful `update_password` with a token, the same token is refused with `InvalidResetToken` and nothing changes |
| `AuthProperties.AbsentResetTokenReplacesPassword` | api/v1/auth/auth.py:105-113 | as written, `update_password(None, p)` on a user with no pending reset succeeds and makes `p` that user's password; the corrected operation refuses it |

## Left out

- The HTTP layer (`api/v1/views/registration.py`): routing, form parsing, cookies, redirects, templates and `abort(403)`.
- `models.db` and `models.user` are not part of this model. The store is a map from id to row with ids handed out in increasing order; a lookup returns the matching row with the lowest id. Store failures, and the `MultipleResultsFound` a lookup can raise when several rows match, are not modelled; under the invariant at most one row matches any query the corrected operations issue.
- bcrypt's algorithm, its salt generation and its 72-byte password limit: the hash is a symbolic term that checks against exactly its own password.
- uuid4 randomness: each new token is a parameter required to be non-empty and held by no row, an assumption rather than something proved.
- The `print` calls inside `valid_login`: logging only.
- The str/bytes conversion of the stored hash in `valid_login`: a stored hash that `checkpw` cannot use is `Malformed` and makes login false, like any other error that `valid_login` catches.
- A `None` email or password coming from the HTTP layer: emails and passwords are strings here. Session ids and reset tokens are `Option<string>`, since `None` reaches `get_user_from_session_id` and `update_password`.
- `destroy_session` takes a `nat` id; a negative id matches no row in the source either.
- Concurrency and atomicity across requests.

## Findings

| source | as written | input that shows it | evidently intended | confidence | as-written member | corrected member |
|---|---|---|---|---|---|---|
| api/v1/auth/auth.py:105-113 | `update_password` looks the user up by `reset_token=reset_token` even when the token is `None`; comparing the column with `None` selects rows whose reset token is NULL | a store with one user who has no pending reset, and `update_password(None, "x")`; the route passes `request.form.get('reset_token')`, which is `None` when the field is missing | an absent token is refused with `ValueError`, as `get_user_from_session_id` refuses an absent session id | medium, not executed; rests on `find_user_by` passing the keyword to an SQL filter, and that code is not part of this model | `AuthProperties.AbsentResetTokenReplacesPassword` | `AuthSpec.UpdatePassword` |
