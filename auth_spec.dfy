/**
  What each operation of the `Auth` class does to the user table, as a
  function of the table before the call: the table after it and the value
  returned or the error raised. The class in module Auth performs these steps
  on its store in place.

  Randomness is supplied by the caller: `salt` stands for `bcrypt.gensalt()`
  and `token` for `str(uuid4())`, which the model requires to be non-empty and
  held by no row (`Fresh`).
*/
module AuthSpec {
  import opened Wrappers
  import opened Hashing
  import opened Store

  /** The `ValueError`s the class raises. */
  datatype AuthError =
    | AlreadyExists(email: string)
    | UserNotFound
    | InvalidResetToken

  datatype Result<+T> = Ok(value: T) | Err(error: AuthError)

  /** The table after an operation, and what the operation returned. */
  datatype Step<+R> = Step(table: Table, result: R)

  /** One row per email, and a present session id or reset token identifies
      exactly one row. */
  ghost predicate Invariant(t: Table)
  {
    && t.Valid()
    && (forall i, j :: i in t.rows && j in t.rows && t.rows[i].email == t.rows[j].email ==> i == j)
    && (forall i, j :: (i in t.rows && j in t.rows && t.rows[i].sessionId.Some?
                        && t.rows[i].sessionId == t.rows[j].sessionId) ==> i == j)
    && (forall i, j :: (i in t.rows && j in t.rows && t.rows[i].resetToken.Some?
                        && t.rows[i].resetToken == t.rows[j].resetToken) ==> i == j)
  }

  ghost predicate HasEmail(t: Table, email: string)
  {
    exists k :: k in t.rows && t.rows[k].email == email
  }

  /** A token as `_generate_uuid` returns it: non-empty, and held by no row as
      a session id or as a reset token. */
  ghost predicate Fresh(t: Table, token: string)
  {
    token != "" &&
    forall k :: k in t.rows ==> t.rows[k].sessionId != Some(token) && t.rows[k].resetToken != Some(token)
  }

  /** `register_user`. */
  function RegisterUser(t: Table, email: string, password: string, salt: Salt): (s: Step<Result<User>>)
    requires Invariant(t)
    ensures Invariant(s.table)
    ensures s.result.Err? <==> HasEmail(t, email)
    ensures s.result.Err? ==> s.result.error == AlreadyExists(email) && s.table == t
    ensures s.result.Ok? ==>
              var u := s.result.value;
              && u.id !in t.rows
              && s.table.rows == t.rows[u.id := u]
              && u.email == email
              && u.sessionId == None && u.resetToken == None
              && (forall p :: CheckPassword(p, u.hashedPassword) <==> p == password)
  {
    match Find(t, ByEmail(email))
    case Some(_) => Step(t, Err(AlreadyExists(email)))
    case None =>
      var (t', u) := Insert(t, email, HashPassword(password, salt));
      Step(t', Ok(u))
  }

  /** `valid_login`: never raises; a missing user or a malformed stored hash is
      `false`. */
  function ValidLogin(t: Table, email: string, password: string): (ok: bool)
    requires Invariant(t)
    ensures ok <==> exists k :: k in t.rows && t.rows[k].email == email
                               && CheckPassword(password, t.rows[k].hashedPassword)
  {
    match Find(t, ByEmail(email))
    case None => false
    case Some(u) => CheckPassword(password, u.hashedPassword)
  }

  /** `create_session`: `None` for an unknown email; otherwise the fresh token,
      now that user's session id in place of any earlier one. */
  function CreateSession(t: Table, email: string, token: string): (s: Step<Option<string>>)
    requires Invariant(t) && Fresh(t, token)
    ensures Invariant(s.table)
    ensures s.result == if HasEmail(t, email) then Some(token) else None
    ensures s.table.nextId == t.nextId && s.table.rows.Keys == t.rows.Keys
    ensures forall k :: k in t.rows ==>
              s.table.rows[k] == if t.rows[k].email == email
                                 then t.rows[k].(sessionId := Some(token)) else t.rows[k]
  {
    match Find(t, ByEmail(email))
    case None => Step(t, None)
    case Some(u) =>
      ApplyOne(u, SetSessionId(Some(token)));
      Step(Update(t, u.id, [SetSessionId(Some(token))]), Some(token))
  }

  /** `get_user_from_session_id`: `None` without a lookup for an absent or
      empty session id; otherwise the user holding it, if any. */
  function GetUserFromSessionId(t: Table, sessionId: Option<string>): (r: Option<User>)
    requires Invariant(t)
    ensures sessionId == None || sessionId == Some("") ==> r == None
    ensures sessionId != None && sessionId != Some("") ==>
              (r.Some? <==> exists k :: k in t.rows && t.rows[k].sessionId == sessionId)
    ensures r.Some? ==> r.value.id in t.rows && t.rows[r.value.id] == r.value
                        && r.value.sessionId == sessionId
  {
    if sessionId == None || sessionId == Some("") then None
    else Find(t, BySessionId(sessionId))
  }

  /** `destroy_session`: the user's session id becomes `None`; an unknown id
      changes nothing. */
  function DestroySession(t: Table, userId: nat): (t': Table)
    requires Invariant(t)
    ensures Invariant(t')
    ensures t'.nextId == t.nextId && t'.rows.Keys == t.rows.Keys
    ensures forall k :: k in t.rows ==>
              t'.rows[k] == if k == userId then t.rows[k].(sessionId := None) else t.rows[k]
  {
    match Find(t, ById(userId))
    case None => t
    case Some(_) => Update(t, userId, [SetSessionId(None)])
  }

  /** `get_reset_password_token`: `UserNotFound` for an unknown email;
      otherwise the fresh token, now that user's reset token. */
  function GetResetPasswordToken(t: Table, email: string, token: string): (s: Step<Result<string>>)
    requires Invariant(t) && Fresh(t, token)
    ensures Invariant(s.table)
    ensures s.result == if HasEmail(t, email) then Ok(token) else Err(UserNotFound)
    ensures s.table.nextId == t.nextId && s.table.rows.Keys == t.rows.Keys
    ensures forall k :: k in t.rows ==>
              s.table.rows[k] == if t.rows[k].email == email
                                 then t.rows[k].(resetToken := Some(token)) else t.rows[k]
  {
    match Find(t, ByEmail(email))
    case None => Step(t, Err(UserNotFound))
    case Some(u) =>
      ApplyOne(u, SetResetToken(Some(token)));
      Step(Update(t, u.id, [SetResetToken(Some(token))]), Ok(token))
  }

  /** `update_password`: `InvalidResetToken` unless some user holds the given
      reset token; otherwise that user's hash becomes a fresh hash of the new
      password and the reset token is cleared in the same update. An absent
      token is refused as `get_user_from_session_id` refuses an absent session
      id (see UpdatePasswordAsWritten for the code as it stands). */
  function UpdatePassword(t: Table, resetToken: Option<string>, password: string, salt: Salt)
    : (s: Step<Result<()>>)
    requires Invariant(t)
    ensures Invariant(s.table)
    ensures s.result.Ok? <==> resetToken != None && exists k :: k in t.rows && t.rows[k].resetToken == resetToken
    ensures s.result.Err? ==> s.result.error == InvalidResetToken
    ensures s.table.nextId == t.nextId && s.table.rows.Keys == t.rows.Keys
    ensures forall k :: k in t.rows ==>
              s.table.rows[k] == if resetToken != None && t.rows[k].resetToken == resetToken
                                 then t.rows[k].(hashedPassword := HashPassword(password, salt), resetToken := None)
                                 else t.rows[k]
  {
    if resetToken == None then Step(t, Err(InvalidResetToken))
    else
      match Find(t, ByResetToken(resetToken))
      case None => Step(t, Err(InvalidResetToken))
      case Some(u) =>
        ApplyTwo(u, SetHashedPassword(HashPassword(password, salt)), SetResetToken(None));
        Step(Update(t, u.id, [SetHashedPassword(HashPassword(password, salt)), SetResetToken(None)]), Ok(()))
  }

  /** `update_password` as written: the lookup is issued even for an absent
      token, and comparing the reset-token column with `None` selects a row
      whose reset token is NULL, that is, a user who never asked for a reset. */
  function UpdatePasswordAsWritten(t: Table, resetToken: Option<string>, password: string, salt: Salt)
    : (s: Step<Result<()>>)
    requires Invariant(t)
    ensures s.result.Ok? <==> exists k :: k in t.rows && t.rows[k].resetToken == resetToken
    ensures s.result.Err? ==> s.result.error == InvalidResetToken && s.table == t
    ensures s.result.Ok? ==>
              exists k :: k in t.rows && t.rows[k].resetToken == resetToken
                          && s.table.rows == t.rows[k := t.rows[k].(hashedPassword := HashPassword(password, salt),
                                                                    resetToken := None)]
  {
    match Find(t, ByResetToken(resetToken))
    case None => Step(t, Err(InvalidResetToken))
    case Some(u) =>
      ApplyTwo(u, SetHashedPassword(HashPassword(password, salt)), SetResetToken(None));
      Step(Update(t, u.id, [SetHashedPassword(HashPassword(password, salt)), SetResetToken(None)]), Ok(()))
  }
}
