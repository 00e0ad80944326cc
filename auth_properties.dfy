/**
  Properties of sequences of authentication operations, stated over the step
  functions of module AuthSpec.
*/
module AuthProperties {
  import opened Wrappers
  import opened Hashing
  import opened Store
  import opened AuthSpec

  /** Registering an email succeeds once; a second registration with the same
      email fails with `AlreadyExists` and leaves the table as it was. */
  lemma RegisterTwiceFails(t: Table, email: string, p1: string, p2: string, s1: Salt, s2: Salt)
    requires Invariant(t) && !HasEmail(t, email)
    ensures RegisterUser(t, email, p1, s1).result.Ok?
    ensures var t1 := RegisterUser(t, email, p1, s1).table;
            RegisterUser(t1, email, p2, s2) == Step(t1, Err(AlreadyExists(email)))
  {
    var first := RegisterUser(t, email, p1, s1);
    var u := first.result.value;
    assert first.table.rows[u.id].email == email;
  }

  /** Right after registering, logging in succeeds with exactly the password
      registered. */
  lemma LoginAfterRegister(t: Table, email: string, password: string, salt: Salt, attempt: string)
    requires Invariant(t) && !HasEmail(t, email)
    ensures ValidLogin(RegisterUser(t, email, password, salt).table, email, attempt) <==> attempt == password
  {
    var s := RegisterUser(t, email, password, salt);
    var u := s.result.value;
    assert s.table.rows[u.id] == u;
    if ValidLogin(s.table, email, attempt) {
      var k :| k in s.table.rows && s.table.rows[k].email == email
               && CheckPassword(attempt, s.table.rows[k].hashedPassword);
      assert k == u.id;
    }
  }

  /** A new session id resolves to the user it was created for. */
  lemma SessionResolvesToUser(t: Table, email: string, token: string)
    requires Invariant(t) && Fresh(t, token) && HasEmail(t, email)
    ensures CreateSession(t, email, token).result == Some(token)
    ensures var r := GetUserFromSessionId(CreateSession(t, email, token).table, Some(token));
            r.Some? && r.value.email == email && r.value.sessionId == Some(token)
  {
    var s := CreateSession(t, email, token);
    var k :| k in t.rows && t.rows[k].email == email;
    assert s.table.rows[k].sessionId == Some(token);
    var r := GetUserFromSessionId(s.table, Some(token));
    assert r.value.id == k;
  }

  /** A second `create_session` for the same email overwrites the first
      session id, which then resolves to no user. */
  lemma SecondSessionRevokesFirst(t: Table, email: string, first: string, second: string)
    requires Invariant(t) && Fresh(t, first)
    requires Fresh(CreateSession(t, email, first).table, second)
    ensures var t2 := CreateSession(CreateSession(t, email, first).table, email, second).table;
            GetUserFromSessionId(t2, Some(first)) == None
  {
    var t1 := CreateSession(t, email, first).table;
    var t2 := CreateSession(t1, email, second).table;
    forall k | k in t2.rows
      ensures t2.rows[k].sessionId != Some(first)
    {
      if t.rows[k].email == email {
        assert t1.rows[k].sessionId == Some(first);
      }
    }
  }

  /** After a second `create_session` for a known email, the second session
      id resolves to that user. */
  lemma SecondSessionResolves(t: Table, email: string, first: string, second: string)
    requires Invariant(t) && Fresh(t, first) && HasEmail(t, email)
    requires Fresh(CreateSession(t, email, first).table, second)
    ensures var t2 := CreateSession(CreateSession(t, email, first).table, email, second).table;
            var r := GetUserFromSessionId(t2, Some(second));
            r.Some? && r.value.email == email
  {
    var t1 := CreateSession(t, email, first).table;
    var k :| k in t.rows && t.rows[k].email == email;
    assert t1.rows[k].email == email;
    SessionResolvesToUser(t1, email, second);
  }

  /** After `destroy_session` for the user a session id resolved to, that
      session id resolves to no user. */
  lemma DestroyRevokesSession(t: Table, sessionId: string)
    requires Invariant(t) && GetUserFromSessionId(t, Some(sessionId)).Some?
    ensures var u := GetUserFromSessionId(t, Some(sessionId)).value;
            GetUserFromSessionId(DestroySession(t, u.id), Some(sessionId)) == None
  {
    var u := GetUserFromSessionId(t, Some(sessionId)).value;
    var t' := DestroySession(t, u.id);
    forall k | k in t'.rows
      ensures t'.rows[k].sessionId != Some(sessionId)
    {
      if k != u.id && t.rows[k].sessionId == Some(sessionId) {
        assert t.rows[u.id].sessionId == Some(sessionId);
      }
    }
  }

  /** The reset flow: a token issued for a known email lets `update_password`
      succeed once, after which only the new password logs in. */
  lemma ResetFlow(t: Table, email: string, token: string, newPassword: string, salt: Salt, attempt: string)
    requires Invariant(t) && Fresh(t, token) && HasEmail(t, email)
    ensures GetResetPasswordToken(t, email, token).result == Ok(token)
    ensures var t1 := GetResetPasswordToken(t, email, token).table;
            var s2 := UpdatePassword(t1, Some(token), newPassword, salt);
            s2.result.Ok? && (ValidLogin(s2.table, email, attempt) <==> attempt == newPassword)
  {
    var k :| k in t.rows && t.rows[k].email == email;
    var t1 := GetResetPasswordToken(t, email, token).table;
    assert t1.rows[k].resetToken == Some(token);
    var s2 := UpdatePassword(t1, Some(token), newPassword, salt);
    assert s2.table.rows[k].hashedPassword == HashPassword(newPassword, salt);
    if ValidLogin(s2.table, email, attempt) {
      var j :| j in s2.table.rows && s2.table.rows[j].email == email
               && CheckPassword(attempt, s2.table.rows[j].hashedPassword);
      assert j == k;
    }
  }

  /** A reset token is single-use: once `update_password` has succeeded with
      it, any further `update_password` with it fails with `InvalidResetToken`. */
  lemma ResetTokenSingleUse(t: Table, token: string, p1: string, s1: Salt, p2: string, s2: Salt)
    requires Invariant(t) && UpdatePassword(t, Some(token), p1, s1).result.Ok?
    ensures var t1 := UpdatePassword(t, Some(token), p1, s1).table;
            UpdatePassword(t1, Some(token), p2, s2) == Step(t1, Err(InvalidResetToken))
  {
    var t1 := UpdatePassword(t, Some(token), p1, s1).table;
    var k :| k in t.rows && t.rows[k].resetToken == Some(token);
    forall j | j in t1.rows
      ensures t1.rows[j].resetToken != Some(token)
    {
    }
  }

  /** As written, `update_password` with an absent reset token replaces the
      password of a user who never asked for a reset; the corrected
      UpdatePassword refuses it. */
  lemma AbsentResetTokenReplacesPassword(u: User, password: string, salt: Salt)
    requires u.resetToken == None
    ensures var t := Table(map[u.id := u], u.id + 1);
            && Invariant(t)
            && var s := UpdatePasswordAsWritten(t, None, password, salt);
            && s.result.Ok?
            && ValidLogin(s.table, u.email, password)
            && UpdatePassword(t, None, password, salt) == Step(t, Err(InvalidResetToken))
  {
    var t := Table(map[u.id := u], u.id + 1);
    var s := UpdatePasswordAsWritten(t, None, password, salt);
    assert t.rows[u.id].resetToken == None;
  }
}
