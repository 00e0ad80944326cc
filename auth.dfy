/**
  The `Auth` class: the operations of the authentication module, performed in
  place on the store it owns. Each mutating method leaves the store exactly as
  the matching function of module AuthSpec says and returns what it returns;
  the read-only operations are those functions applied to the store.
*/
module Auth {
  import opened Wrappers
  import opened Hashing
  import opened Store
  import AuthSpec

  class Auth {
    const db: DB

    ghost predicate Valid()
      reads db
    {
      AuthSpec.Invariant(db.Snapshot())
    }

    constructor ()
      ensures Valid() && fresh(db) && db.Snapshot() == Table(map[], 1)
    {
      db := new DB();
    }

    method RegisterUser(email: string, password: string, salt: Salt) returns (r: AuthSpec.Result<User>)
      requires Valid()
      modifies db
      ensures Valid()
      ensures AuthSpec.Step(db.Snapshot(), r) == AuthSpec.RegisterUser(old(db.Snapshot()), email, password, salt)
    {
      var found := db.FindUserBy(ByEmail(email));
      if found.Some? {
        return AuthSpec.Err(AuthSpec.AlreadyExists(email));
      }
      var hashed := HashPassword(password, salt);
      var u := db.AddUser(email, hashed);
      r := AuthSpec.Ok(u);
    }

    /** `valid_login`: never raises. */
    function ValidLogin(email: string, password: string): (ok: bool)
      reads db
      requires Valid()
      ensures ok <==> exists k :: k in db.rows && db.rows[k].email == email
                                 && CheckPassword(password, db.rows[k].hashedPassword)
    {
      AuthSpec.ValidLogin(db.Snapshot(), email, password)
    }

    method CreateSession(email: string, token: string) returns (sessionId: Option<string>)
      requires Valid() && AuthSpec.Fresh(db.Snapshot(), token)
      modifies db
      ensures Valid()
      ensures AuthSpec.Step(db.Snapshot(), sessionId) == AuthSpec.CreateSession(old(db.Snapshot()), email, token)
    {
      // names the step on the store before the call, so its postcondition is in scope
      ghost var after := AuthSpec.CreateSession(db.Snapshot(), email, token);
      var found := db.FindUserBy(ByEmail(email));
      if found.None? {
        return None;
      }
      db.UpdateUser(found.value.id, [SetSessionId(Some(token))]);
      sessionId := Some(token);
    }

    /** `get_user_from_session_id`: read-only. */
    function GetUserFromSessionId(sessionId: Option<string>): (r: Option<User>)
      reads db
      requires Valid()
      ensures sessionId == None || sessionId == Some("") ==> r == None
      ensures sessionId != None && sessionId != Some("") ==>
                (r.Some? <==> exists k :: k in db.rows && db.rows[k].sessionId == sessionId)
      ensures r.Some? ==> r.value.id in db.rows && db.rows[r.value.id] == r.value
                          && r.value.sessionId == sessionId
    {
      AuthSpec.GetUserFromSessionId(db.Snapshot(), sessionId)
    }

    method DestroySession(userId: nat)
      requires Valid()
      modifies db
      ensures Valid()
      ensures db.Snapshot() == AuthSpec.DestroySession(old(db.Snapshot()), userId)
    {
      // names the step on the store before the call, so its postcondition is in scope
      ghost var after := AuthSpec.DestroySession(db.Snapshot(), userId);
      var found := db.FindUserBy(ById(userId));
      if found.None? {
        return;
      }
      db.UpdateUser(userId, [SetSessionId(None)]);
    }

    method GetResetPasswordToken(email: string, token: string) returns (r: AuthSpec.Result<string>)
      requires Valid() && AuthSpec.Fresh(db.Snapshot(), token)
      modifies db
      ensures Valid()
      ensures AuthSpec.Step(db.Snapshot(), r) == AuthSpec.GetResetPasswordToken(old(db.Snapshot()), email, token)
    {
      // names the step on the store before the call, so its postcondition is in scope
      ghost var after := AuthSpec.GetResetPasswordToken(db.Snapshot(), email, token);
      var found := db.FindUserBy(ByEmail(email));
      if found.None? {
        return AuthSpec.Err(AuthSpec.UserNotFound);
      }
      db.UpdateUser(found.value.id, [SetResetToken(Some(token))]);
      r := AuthSpec.Ok(token);
    }

    method UpdatePassword(resetToken: Option<string>, password: string, salt: Salt) returns (r: AuthSpec.Result<()>)
      requires Valid()
      modifies db
      ensures Valid()
      ensures AuthSpec.Step(db.Snapshot(), r) == AuthSpec.UpdatePassword(old(db.Snapshot()), resetToken, password, salt)
    {
      // names the step on the store before the call, so its postcondition is in scope
      ghost var after := AuthSpec.UpdatePassword(db.Snapshot(), resetToken, password, salt);
      if resetToken == None {
        return AuthSpec.Err(AuthSpec.InvalidResetToken);
      }
      var found := db.FindUserBy(ByResetToken(resetToken));
      if found.None? {
        return AuthSpec.Err(AuthSpec.InvalidResetToken);
      }
      var hashed := HashPassword(password, salt);
      db.UpdateUser(found.value.id, [SetHashedPassword(hashed), SetResetToken(None)]);
      r := AuthSpec.Ok(());
    }
  }

  /** Sign up, log in with the right and a wrong password, open a session,
      resolve it to the user, log out, and resolve the old session id again. */
  method SignupLoginLogout(salt: Salt, token: string)
    returns (registered: bool, loginOk: bool, wrongRejected: bool,
             resolvedEmail: Option<string>, afterLogout: Option<User>)
    requires token != ""
    ensures registered && loginOk && wrongRejected
    ensures resolvedEmail == Some("a@x.com") && afterLogout == None
  {
    var auth := new Auth();
    var r := auth.RegisterUser("a@x.com", "pw1", salt);
    registered := r.Ok?;
    loginOk := auth.ValidLogin("a@x.com", "pw1");
    wrongRejected := !auth.ValidLogin("a@x.com", "wrong");
    var sid := auth.CreateSession("a@x.com", token);
    var user := auth.GetUserFromSessionId(sid);
    resolvedEmail := if user.Some? then Some(user.value.email) else None;
    if user.Some? {
      auth.DestroySession(user.value.id);
    }
    afterLogout := auth.GetUserFromSessionId(sid);
  }
}
