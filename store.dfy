/**
  The user table behind the authentication module (`self._db`): records keyed
  by id, looked up by one column (`find_user_by`), created with the next id
  (`add_user`) and updated column by column (`update_user`).

  The table is a value (`Table`) so that each operation of the authentication
  module can be specified as a function of it; `DB` is the object that holds
  it and is updated in place.
*/
module Store {
  import opened Wrappers
  import opened Hashing

  /** One row of the users table. `None` is a NULL column. */
  datatype User = User(
    id: nat,
    email: string,
    hashedPassword: PasswordHash,
    sessionId: Option<string>,
    resetToken: Option<string>)

  /** The single keyword argument of a `find_user_by` call. Comparing a token
      column with `None` selects the rows where that column is NULL. */
  datatype Query =
    | ByEmail(email: string)
    | ById(id: nat)
    | BySessionId(sessionId: Option<string>)
    | ByResetToken(resetToken: Option<string>)

  predicate Matches(u: User, q: Query)
  {
    match q
    case ByEmail(e) => u.email == e
    case ById(i) => u.id == i
    case BySessionId(s) => u.sessionId == s
    case ByResetToken(r) => u.resetToken == r
  }

  /** One keyword argument of an `update_user` call. */
  datatype Field =
    | SetHashedPassword(hashedPassword: PasswordHash)
    | SetSessionId(sessionId: Option<string>)
    | SetResetToken(resetToken: Option<string>)

  /** The row with one column set. */
  function Set(u: User, f: Field): (v: User)
  {
    match f
    case SetHashedPassword(h) => u.(hashedPassword := h)
    case SetSessionId(s) => u.(sessionId := s)
    case SetResetToken(r) => u.(resetToken := r)
  }

  /** The row after applying the keyword arguments in order; id and email are
      never among them. */
  function Apply(u: User, fields: seq<Field>): (v: User)
    ensures v.id == u.id && v.email == u.email
    decreases |fields|
  {
    if fields == [] then u else Apply(Set(u, fields[0]), fields[1..])
  }

  lemma ApplyOne(u: User, f: Field)
    ensures Apply(u, [f]) == Set(u, f)
  {
    assert [f][1..] == [];
  }

  lemma ApplyTwo(u: User, f: Field, g: Field)
    ensures Apply(u, [f, g]) == Set(Set(u, f), g)
  {
    assert [f, g][1..] == [g];
    ApplyOne(Set(u, f), g);
  }

  /** The rows by id, and the id the next insertion receives. */
  datatype Table = Table(rows: map<nat, User>, nextId: nat) {

    /** Every row sits under its own id, below the next id to hand out. */
    ghost predicate Valid()
    {
      forall k :: k in rows ==> k < nextId && rows[k].id == k
    }
  }

  /** `find_user_by`: the matching row with the lowest id at or above `from`,
      or `None` (the source's `NoResultFound`). */
  function FindFrom(t: Table, q: Query, from: nat): (r: Option<User>)
    requires t.Valid()
    ensures r.Some? ==> from <= r.value.id && r.value.id in t.rows
                        && t.rows[r.value.id] == r.value && Matches(r.value, q)
    ensures r.None? ==> forall k :: k in t.rows && from <= k ==> !Matches(t.rows[k], q)
    decreases t.nextId - from
  {
    if t.nextId <= from then None
    else if from in t.rows && Matches(t.rows[from], q) then Some(t.rows[from])
    else FindFrom(t, q, from + 1)
  }

  function Find(t: Table, q: Query): (r: Option<User>)
    requires t.Valid()
    ensures r.Some? ==> r.value.id in t.rows && t.rows[r.value.id] == r.value && Matches(r.value, q)
    ensures r.None? ==> forall k :: k in t.rows ==> !Matches(t.rows[k], q)
  {
    FindFrom(t, q, 0)
  }

  /** `add_user`: a new row under the next id, with no session and no reset
      token. */
  function Insert(t: Table, email: string, hashedPassword: PasswordHash): (r: (Table, User))
    requires t.Valid()
    ensures r.0.Valid()
    ensures r.1.id !in t.rows && r.0.rows == t.rows[r.1.id := r.1]
    ensures r.1 == User(r.1.id, email, hashedPassword, None, None)
  {
    var u := User(t.nextId, email, hashedPassword, None, None);
    (Table(t.rows[u.id := u], t.nextId + 1), u)
  }

  /** `update_user`: the named columns of one existing row change. */
  function Update(t: Table, id: nat, fields: seq<Field>): (t': Table)
    requires t.Valid() && id in t.rows
    ensures t'.Valid() && t'.nextId == t.nextId
    ensures t'.rows == t.rows[id := Apply(t.rows[id], fields)]
  {
    Table(t.rows[id := Apply(t.rows[id], fields)], t.nextId)
  }

  /** The store object the authentication module owns. */
  class DB {
    var rows: map<nat, User>
    var nextId: nat

    function Snapshot(): (t: Table)
      reads this
    {
      Table(rows, nextId)
    }

    ghost predicate Valid()
      reads this
    {
      Snapshot().Valid()
    }

    constructor ()
      ensures Valid() && Snapshot() == Table(map[], 1)
    {
      rows := map[];
      nextId := 1;
    }

    /** `find_user_by`: a row stored under its own id that matches the query,
        or `None` (`NoResultFound`) when no row does. */
    function FindUserBy(q: Query): (r: Option<User>)
      reads this
      requires Valid()
      ensures r.Some? ==> r.value.id in rows && rows[r.value.id] == r.value && Matches(r.value, q)
      ensures r.None? ==> forall k :: k in rows ==> !Matches(rows[k], q)
    {
      Find(Snapshot(), q)
    }

    method AddUser(email: string, hashedPassword: PasswordHash) returns (u: User)
      requires Valid()
      modifies this
      ensures Valid()
      ensures (Snapshot(), u) == Insert(old(Snapshot()), email, hashedPassword)
    {
      var r := Insert(Snapshot(), email, hashedPassword);
      rows, nextId, u := r.0.rows, r.0.nextId, r.1;
    }

    method UpdateUser(id: nat, fields: seq<Field>)
      requires Valid() && id in rows
      modifies this
      ensures Valid()
      ensures Snapshot() == Update(old(Snapshot()), id, fields)
    {
      rows := rows[id := Apply(rows[id], fields)];
    }
  }
}
