/**
  Password hashing as the authentication module uses bcrypt: `hashpw` with a
  fresh salt on registration and on password update, `checkpw` against the
  stored hash on login.

  bcrypt is modelled symbolically. A digest is the term hashpw(password, salt);
  nothing reads the password back out of it except CheckPassword, which stands
  for `checkpw` and holds exactly for the password the digest was made from.
  A stored value that `checkpw` cannot parse is `Malformed`.
*/
module Hashing {

  /** A salt as `bcrypt.gensalt()` returns it; supplied by the caller. */
  type Salt = string

  datatype PasswordHash =
    | Digest(salt: Salt, preimage: string)
    | Malformed(raw: string)

  /** `bcrypt.checkpw(password, stored)`; a malformed stored hash never checks. */
  predicate CheckPassword(password: string, stored: PasswordHash): (ok: bool)
    ensures ok <==> stored.Digest? && stored == Digest(stored.salt, password)
  {
    stored.Digest? && stored.preimage == password
  }

  /** `_hash_password`: a salted digest that checks against exactly one password. */
  function HashPassword(password: string, salt: Salt): (h: PasswordHash)
    ensures h.Digest? && h.salt == salt
    ensures forall p :: CheckPassword(p, h) <==> p == password
  {
    Digest(salt, password)
  }

  /** Two users with the same password get different stored hashes when their
      salts differ, and each hash still checks against that password. */
  lemma SaltedHashesDiffer(password: string, s1: Salt, s2: Salt)
    requires s1 != s2
    ensures HashPassword(password, s1) != HashPassword(password, s2)
    ensures CheckPassword(password, HashPassword(password, s1))
    ensures CheckPassword(password, HashPassword(password, s2))
  {
  }
}
