/** The user table (`User` in app/common/models.py) and the whole store the
    request flows act on: users, reset codes and the revocation ledger. */
module Accounts {
  import opened Wrappers
  import Otp
  import Blocklist

  /** A werkzeug password hash.  Hashing is a foreign call; the model only
      relies on its observable contract: a hash accepts exactly the password
      it was made from. */
  datatype PasswordHash = PasswordHash(secret: string)

  /** `generate_password_hash` (inside `set_password`). */
  function GeneratePasswordHash(password: string): PasswordHash {
    PasswordHash(password)
  }

  /** `check_password_hash` (inside `check_password`). */
  function CheckPasswordHash(hash: PasswordHash, password: string): (ok: bool)
    ensures ok <==> hash == GeneratePasswordHash(password)
  {
    hash.secret == password
  }

  datatype User = User(
    ulid: string,
    nickname: string,
    email: string,
    firstName: string,
    lastName: string,
    passwordHash: PasswordHash,
    createdAt: nat,
    updatedAt: nat)

  datatype Db = Db(users: seq<User>, otps: seq<Otp.OtpRow>, ledger: Blocklist.Ledger)

  /** `User.query.filter_by(email=email).first()`. */
  function FindUserByEmail(users: seq<User>, email: string): (r: Option<nat>)
    ensures r.None? <==> forall i :: 0 <= i < |users| ==> users[i].email != email
    ensures r.Some? ==> r.value < |users| && users[r.value].email == email
    ensures r.Some? ==> forall i :: 0 <= i < r.value ==> users[i].email != email
  {
    if users == [] then None
    else if users[0].email == email then Some(0)
    else
      var rest := FindUserByEmail(users[1..], email);
      assert forall i :: 1 <= i < |users| ==> users[i] == users[1..][i - 1];
      if rest.Some? then Some(rest.value + 1) else None
  }

  /** Replacing a user by one with the same email does not change what an
      email lookup finds. */
  lemma FindUserByEmailUpdate(users: seq<User>, k: nat, u: User, email: string)
    requires k < |users| && u.email == users[k].email
    ensures FindUserByEmail(users[k := u], email) == FindUserByEmail(users, email)
  {
    assert forall i :: 0 <= i < |users| ==> users[k := u][i].email == users[i].email;
  }

  /** A user appended under an email nobody else has is what a lookup for
      that email finds. */
  lemma FindUserByEmailAppend(users: seq<User>, u: User)
    requires forall i :: 0 <= i < |users| ==> users[i].email != u.email
    ensures FindUserByEmail(users + [u], u.email) == Some(|users|)
  {
    var all := users + [u];
    assert forall i :: 0 <= i < |users| ==> all[i] == users[i];
    assert all[|users|] == u;
  }
}
