/** The users table: sign-up stores a bcrypt digest under a unique email, and credential
    validation answers the stored email only when the password matches the digest. */
module Credentials {
  import opened Entities

  /** bcrypt as two uninterpreted functions: `hash(password, salt)` makes a digest and
      `compare(password, digest)` checks a password against one. */
  datatype Bcrypt = Bcrypt(hash: (string, string) -> string, compare: (string, string) -> bool)

  /** What the model assumes of bcrypt where a property needs it: a password matches every
      digest made from it. */
  ghost predicate Sound(bcrypt: Bcrypt) {
    forall password, salt :: bcrypt.compare(password, bcrypt.hash(password, salt))
  }

  /** Where the first user with `email` is, as `findOne({ email })` answers it. */
  function FindUserByEmail(users: seq<User>, email: string): (i: Option<nat>)
    ensures i.None? <==> forall k :: 0 <= k < |users| ==> users[k].email != email
    ensures i.Some? ==> i.value < |users| && users[i.value].email == email
    ensures i.Some? ==> forall k :: 0 <= k < i.value ==> users[k].email != email
  {
    FirstIndex(users, (u: User) => u.email == email)
  }

  /** The unique constraint on the email column. */
  ghost predicate EmailsUnique(users: seq<User>) {
    forall j, k :: 0 <= j < k < |users| ==> users[j].email != users[k].email
  }

  /** Primary keys are distinct and below the next generated key; emails are unique. */
  ghost predicate UsersValid(users: seq<User>, nextId: nat) {
    && (forall k :: 0 <= k < |users| ==> users[k].id < nextId)
    && (forall j, k :: 0 <= j < k < |users| ==> users[j].id != users[k].id)
    && EmailsUnique(users)
  }

  /** The email of the user registered under `email`, when `password` matches that user's
      digest; `None` (the source's null) for an unknown email or a wrong password. */
  function ValidateUserPassword(users: seq<User>, email: string, password: string, bcrypt: Bcrypt): (r: Option<string>)
    ensures r.Some? ==> r.value == email
    ensures r.Some? ==> exists u :: u in users && u.email == email && bcrypt.compare(password, u.password)
    ensures (forall u :: u in users ==> u.email != email) ==> r.None?
  {
    match FindUserByEmail(users, email)
    case None => None
    case Some(i) => if bcrypt.compare(password, users[i].password) then Some(users[i].email) else None
  }

  /** With unique emails validation succeeds exactly when the one user with that email has a
      digest the password matches. */
  lemma ValidateUserPasswordIff(users: seq<User>, email: string, password: string, bcrypt: Bcrypt)
    requires EmailsUnique(users)
    ensures ValidateUserPassword(users, email, password, bcrypt).Some? <==>
      exists u :: u in users && u.email == email && bcrypt.compare(password, u.password)
  {
    var r := ValidateUserPassword(users, email, password, bcrypt);
    if u :| u in users && u.email == email && bcrypt.compare(password, u.password) {
      var k :| 0 <= k < |users| && users[k] == u;
      var i := FindUserByEmail(users, email).value;
      assert i == k;
    }
  }

  /** A user just registered with `password` validates with it, whatever salt was drawn. */
  lemma {:induction false} SignedUpUserValidates(users: seq<User>, id: nat, email: string, password: string,
                                                salt: string, bcrypt: Bcrypt)
    requires Sound(bcrypt)
    requires forall u :: u in users ==> u.email != email
    ensures ValidateUserPassword(users + [User(id, email, bcrypt.hash(password, salt), USER)], email, password, bcrypt)
      == Some(email)
  {
    var table := users + [User(id, email, bcrypt.hash(password, salt), USER)];
    assert forall k :: 0 <= k < |users| ==> table[k].email != email by {
      forall k | 0 <= k < |users|
        ensures table[k].email != email
      {
        assert table[k] == users[k] && users[k] in users;
      }
    }
    assert table[|users|].email == email;
    var i := FindUserByEmail(table, email).value;
    assert i == |users|;
  }

  class UserRepository {
    var users: seq<User>
    var nextId: nat

    ghost predicate Valid()
      reads this
    {
      UsersValid(users, nextId)
    }

    constructor ()
      ensures Valid() && users == []
    {
      users := [];
      nextId := 1;
    }

    /** Registers `email` with the bcrypt digest of `password` under `salt`; the role column
        takes its default USER. An email already registered violates the unique constraint
        (code 23505) and is a Conflict. `saveFails` stands for any other error of the insert,
        which is logged and swallowed: the call then returns normally with nothing stored. */
    method SignUp(email: string, password: string, salt: string, bcrypt: Bcrypt, saveFails: bool)
      returns (r: Result<()>)
      requires Valid()
      modifies this
      ensures Valid()
      ensures (exists u :: u in old(users) && u.email == email) ==>
        r == Err(Conflict) && users == old(users)
      ensures (forall u :: u in old(users) ==> u.email != email) && saveFails ==>
        r == Ok(()) && users == old(users)
      ensures (forall u :: u in old(users) ==> u.email != email) && !saveFails ==>
        r == Ok(()) && users == old(users) + [User(old(nextId), email, bcrypt.hash(password, salt), USER)]
    {
      var digest := bcrypt.hash(password, salt);
      if FindUserByEmail(users, email).Some? {
        return Err(Conflict);
      }
      if saveFails {
        return Ok(());
      }
      users := users + [User(nextId, email, digest, USER)];
      nextId := nextId + 1;
      r := Ok(());
    }

    /** Writes a new digest into the password column of the user at position `i`. */
    method SavePassword(i: nat, digest: string)
      requires Valid() && i < |users|
      modifies this
      ensures Valid()
      ensures users == old(users)[i := old(users)[i].(password := digest)] && nextId == old(nextId)
    {
      users := users[i := users[i].(password := digest)];
    }
  }
}
