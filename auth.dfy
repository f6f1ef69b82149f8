/** Sign-in and the password-recovery state machine: a request issues a code for an email
    (one recovery row per email, upserted), and a password update redeems the code once,
    consuming it before the expiry check. */
module Auth {
  import opened Entities
  import opened Text
  import opened Credentials

  const MILLIS_PER_HOUR: int := 3600000

  /** The recovery constants, which the model leaves abstract: codes are drawn from
      `[minCode, maxCode)` and stay redeemable for `expirationHours` hours. */
  datatype RecoveryPolicy = RecoveryPolicy(minCode: nat, maxCode: nat, expirationHours: int)

  predicate PolicyValid(policy: RecoveryPolicy) {
    policy.minCode < policy.maxCode
  }

  /** `randomInt(min, max)`: `entropy` stands for the random source. */
  function RandomInt(min: int, max: int, entropy: nat): (n: int)
    requires min < max
    ensures min <= n < max
  {
    min + entropy % (max - min)
  }

  /** Every value of the range is drawn for some entropy. */
  lemma RandomIntCovers(min: int, max: int, n: int)
    requires min <= n < max
    ensures RandomInt(min, max, n - min) == n
  {
  }

  /** The issued code: the decimal form of a number drawn from the policy's range. */
  function IssuedCode(policy: RecoveryPolicy, entropy: nat): (code: string)
    requires PolicyValid(policy)
    ensures forall k :: 0 <= k < |code| ==> IsDigit(code[k])
    ensures policy.minCode <= DecimalValue(code) < policy.maxCode
  {
    var n := RandomInt(policy.minCode, policy.maxCode, entropy);
    DecimalRoundTrip(n);
    DecimalString(n)
  }

  /** The instant `hours` hours after `now`, both in milliseconds. */
  function ExpirationFrom(now: int, hours: int): int {
    now + hours * MILLIS_PER_HOUR
  }

  /** Where the first recovery row of `email` is. */
  function FindRecovery(rows: seq<RecoverPassword>, email: string): (i: Option<nat>)
    ensures i.None? <==> forall k :: 0 <= k < |rows| ==> rows[k].email != email
    ensures i.Some? ==> i.value < |rows| && rows[i.value].email == email
    ensures i.Some? ==> forall k :: 0 <= k < i.value ==> rows[k].email != email
  {
    FirstIndex(rows, (row: RecoverPassword) => row.email == email)
  }

  /** A row the update may redeem: the email and code match and the code was not used. */
  predicate Redeemable(row: RecoverPassword, email: string, code: string) {
    row.email == email && row.valid && row.code == code
  }

  /** Where the first redeemable row is, as `findOne({ email, valid: true, code })` answers it. */
  function FindValidCode(rows: seq<RecoverPassword>, email: string, code: string): (i: Option<nat>)
    ensures i.None? <==> forall k :: 0 <= k < |rows| ==> !Redeemable(rows[k], email, code)
    ensures i.Some? ==> i.value < |rows| && Redeemable(rows[i.value], email, code)
    ensures i.Some? ==> forall k :: 0 <= k < i.value ==> !Redeemable(rows[k], email, code)
  {
    FirstIndex(rows, (row: RecoverPassword) => Redeemable(row, email, code))
  }

  /** The two tables the service works on, and the next key of the recovery table. */
  datatype AuthState = AuthState(users: seq<User>, recoveries: seq<RecoverPassword>, nextRecoveryId: nat)

  /** What a call answers and the tables after it. */
  datatype Outcome = Outcome(result: Result<()>, state: AuthState)

  /** Emails are unique among users and among recovery rows; recovery keys are distinct and
      below the next generated key. */
  ghost predicate StateValid(s: AuthState) {
    && EmailsUnique(s.users)
    && (forall k :: 0 <= k < |s.recoveries| ==> s.recoveries[k].id < s.nextRecoveryId)
    && (forall j, k :: 0 <= j < k < |s.recoveries| ==>
          s.recoveries[j].id != s.recoveries[k].id && s.recoveries[j].email != s.recoveries[k].email)
  }

  /** Every recovery row belongs to a registered user. */
  ghost predicate RecoveriesOwned(s: AuthState) {
    forall k :: 0 <= k < |s.recoveries| ==> FindUserByEmail(s.users, s.recoveries[k].email).Some?
  }

  /** A recovery request: NotFound for an unknown email; otherwise the email's row, or a new
      one, holds the code and its expiration and is marked valid. */
  function Request(s: AuthState, email: string, code: string, expiration: int): (o: Outcome)
    ensures o.result == Err(NotFound) <==> forall u :: u in s.users ==> u.email != email
    ensures o.result.Err? ==> o.result == Err(NotFound) && o.state == s
    ensures o.state.users == s.users
    ensures o.result.Ok? ==> FindValidCode(o.state.recoveries, email, code).Some?
  {
    if FindUserByEmail(s.users, email).None? then Outcome(Err(NotFound), s)
    else match FindRecovery(s.recoveries, email)
      case Some(i) =>
        var rows := s.recoveries[i := RecoverPassword(s.recoveries[i].id, email, code, expiration, true)];
        assert Redeemable(rows[i], email, code);
        Outcome(Ok(()), s.(recoveries := rows))
      case None =>
        var rows := s.recoveries + [RecoverPassword(s.nextRecoveryId, email, code, expiration, true)];
        assert Redeemable(rows[|s.recoveries|], email, code);
        Outcome(Ok(()), s.(recoveries := rows, nextRecoveryId := s.nextRecoveryId + 1))
  }

  /** A password update with `digest` already computed from the new password. A code with no
      redeemable row fails "not valid" and changes nothing. A matched row is consumed first;
      then a code whose expiration `now` is strictly after fails "already expired", and
      otherwise the user's password becomes `digest`. */
  function Redeem(s: AuthState, email: string, code: string, digest: string, now: int): (o: Outcome)
    ensures o.result == Err(BadRequest(CODE_NOT_VALID)) <==>
      forall k :: 0 <= k < |s.recoveries| ==> !Redeemable(s.recoveries[k], email, code)
    ensures o.result == Err(BadRequest(CODE_NOT_VALID)) ==> o.state == s
    ensures o.result != Err(BadRequest(CODE_NOT_VALID)) ==> exists i :: (0 <= i < |s.recoveries|
      && Redeemable(s.recoveries[i], email, code)
      && o.state.recoveries == s.recoveries[i := s.recoveries[i].(valid := false)])
    ensures o.result == Err(BadRequest(CODE_EXPIRED)) <==> exists i :: (0 <= i < |s.recoveries|
      && Redeemable(s.recoveries[i], email, code) && now > s.recoveries[i].expiration
      && (forall k :: 0 <= k < i ==> !Redeemable(s.recoveries[k], email, code)))
    ensures o.result.Err? ==> o.state.users == s.users
    ensures o.result.Ok? ==> exists j :: (0 <= j < |s.users| && s.users[j].email == email
      && o.state.users == s.users[j := s.users[j].(password := digest)])
    ensures o.state.nextRecoveryId == s.nextRecoveryId
  {
    match FindValidCode(s.recoveries, email, code)
    case None => Outcome(Err(BadRequest(CODE_NOT_VALID)), s)
    case Some(i) =>
      var consumed := s.(recoveries := s.recoveries[i := s.recoveries[i].(valid := false)]);
      if now > s.recoveries[i].expiration then Outcome(Err(BadRequest(CODE_EXPIRED)), consumed)
      else match FindUserByEmail(s.users, email)
        case None => Outcome(Err(Uncaught(MissingUser)), consumed)
        case Some(j) => Outcome(Ok(()), consumed.(users := s.users[j := s.users[j].(password := digest)]))
  }

  lemma RequestPreservesValid(s: AuthState, email: string, code: string, expiration: int)
    requires StateValid(s)
    ensures StateValid(Request(s, email, code, expiration).state)
  {
    var r := Request(s, email, code, expiration).state.recoveries;
    if FindUserByEmail(s.users, email).Some? && FindRecovery(s.recoveries, email).None? {
      assert r == s.recoveries + [RecoverPassword(s.nextRecoveryId, email, code, expiration, true)];
      forall j, k | 0 <= j < k < |r|
        ensures r[j].id != r[k].id && r[j].email != r[k].email
      {
        if k == |s.recoveries| {
          assert r[j] == s.recoveries[j];
        }
      }
    }
  }

  lemma RedeemPreservesValid(s: AuthState, email: string, code: string, digest: string, now: int)
    requires StateValid(s)
    ensures StateValid(Redeem(s, email, code, digest, now).state)
  {
  }

  /** A request keeps the service's one-row-per-email table an upsert: the email's existing
      row keeps its key and takes the new code, expiration and validity; without one, exactly
      one row is appended; rows of other emails are untouched. */
  lemma {:induction false} RequestUpserts(s: AuthState, email: string, code: string, expiration: int)
    requires StateValid(s)
    ensures var o := Request(s, email, code, expiration);
      o.result.Ok? ==>
        && |s.recoveries| <= |o.state.recoveries|
        && (forall k :: 0 <= k < |s.recoveries| && s.recoveries[k].email != email ==>
              o.state.recoveries[k] == s.recoveries[k])
        && (forall k :: 0 <= k < |s.recoveries| && s.recoveries[k].email == email ==>
              o.state.recoveries[k] == RecoverPassword(s.recoveries[k].id, email, code, expiration, true))
        && ((exists k :: 0 <= k < |s.recoveries| && s.recoveries[k].email == email) ==>
              |o.state.recoveries| == |s.recoveries|)
        && ((forall k :: 0 <= k < |s.recoveries| ==> s.recoveries[k].email != email) ==>
              o.state.recoveries == s.recoveries + [RecoverPassword(s.nextRecoveryId, email, code, expiration, true)])
  {
    var o := Request(s, email, code, expiration);
    if o.result.Ok? {
      match FindRecovery(s.recoveries, email)
      case None =>
      case Some(i) =>
        forall k | 0 <= k < |s.recoveries| && s.recoveries[k].email == email
          ensures k == i
        {
          assert s.recoveries[k].email == s.recoveries[i].email;
        }
    }
  }

  /** A code works once: whatever the first redemption answered, redeeming the same email
      and code again fails "not valid". */
  lemma RedeemIsSingleUse(s: AuthState, email: string, code: string, d1: string, d2: string, now1: int, now2: int)
    requires StateValid(s)
    ensures var s1 := Redeem(s, email, code, d1, now1).state;
      Redeem(s1, email, code, d2, now2) == Outcome(Err(BadRequest(CODE_NOT_VALID)), s1)
  {
    var o := Redeem(s, email, code, d1, now1);
    if o.result != Err(BadRequest(CODE_NOT_VALID)) {
      var i :| 0 <= i < |s.recoveries| && Redeemable(s.recoveries[i], email, code)
        && o.state.recoveries == s.recoveries[i := s.recoveries[i].(valid := false)];
      forall k | 0 <= k < |o.state.recoveries|
        ensures !Redeemable(o.state.recoveries[k], email, code)
      {
        if k != i {
          assert o.state.recoveries[k] == s.recoveries[k];
        }
      }
    }
  }

  /** A code redeemed before it expires sets the password, and the new password then
      passes credential validation. */
  lemma FreshCodeSetsPassword(s: AuthState, email: string, code: string, password: string, salt: string,
                              bcrypt: Bcrypt, now: int, i: nat)
    requires StateValid(s) && RecoveriesOwned(s) && Sound(bcrypt)
    requires i < |s.recoveries| && Redeemable(s.recoveries[i], email, code) && now <= s.recoveries[i].expiration
    ensures var o := Redeem(s, email, code, bcrypt.hash(password, salt), now);
      o.result == Ok(()) && ValidateUserPassword(o.state.users, email, password, bcrypt) == Some(email)
  {
    var f := FindValidCode(s.recoveries, email, code).value;
    assert s.recoveries[f].email == s.recoveries[i].email;
    assert f == i;
    var digest := bcrypt.hash(password, salt);
    var j := FindUserByEmail(s.users, email).value;
    var users := s.users[j := s.users[j].(password := digest)];
    assert Redeem(s, email, code, digest, now).state.users == users;
    assert users[j].email == email && bcrypt.compare(password, users[j].password);
    assert EmailsUnique(users);
    ValidateUserPasswordIff(users, email, password, bcrypt);
  }

  /** When every recovery row belongs to a user, a redemption never loses the user. */
  lemma OwnedRedeemFindsUser(s: AuthState, email: string, code: string, digest: string, now: int)
    requires RecoveriesOwned(s)
    ensures Redeem(s, email, code, digest, now).result != Err(Uncaught(MissingUser))
  {
    match FindValidCode(s.recoveries, email, code)
    case None =>
    case Some(i) =>
      assert FindUserByEmail(s.users, s.recoveries[i].email).Some?;
  }

  lemma RequestPreservesOwned(s: AuthState, email: string, code: string, expiration: int)
    requires RecoveriesOwned(s)
    ensures RecoveriesOwned(Request(s, email, code, expiration).state)
  {
    var o := Request(s, email, code, expiration);
    forall k | 0 <= k < |o.state.recoveries|
      ensures FindUserByEmail(o.state.users, o.state.recoveries[k].email).Some?
    {
      if k < |s.recoveries| && o.state.recoveries[k].email != email {
        assert o.state.recoveries[k].email == s.recoveries[k].email;
      }
    }
  }

  lemma RedeemPreservesOwned(s: AuthState, email: string, code: string, digest: string, now: int)
    requires RecoveriesOwned(s)
    ensures RecoveriesOwned(Redeem(s, email, code, digest, now).state)
  {
    var o := Redeem(s, email, code, digest, now);
    forall k | 0 <= k < |o.state.recoveries|
      ensures FindUserByEmail(o.state.users, o.state.recoveries[k].email).Some?
    {
      var e := s.recoveries[k].email;
      assert o.state.recoveries[k].email == e;
      var j := FindUserByEmail(s.users, e).value;
      assert o.state.users[j].email == e;
    }
  }

  /** A new request supersedes the email's earlier code: the earlier code no longer works. */
  lemma ReissueInvalidatesEarlierCode(s: AuthState, email: string, earlier: string, code: string,
                                      expiration: int, digest: string, now: int)
    requires StateValid(s) && earlier != code
    ensures var o := Request(s, email, code, expiration);
      o.result.Ok? ==> Redeem(o.state, email, earlier, digest, now).result == Err(BadRequest(CODE_NOT_VALID))
  {
    var o := Request(s, email, code, expiration);
    if o.result.Ok? {
      RequestUpserts(s, email, code, expiration);
      forall k | 0 <= k < |o.state.recoveries|
        ensures !Redeemable(o.state.recoveries[k], email, earlier)
      {
        if k < |s.recoveries| && s.recoveries[k].email != email {
          assert o.state.recoveries[k] == s.recoveries[k];
        }
      }
    }
  }

  /** The code a request issues is redeemable until its expiration. */
  lemma RequestThenRedeem(s: AuthState, email: string, code: string, expiration: int, digest: string, now: int)
    requires StateValid(s) && now <= expiration
    ensures var o := Request(s, email, code, expiration);
      o.result.Ok? ==> Redeem(o.state, email, code, digest, now).result == Ok(())
  {
    var o := Request(s, email, code, expiration);
    if o.result.Ok? {
      RequestUpserts(s, email, code, expiration);
      var f := FindValidCode(o.state.recoveries, email, code).value;
      assert o.state.recoveries[f].expiration == expiration by {
        if f >= |s.recoveries| {
          assert o.state.recoveries == s.recoveries + [RecoverPassword(s.nextRecoveryId, email, code, expiration, true)];
        }
      }
    }
  }

  /** The payload the access token signs. */
  datatype JwtPayload = JwtPayload(email: string)

  /** The recovery table, written through its repository. */
  class RecoverPasswordRepository {
    var rows: seq<RecoverPassword>
    var nextId: nat

    constructor ()
      ensures rows == [] && nextId == 1
    {
      rows := [];
      nextId := 1;
    }

    /** Writes back the row at position `i`. */
    method Save(row: RecoverPassword, i: nat)
      requires i < |rows|
      modifies this
      ensures rows == old(rows)[i := row] && nextId == old(nextId)
    {
      rows := rows[i := row];
    }

    /** Inserts `row` under a fresh key. */
    method Insert(row: RecoverPassword)
      modifies this
      ensures rows == old(rows) + [row.(id := old(nextId))] && nextId == old(nextId) + 1
    {
      rows := rows + [row.(id := nextId)];
      nextId := nextId + 1;
    }
  }

  class AuthService {
    const userRepository: UserRepository
    const recoverPasswordRepository: RecoverPasswordRepository
    const policy: RecoveryPolicy

    constructor (userRepository: UserRepository, recoverPasswordRepository: RecoverPasswordRepository,
                 policy: RecoveryPolicy)
      requires PolicyValid(policy) && userRepository.Valid()
      requires StateValid(AuthState(userRepository.users, recoverPasswordRepository.rows, recoverPasswordRepository.nextId))
      ensures this.userRepository == userRepository && this.recoverPasswordRepository == recoverPasswordRepository
      ensures this.policy == policy && Valid()
    {
      this.userRepository := userRepository;
      this.recoverPasswordRepository := recoverPasswordRepository;
      this.policy := policy;
    }

    ghost function State(): AuthState
      reads userRepository, recoverPasswordRepository
    {
      AuthState(userRepository.users, recoverPasswordRepository.rows, recoverPasswordRepository.nextId)
    }

    ghost predicate Valid()
      reads userRepository, recoverPasswordRepository
    {
      PolicyValid(policy) && userRepository.Valid() && StateValid(State())
    }

    /** Signs in with an email and password: Unauthorized unless a user with that email exists,
        the password matches its digest and the answered email is not empty (falsy); otherwise
        the token payload carries exactly that email. */
    method SignIn(email: string, password: string, bcrypt: Bcrypt) returns (r: Result<JwtPayload>)
      requires Valid()
      ensures r.Ok? <==> (email != "" &&
        exists u :: u in userRepository.users && u.email == email && bcrypt.compare(password, u.password))
      ensures r.Err? ==> r == Err(Unauthorized)
      ensures r.Ok? ==> r.value == JwtPayload(email)
    {
      var validated := ValidateUserPassword(userRepository.users, email, password, bcrypt);
      ValidateUserPasswordIff(userRepository.users, email, password, bcrypt);
      if validated.None? || validated.value == "" {
        return Err(Unauthorized);
      }
      r := Ok(JwtPayload(validated.value));
    }

    /** Issues a recovery code for `email` at time `now`; `entropy` stands for the random
        source. The sending of the code by email is not part of the model. */
    method RequestPasswordRecovery(email: string, now: int, entropy: nat) returns (r: Result<()>)
      requires Valid()
      modifies recoverPasswordRepository
      ensures Valid()
      ensures Outcome(r, State()) ==
        Request(old(State()), email, IssuedCode(policy, entropy), ExpirationFrom(now, policy.expirationHours))
    {
      ghost var s := State();
      if FindUserByEmail(userRepository.users, email).None? {
        return Err(NotFound);
      }
      var code := IssuedCode(policy, entropy);
      var expiration := ExpirationFrom(now, policy.expirationHours);
      var recover := FindRecovery(recoverPasswordRepository.rows, email);
      if recover.Some? {
        var id := recoverPasswordRepository.rows[recover.value].id;
        recoverPasswordRepository.Save(RecoverPassword(id, email, code, expiration, true), recover.value);
      } else {
        recoverPasswordRepository.Insert(RecoverPassword(0, email, code, expiration, true));
      }
      RequestPreservesValid(s, email, code, expiration);
      r := Ok(());
    }

    /** Sets a new password for `email` by redeeming `code` at time `now`; the new digest is
        made with `salt`. */
    method UpdatePassword(email: string, code: string, password: string, now: int, salt: string, bcrypt: Bcrypt)
      returns (r: Result<()>)
      requires Valid()
      modifies userRepository, recoverPasswordRepository
      ensures Valid()
      ensures Outcome(r, State()) == Redeem(old(State()), email, code, bcrypt.hash(password, salt), now)
    {
      ghost var s := State();
      RedeemPreservesValid(s, email, code, bcrypt.hash(password, salt), now);
      var found := FindValidCode(recoverPasswordRepository.rows, email, code);
      if found.None? {
        return Err(BadRequest(CODE_NOT_VALID));
      }
      var recover := recoverPasswordRepository.rows[found.value].(valid := false);
      recoverPasswordRepository.Save(recover, found.value);
      if now > recover.expiration {
        return Err(BadRequest(CODE_EXPIRED));
      }
      var user := FindUserByEmail(userRepository.users, email);
      if user.None? {
        return Err(Uncaught(MissingUser));
      }
      userRepository.SavePassword(user.value, bcrypt.hash(password, salt));
      r := Ok(());
    }
  }
}
