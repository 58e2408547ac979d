/** Properties that relate several calls of the account lifecycle: the
    store invariants every operation keeps, that no account goes back to
    Pending, idempotence of activation, reuse of codes, and the
    signup / activate / login and reset / login round trips. */
module AccountProperties {
  import opened Common
  import Email
  import Password
  import Tokens
  import opened Accounts

  // ---------------------------------------------------------------- signup

  /** A second signup for a registered email fails and leaves the store
      exactly as it was, whatever password or randomness it brings. */
  lemma SignupRejectsExistingEmail(st: Store, email: string, password: seq<Byte>,
                                   policy: Password.Policy, crypto: Crypto, random: Tokens.RandomBlock)
    requires email in st.users
    ensures !Signup(st, email, password, policy, crypto, random).ok
    ensures Signup(st, email, password, policy, crypto, random).store == st
    ensures Email.IsValidEmail(email) && Password.Validate(password, policy) == Password.Accepted ==>
      Signup(st, email, password, policy, crypto, random).message == TextAndDriverDetail(DuplicateEmailText, "User")
  {
  }

  /** When the activation insert fails after the user insert succeeded,
      nothing is rolled back: the Pending user stays, with no activation
      record. */
  lemma SignupKeepsUserWhenActivationInsertFails(st: Store, email: string, password: seq<Byte>,
                                                 policy: Password.Policy, crypto: Crypto,
                                                 random: Tokens.RandomBlock, i: nat)
    requires Email.IsValidEmail(email)
    requires Password.Validate(password, policy) == Password.Accepted
    requires email !in st.users
    requires i < |st.activations|
    requires st.activations[i].code == Tokens.ActivationCode(email, random, crypto.sha3)
    ensures !Signup(st, email, password, policy, crypto, random).ok
    ensures Signup(st, email, password, policy, crypto, random).store ==
      st.(users := st.users[email := NewUser(st, password, crypto)], nextId := st.nextId + 1)
  {
    var r := Signup(st, email, password, policy, crypto, random);
    var record := Activation(Tokens.ActivationCode(email, random, crypto.sha3), email, st.nextId);
    assert ActivationClashes(st.activations, record) by {
      assert !(forall j :: 0 <= j < |st.activations| ==>
                 !(st.activations[j].email == record.email || st.activations[j].code == record.code));
    }
  }

  /** After a successful signup the account reads as Pending and
      getActivationCode hands back the code signup returned. */
  lemma SignupThenLookups(st: Store, email: string, password: seq<Byte>, policy: Password.Policy,
                          crypto: Crypto, random: Tokens.RandomBlock)
    requires Signup(st, email, password, policy, crypto, random).ok
    ensures GetUser(Signup(st, email, password, policy, crypto, random).store, email) == Some(Pending)
    ensures GetActivationCode(Signup(st, email, password, policy, crypto, random).store, email).activationCode ==
      Signup(st, email, password, policy, crypto, random).activationCode
  {
    var r := Signup(st, email, password, policy, crypto, random);
    var acts := r.store.activations;
    var lookup := GetActivationCode(r.store, email);
    assert acts[|acts| - 1].email == email;
    assert lookup.ok;
    var k :| 0 <= k < |acts| && acts[k].email == email && acts[k].code == lookup.activationCode.value;
  }

  // ----------------------------------------------------------------- login

  /** login reports a Pending account before it looks at the password: the
      outcome does not depend on the password verifier at all. */
  lemma LoginChecksStatusBeforePassword(st: Store, email: string, password: seq<Byte>,
                                        policy: Password.Policy, crypto: Crypto)
    requires Email.IsValidEmail(email)
    requires Password.Validate(password, policy) == Password.Accepted
    requires email in st.users && st.users[email].status == Pending
    ensures Login(st, email, password, policy, crypto) ==
      LoginResult(false, "User account hasn't been activated yet.", Some(st.users[email].id))
  {
  }

  /** An activated account with a password the verifier rejects gets the
      wrong-password message, and the user id is still written out. */
  lemma LoginWrongPassword(st: Store, email: string, password: seq<Byte>,
                           policy: Password.Policy, crypto: Crypto)
    requires Email.IsValidEmail(email)
    requires Password.Validate(password, policy) == Password.Accepted
    requires email in st.users && st.users[email].status != Pending
    requires !crypto.verifyPassword(st.users[email].password, password)
    ensures Login(st, email, password, policy, crypto) ==
      LoginResult(false, "Wrong password.", Some(st.users[email].id))
  {
  }

  /** An unregistered email gets its own message and no user id. */
  lemma LoginUnknownEmail(st: Store, email: string, password: seq<Byte>,
                          policy: Password.Policy, crypto: Crypto)
    requires Email.IsValidEmail(email)
    requires Password.Validate(password, policy) == Password.Accepted
    requires email !in st.users
    ensures Login(st, email, password, policy, crypto) ==
      LoginResult(false, "No user registered with this email.", None)
  {
  }

  // -------------------------------------------------------------- activate

  /** Activating with the same code again gives the same answer and leaves
      the store as the first call left it. */
  lemma ActivateIsIdempotent(st: Store, code: seq<Byte>)
    ensures Activate(Activate(st, code).store, code) == Activate(st, code)
  {
    var r := Activate(st, code);
    if r.ok {
      var e := r.email.value;
      assert r.store.users == SetStatus(r.store.users, e, Active);
    }
  }

  /** The whole registration flow: a fresh account cannot log in, its code
      activates it (and names its email), and afterwards the same password
      logs in, provided the password verifier accepts the hash made from it. */
  lemma SignupActivateLogin(st: Store, email: string, password: seq<Byte>, policy: Password.Policy,
                            crypto: Crypto, random: Tokens.RandomBlock)
    requires Signup(st, email, password, policy, crypto, random).ok
    requires crypto.verifyPassword(crypto.hashPassword(password), password)
    ensures !Login(Signup(st, email, password, policy, crypto, random).store, email, password, policy, crypto).ok
    ensures
      var s := Signup(st, email, password, policy, crypto, random);
      var a := Activate(s.store, Latin1(s.activationCode.value));
      && a.ok
      && a.email == Some(email)
      && Login(a.store, email, password, policy, crypto).ok
  {
    var s := Signup(st, email, password, policy, crypto, random);
    var code := s.activationCode.value;
    var acts := s.store.activations;
    assert IsLatin1Text(code) && '\0' !in code by {
      forall i | 0 <= i < |code| ensures code[i] as int < 0x100 && code[i] != '\0' {
        assert Tokens.IsLowerHexChar(code[i]);
      }
    }
    BytesBeforeNulOfLatin1(code);
    var found := FindActivation(acts, code);
    assert acts[|acts| - 1].code == code;
    assert found == Some(|acts| - 1);
  }

  // --------------------------------------------------------- resetPassword

  /** Neither the reset record nor the account status is consulted after a
      successful reset by code: the same code works again, for any other
      compliant password. */
  lemma ResetCodeIsReusable(st: Store, email: string, newPassword: seq<Byte>, code: seq<Byte>,
                            policy: Password.Policy, crypto: Crypto, laterPassword: seq<Byte>)
    requires ResetPassword(st, email, newPassword, code, false, policy, crypto).ok
    requires Password.Validate(laterPassword, policy) == Password.Accepted
    ensures ResetPassword(ResetPassword(st, email, newPassword, code, false, policy, crypto).store,
                          email, laterPassword, code, false, policy, crypto).ok
  {
  }

  /** A reset authorised by a code succeeds for a Pending account too: the
      status is never checked. */
  lemma ResetIgnoresStatus(st: Store, email: string, newPassword: seq<Byte>, code: seq<Byte>,
                           policy: Password.Policy, crypto: Crypto)
    requires Email.IsValidEmail(email)
    requires email in st.users && st.users[email].status == Pending
    requires ResetCodeIsFor(st, BytesBeforeNul(code), email)
    requires Password.Validate(newPassword, policy) == Password.Accepted
    ensures ResetPassword(st, email, newPassword, code, false, policy, crypto).ok
    ensures ResetPassword(st, email, newPassword, code, false, policy, crypto).store.users[email] ==
      st.users[email].(password := crypto.hashPassword(newPassword))
  {
  }

  /** A wrong old password is refused and changes nothing. */
  lemma ResetWithWrongOldPasswordFails(st: Store, email: string, newPassword: seq<Byte>,
                                       oldPassword: seq<Byte>, policy: Password.Policy, crypto: Crypto)
    requires email in st.users
    requires !crypto.verifyPassword(st.users[email].password, oldPassword)
    ensures !ResetPassword(st, email, newPassword, oldPassword, true, policy, crypto).ok
    ensures ResetPassword(st, email, newPassword, oldPassword, true, policy, crypto).store == st
    ensures Email.IsValidEmail(email) && Password.Validate(oldPassword, policy) == Password.Accepted ==>
      ResetPassword(st, email, newPassword, oldPassword, true, policy, crypto).message ==
        "Not able to verify old password."
  {
  }

  /** A reset code issued for another email is refused and changes nothing. */
  lemma ResetWithForeignCodeFails(st: Store, email: string, newPassword: seq<Byte>, code: seq<Byte>,
                                  policy: Password.Policy, crypto: Crypto, i: nat)
    requires Valid(st)
    requires i < |st.resets| && st.resets[i].code == BytesBeforeNul(code)
    requires st.resets[i].email != email
    ensures !ResetPassword(st, email, newPassword, code, false, policy, crypto).ok
    ensures ResetPassword(st, email, newPassword, code, false, policy, crypto).store == st
    ensures Email.IsValidEmail(email) ==>
      ResetPassword(st, email, newPassword, code, false, policy, crypto).message ==
        "Email provided doesn't match the password reset code."
  {
    var found := FindReset(st.resets, BytesBeforeNul(code));
    assert found.Some?;
    assert found.value == i;
    assert AuthorizeReset(st, email, code, false, policy, crypto) ==
      Fail("Email provided doesn't match the password reset code.");
  }

  /** After a successful reset an activated user logs in with the new
      password, and an old password the verifier rejects for the new hash
      no longer works. */
  lemma ResetThenLogin(st: Store, email: string, newPassword: seq<Byte>, proof: seq<Byte>,
                       useOldPassword: bool, policy: Password.Policy, crypto: Crypto, oldPassword: seq<Byte>)
    requires ResetPassword(st, email, newPassword, proof, useOldPassword, policy, crypto).ok
    requires email in st.users && st.users[email].status == Active
    requires crypto.verifyPassword(crypto.hashPassword(newPassword), newPassword)
    requires !crypto.verifyPassword(crypto.hashPassword(newPassword), oldPassword)
    ensures Login(ResetPassword(st, email, newPassword, proof, useOldPassword, policy, crypto).store,
                  email, newPassword, policy, crypto).ok
    ensures !Login(ResetPassword(st, email, newPassword, proof, useOldPassword, policy, crypto).store,
                   email, oldPassword, policy, crypto).ok
  {
  }

  /** The code a reset request returns authorises a reset for that email. */
  lemma ResetRequestThenReset(st: Store, email: string, random: Tokens.RandomBlock, crypto: Crypto,
                              newPassword: seq<Byte>, policy: Password.Policy)
    requires Email.IsValidEmail(email)
    requires GeneratePasswordResetRequest(st, email, random, crypto).ok
    requires Password.Validate(newPassword, policy) == Password.Accepted
    ensures
      var q := GeneratePasswordResetRequest(st, email, random, crypto);
      ResetPassword(q.store, email, newPassword, Latin1(q.resetCode), false, policy, crypto).ok
  {
    var q := GeneratePasswordResetRequest(st, email, random, crypto);
    var code := q.resetCode;
    Email.ValidEmailIsPlainAscii(email);
    assert IsLatin1Text(code) && '\0' !in code by {
      forall i | 0 <= i < |code| ensures code[i] as int < 0x100 && code[i] != '\0' {
        assert Tokens.IsLowerHexChar(code[i]);
      }
    }
    BytesBeforeNulOfLatin1(code);
    var k := |q.store.resets| - 1;
    assert q.store.resets[k] == ResetRequest(code, email);
    assert ResetCodeIsFor(q.store, code, email) by {
      forall j | 0 <= j < k ensures q.store.resets[j].code != code {
        assert q.store.resets[j] == st.resets[j];
      }
    }
  }

  // ------------------------------------------------------------ invariants

  /** The store-changing calls the request layer can make. */
  datatype Request =
    | SignupCall(email: string, password: seq<Byte>, policy: Password.Policy, crypto: Crypto,
                 random: Tokens.RandomBlock)
    | ActivateCall(code: seq<Byte>)
    | ResetPasswordCall(email: string, newPassword: seq<Byte>, proof: seq<Byte>, useOldPassword: bool,
                        policy: Password.Policy, crypto: Crypto)
    | ResetRequestCall(email: string, random: Tokens.RandomBlock, crypto: Crypto)

  function Apply(st: Store, req: Request): Store
  {
    match req
    case SignupCall(email, password, policy, crypto, random) =>
      Signup(st, email, password, policy, crypto, random).store
    case ActivateCall(code) => Activate(st, code).store
    case ResetPasswordCall(email, newPassword, proof, useOld, policy, crypto) =>
      ResetPassword(st, email, newPassword, proof, useOld, policy, crypto).store
    case ResetRequestCall(email, random, crypto) =>
      GeneratePasswordResetRequest(st, email, random, crypto).store
  }

  /** The store after a sequence of requests, one after another. */
  function Run(st: Store, reqs: seq<Request>): Store
    decreases |reqs|
  {
    if |reqs| == 0 then st else Run(Apply(st, reqs[0]), reqs[1..])
  }

  lemma EmptyStoreIsValid()
    ensures Valid(Store(map[], [], [], 0))
  {
  }

  /** Starting from empty collections, every sequence of requests leaves
      the store consistent. */
  lemma RunFromEmptyIsValid(reqs: seq<Request>)
    ensures Valid(Run(Store(map[], [], [], 0), reqs))
  {
    EmptyStoreIsValid();
    RunPreservesValid(Store(map[], [], [], 0), reqs);
  }

  lemma SignupPreservesValid(st: Store, email: string, password: seq<Byte>, policy: Password.Policy,
                             crypto: Crypto, random: Tokens.RandomBlock)
    requires Valid(st)
    ensures Valid(Signup(st, email, password, policy, crypto, random).store)
    ensures Evolves(st, Signup(st, email, password, policy, crypto, random).store)
  {
    var r := Signup(st, email, password, policy, crypto, random);
    if r.store != st {
      var withUser := st.(users := st.users[email := NewUser(st, password, crypto)], nextId := st.nextId + 1);
      AddUserPreservesValid(st, email, NewUser(st, password, crypto));
      if r.ok {
        var record := Activation(r.activationCode.value, email, st.nextId);
        assert r.store == withUser.(activations := withUser.activations + [record]);
        AddActivationPreservesValid(withUser, record);
      } else {
        assert r.store == withUser;
      }
    }
  }

  /** Inserting a user under a fresh email with the next id keeps the store
      consistent. */
  lemma AddUserPreservesValid(st: Store, email: string, u: User)
    requires Valid(st)
    requires email !in st.users
    requires u.id == st.nextId && u.status == Pending
    ensures Valid(st.(users := st.users[email := u], nextId := st.nextId + 1))
    ensures Evolves(st, st.(users := st.users[email := u], nextId := st.nextId + 1))
  {
    var st' := st.(users := st.users[email := u], nextId := st.nextId + 1);
    forall i | 0 <= i < |st'.activations|
      ensures st'.activations[i].email in st'.users
      ensures st'.users[st'.activations[i].email].id == st'.activations[i].userId
    {
      assert st.activations[i].email in st.users;
    }
  }

  /** Appending an activation record that clashes with no other record and
      points at its user keeps the store consistent. */
  lemma AddActivationPreservesValid(st: Store, a: Activation)
    requires Valid(st)
    requires a.email in st.users && st.users[a.email].id == a.userId
    requires forall i :: 0 <= i < |st.activations| ==>
      st.activations[i].email != a.email && st.activations[i].code != a.code
    ensures Valid(st.(activations := st.activations + [a]))
    ensures Evolves(st, st.(activations := st.activations + [a]))
  {
    var acts := st.activations + [a];
    forall i, j | 0 <= i < j < |acts|
      ensures acts[i].code != acts[j].code && acts[i].email != acts[j].email
    {
      if j < |st.activations| {
        assert acts[i] == st.activations[i] && acts[j] == st.activations[j];
      } else {
        assert acts[i] == st.activations[i] && acts[j] == a;
      }
    }
    forall i | 0 <= i < |acts|
      ensures acts[i].email in st.users && st.users[acts[i].email].id == acts[i].userId
    {
      if i < |st.activations| {
        assert acts[i] == st.activations[i];
      }
    }
  }

  /** Changing one user's password hash keeps the store consistent. */
  lemma SetPasswordPreservesValid(st: Store, email: string, hash: string)
    requires Valid(st)
    ensures Valid(st.(users := SetPassword(st.users, email, hash)))
    ensures Evolves(st, st.(users := SetPassword(st.users, email, hash)))
  {
    var st' := st.(users := SetPassword(st.users, email, hash));
    forall e | e in st'.users
      ensures st'.users[e].id == st.users[e].id && st'.users[e].status == st.users[e].status
    {
    }
    forall i | 0 <= i < |st'.activations|
      ensures st'.activations[i].email in st'.users
      ensures st'.users[st'.activations[i].email].id == st'.activations[i].userId
    {
      assert st.activations[i].email in st.users;
    }
  }

  lemma ActivatePreservesValid(st: Store, code: seq<Byte>)
    requires Valid(st)
    ensures Valid(Activate(st, code).store)
    ensures Evolves(st, Activate(st, code).store)
  {
  }

  lemma ResetPasswordPreservesValid(st: Store, email: string, newPassword: seq<Byte>, proof: seq<Byte>,
                                    useOldPassword: bool, policy: Password.Policy, crypto: Crypto)
    requires Valid(st)
    ensures Valid(ResetPassword(st, email, newPassword, proof, useOldPassword, policy, crypto).store)
    ensures Evolves(st, ResetPassword(st, email, newPassword, proof, useOldPassword, policy, crypto).store)
  {
    SetPasswordPreservesValid(st, email, crypto.hashPassword(newPassword));
  }

  lemma ResetRequestPreservesValid(st: Store, email: string, random: Tokens.RandomBlock, crypto: Crypto)
    requires Valid(st)
    ensures Valid(GeneratePasswordResetRequest(st, email, random, crypto).store)
    ensures Evolves(st, GeneratePasswordResetRequest(st, email, random, crypto).store)
  {
  }

  lemma ApplyPreservesValid(st: Store, req: Request)
    requires Valid(st)
    ensures Valid(Apply(st, req)) && Evolves(st, Apply(st, req))
  {
    match req
    case SignupCall(email, password, policy, crypto, random) =>
      SignupPreservesValid(st, email, password, policy, crypto, random);
    case ActivateCall(code) => ActivatePreservesValid(st, code);
    case ResetPasswordCall(email, newPassword, proof, useOld, policy, crypto) =>
      ResetPasswordPreservesValid(st, email, newPassword, proof, useOld, policy, crypto);
    case ResetRequestCall(email, random, crypto) =>
      ResetRequestPreservesValid(st, email, random, crypto);
  }

  lemma EvolvesTransitive(a: Store, b: Store, c: Store)
    requires Evolves(a, b) && Evolves(b, c)
    ensures Evolves(a, c)
  {
  }

  /** Along any sequence of requests the unique indexes keep holding, no
      user disappears, and no activated account ever goes back to Pending. */
  lemma {:induction false} RunPreservesValid(st: Store, reqs: seq<Request>)
    requires Valid(st)
    ensures Valid(Run(st, reqs))
    ensures Evolves(st, Run(st, reqs))
    decreases |reqs|
  {
    if |reqs| > 0 {
      var next := Apply(st, reqs[0]);
      ApplyPreservesValid(st, reqs[0]);
      RunPreservesValid(next, reqs[1..]);
      EvolvesTransitive(st, next, Run(next, reqs[1..]));
    }
  }
}
