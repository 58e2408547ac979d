/** The account lifecycle of UserManager over an in-memory document store:
    signup, login, activate, resetPassword, generatePasswordResetRequest,
    getActivationCode and getUser. Each operation is a function from the
    store (and its inputs) to the source's boolean, its message and
    out-parameters, and the new store. */
module Accounts {
  import opened Common
  import Email
  import Password
  import Tokens

  /** The store-assigned ObjectId of a user document. */
  type UserId = nat

  /** Values of a user document's `status` field. */
  const Pending := 0
  const Active := 1

  /** A document of the User collection; the map key is its `email`. */
  datatype User = User(id: UserId, password: string, status: int)

  /** A document of the Activation collection (its timestamp is not modelled). */
  datatype Activation = Activation(code: string, email: string, userId: UserId)

  /** A document of the Reset collection (its timestamp is not modelled). */
  datatype ResetRequest = ResetRequest(code: string, email: string)

  /** The three collections. The User collection's unique index on `email`
      is the map's key; the unique indexes of Activation (`email`,
      `activation_code`) and Reset (`reset_code`) are enforced on insert.
      `nextId` stands for the store's ObjectId generator. */
  datatype Store = Store(
    users: map<string, User>,
    activations: seq<Activation>,
    resets: seq<ResetRequest>,
    nextId: UserId)

  /** The collaborators the source calls into: libsodium's crypto_pwhash_str
      and crypto_pwhash_str_verify, and QCryptographicHash's SHA3-256. */
  datatype Crypto = Crypto(
    hashPassword: seq<Byte> -> string,
    verifyPassword: (string, seq<Byte>) -> bool,
    sha3: seq<Byte> -> Tokens.Digest)

  /** signup's error message: fixed text, possibly followed by the database
      driver's own description of a duplicate-key error in `collection`. */
  datatype SignupMessage = Text(text: string) | TextAndDriverDetail(text: string, collection: string)

  /** The result of a check that either passes or fails with a message. */
  datatype Outcome = Pass | Fail(message: string)

  const DuplicateEmailText := "User with the same email exists"

  /** What every operation keeps: no user disappears or changes id, no
      account goes back to Pending, and no activation or reset record is
      dropped or altered. */
  predicate Evolves(st: Store, st': Store)
  {
    && (forall e :: e in st.users ==>
          && e in st'.users
          && st'.users[e].id == st.users[e].id
          && (st.users[e].status != Pending ==> st'.users[e].status != Pending))
    && st.activations <= st'.activations
    && st.resets <= st'.resets
    && st.nextId <= st'.nextId
  }

  /** The store's consistency: the unique indexes hold, every activation
      record points at its user, ids are fresh and distinct, and every
      status is Pending or Active. */
  predicate Valid(st: Store)
  {
    && (forall i, j :: 0 <= i < j < |st.activations| ==>
          st.activations[i].code != st.activations[j].code
          && st.activations[i].email != st.activations[j].email)
    && (forall i, j :: 0 <= i < j < |st.resets| ==> st.resets[i].code != st.resets[j].code)
    && (forall i :: 0 <= i < |st.activations| ==>
          st.activations[i].email in st.users
          && st.users[st.activations[i].email].id == st.activations[i].userId)
    && (forall e :: e in st.users ==>
          st.users[e].id < st.nextId
          && (st.users[e].status == Pending || st.users[e].status == Active))
    && (forall e1, e2 :: e1 in st.users && e2 in st.users && e1 != e2 ==>
          st.users[e1].id != st.users[e2].id)
  }

  /** An insert into Activation violates one of its unique indexes. */
  predicate ActivationClashes(activations: seq<Activation>, a: Activation)
  {
    FirstIndex(activations, (x: Activation) => x.email == a.email || x.code == a.code).Some?
  }

  // ---------------------------------------------------------------- signup

  datatype SignupResult = SignupResult(
    ok: bool,
    message: SignupMessage,
    activationCode: Option<string>,
    store: Store)

  /** The user document signup inserts. */
  function NewUser(st: Store, password: seq<Byte>, crypto: Crypto): User
  {
    User(st.nextId, crypto.hashPassword(password), Pending)
  }

  /** UserManager::signup: validate, insert a Pending user, then insert an
      activation record for it. The two inserts are not atomic: when the
      second one hits a unique index the new user stays. */
  function Signup(st: Store, email: string, password: seq<Byte>, policy: Password.Policy,
                  crypto: Crypto, random: Tokens.RandomBlock): (r: SignupResult)
    ensures r.ok <==>
      && Email.IsValidEmail(email)
      && Password.Validate(password, policy) == Password.Accepted
      && email !in st.users
      && forall i :: 0 <= i < |st.activations| ==>
           st.activations[i].email != email
           && st.activations[i].code != Tokens.ActivationCode(email, random, crypto.sha3)
    ensures r.ok ==> r.activationCode.Some? && r.message == Text("")
    ensures r.ok ==> r.store == st.(
      users := st.users[email := NewUser(st, password, crypto)],
      activations := st.activations + [Activation(r.activationCode.value, email, st.nextId)],
      nextId := st.nextId + 1)
    ensures !r.ok ==> r.store.activations == st.activations && r.store.resets == st.resets
    ensures !r.ok && r.store != st ==>
      && email !in st.users
      && r.store.users == st.users[email := NewUser(st, password, crypto)]
    ensures r.activationCode.Some? ==> r.activationCode.value == Tokens.ActivationCode(email, random, crypto.sha3)
  {
    if !Email.IsValidEmail(email) then
      SignupResult(false, Text("Ill-formed email address"), None, st)
    else match Password.Validate(password, policy)
      case Rejected(problem) =>
        SignupResult(false, Text("Ill-formed password:" + Password.Message(problem)), None, st)
      case Accepted =>
        if email in st.users then
          SignupResult(false, TextAndDriverDetail(DuplicateEmailText, "User"), None, st)
        else
          var withUser := st.(users := st.users[email := NewUser(st, password, crypto)],
                              nextId := st.nextId + 1);
          var code := Tokens.ActivationCode(email, random, crypto.sha3);
          var record := Activation(code, email, st.nextId);
          if ActivationClashes(st.activations, record) then
            SignupResult(false, TextAndDriverDetail(DuplicateEmailText, "Activation"), Some(code), withUser)
          else
            SignupResult(true, Text(""), Some(code), withUser.(activations := st.activations + [record]))
  }

  // ----------------------------------------------------------------- login

  datatype LoginResult = LoginResult(ok: bool, message: string, userId: Option<UserId>)

  /** UserManager::login. The store is only read. The user id is written
      out as soon as the user is found, before the status and password
      checks. */
  function Login(st: Store, email: string, password: seq<Byte>, policy: Password.Policy,
                 crypto: Crypto): (r: LoginResult)
    ensures r.ok <==>
      && Email.IsValidEmail(email)
      && Password.Validate(password, policy) == Password.Accepted
      && email in st.users
      && st.users[email].status != Pending
      && crypto.verifyPassword(st.users[email].password, password)
    ensures r.ok ==> r.message == ""
    ensures r.userId.Some? <==>
      Email.IsValidEmail(email) && Password.Validate(password, policy) == Password.Accepted
      && email in st.users
    ensures r.userId.Some? ==> r.userId.value == st.users[email].id
  {
    if !Email.IsValidEmail(email) then
      LoginResult(false, "Ill-formed email address", None)
    else match Password.Validate(password, policy)
      case Rejected(problem) =>
        LoginResult(false, "Ill-formed password:" + Password.Message(problem), None)
      case Accepted =>
        if email !in st.users then
          LoginResult(false, "No user registered with this email.", None)
        else
          var user := st.users[email];
          if user.status == Pending then
            LoginResult(false, "User account hasn't been activated yet.", Some(user.id))
          else if !crypto.verifyPassword(user.password, password) then
            LoginResult(false, "Wrong password.", Some(user.id))
          else
            LoginResult(true, "", Some(user.id))
  }

  // -------------------------------------------------------------- activate

  datatype ActivateResult = ActivateResult(ok: bool, message: string, email: Option<string>, store: Store)

  /** The `$set` of one field of the user with this email; an update that
      matches no document leaves the collection as it is. */
  function SetStatus(users: map<string, User>, email: string, status: int): (r: map<string, User>)
    ensures r.Keys == users.Keys
    ensures forall e :: e in users && e != email ==> r[e] == users[e]
    ensures email in users ==> r[email] == users[email].(status := status)
  {
    if email in users then users[email := users[email].(status := status)] else users
  }

  function SetPassword(users: map<string, User>, email: string, hash: string): (r: map<string, User>)
    ensures r.Keys == users.Keys
    ensures forall e :: e in users && e != email ==> r[e] == users[e]
    ensures email in users ==> r[email] == users[email].(password := hash)
  {
    if email in users then users[email := users[email].(password := hash)] else users
  }

  /** The activation record find_one returns for this code, if any. */
  function FindActivation(activations: seq<Activation>, code: string): (r: Option<nat>)
    ensures r.Some? ==> r.value < |activations| && activations[r.value].code == code
    ensures r.None? <==> forall i :: 0 <= i < |activations| ==> activations[i].code != code
  {
    FirstIndex(activations, (a: Activation) => a.code == code)
  }

  /** UserManager::activate: look the code up (as a C string), then set the
      status of the user with the record's email to Active. The record is
      kept. */
  function Activate(st: Store, activationCode: seq<Byte>): (r: ActivateResult)
    ensures r.ok <==> exists i :: 0 <= i < |st.activations| && st.activations[i].code == BytesBeforeNul(activationCode)
    ensures !r.ok ==> r.store == st && r.email.None?
    ensures r.ok ==> r.email.Some?
    ensures r.ok ==>
      exists i :: 0 <= i < |st.activations| && st.activations[i].code == BytesBeforeNul(activationCode)
                  && st.activations[i].email == r.email.value
    ensures r.ok ==> r.store == st.(users := SetStatus(st.users, r.email.value, Active))
  {
    var key := BytesBeforeNul(activationCode);
    match FindActivation(st.activations, key)
    case None => ActivateResult(false, "Failed to find activation code.", None, st)
    case Some(i) =>
      var email := st.activations[i].email;
      ActivateResult(true, "Success!", Some(email), st.(users := SetStatus(st.users, email, Active)))
  }

  // --------------------------------------------------------- resetPassword

  datatype ResetResult = ResetResult(ok: bool, message: string, store: Store)

  /** The reset record find_one returns for this code, if any. */
  function FindReset(resets: seq<ResetRequest>, code: string): (r: Option<nat>)
    ensures r.Some? ==> r.value < |resets| && resets[r.value].code == code
    ensures r.Some? ==> forall j :: 0 <= j < r.value ==> resets[j].code != code
    ensures r.None? <==> forall i :: 0 <= i < |resets| ==> resets[i].code != code
  {
    FirstIndex(resets, (q: ResetRequest) => q.code == code)
  }

  /** The reset record found for `code` was issued for `email`. */
  predicate ResetCodeIsFor(st: Store, code: string, email: string)
  {
    exists i :: 0 <= i < |st.resets| && st.resets[i].code == code && st.resets[i].email == email
      && forall j :: 0 <= j < i ==> st.resets[j].code != code
  }

  /** What entitles the caller to set a new password: the old password
      (which must itself pass the policy and verify against the stored
      hash), or a reset code whose record names this email. */
  predicate MayReset(st: Store, email: string, proof: seq<Byte>, useOldPassword: bool,
                     policy: Password.Policy, crypto: Crypto)
  {
    if useOldPassword then
      && Password.Validate(proof, policy) == Password.Accepted
      && email in st.users
      && crypto.verifyPassword(st.users[email].password, proof)
    else
      ResetCodeIsFor(st, BytesBeforeNul(proof), email)
  }

  /** The authorisation half of resetPassword, with its messages. */
  function AuthorizeReset(st: Store, email: string, proof: seq<Byte>, useOldPassword: bool,
                          policy: Password.Policy, crypto: Crypto): (r: Outcome)
    ensures r == Pass <==> MayReset(st, email, proof, useOldPassword, policy, crypto)
  {
    if useOldPassword then
      match Password.Validate(proof, policy)
      case Rejected(problem) => Fail(Password.Message(problem))
      case Accepted =>
        if email !in st.users then Fail("Unable to find a user with email: " + email)
        else if !crypto.verifyPassword(st.users[email].password, proof) then Fail("Not able to verify old password.")
        else Pass
    else
      match FindReset(st.resets, BytesBeforeNul(proof))
      case None => Fail("Unable to find password reset code.")
      case Some(i) =>
        if st.resets[i].email != email then Fail("Email provided doesn't match the password reset code.")
        else Pass
  }

  /** UserManager::resetPassword. On success only the password hash of the
      user with this email changes; if there is no such user the update
      matches nothing and the call still reports success. The account
      status is never consulted and no code is used up. */
  function ResetPassword(st: Store, email: string, newPassword: seq<Byte>, proof: seq<Byte>,
                         useOldPassword: bool, policy: Password.Policy, crypto: Crypto): (r: ResetResult)
    ensures r.ok <==>
      && Email.IsValidEmail(email)
      && MayReset(st, email, proof, useOldPassword, policy, crypto)
      && Password.Validate(newPassword, policy) == Password.Accepted
    ensures r.ok ==> r.message == "Success!"
    ensures r.ok ==> r.store == st.(users := SetPassword(st.users, email, crypto.hashPassword(newPassword)))
    ensures !r.ok ==> r.store == st
  {
    if !Email.IsValidEmail(email) then
      ResetResult(false, "Email provided is not valid.", st)
    else match AuthorizeReset(st, email, proof, useOldPassword, policy, crypto)
      case Fail(message) => ResetResult(false, message, st)
      case Pass =>
        match Password.Validate(newPassword, policy)
        case Rejected(problem) => ResetResult(false, Password.Message(problem), st)
        case Accepted =>
          var hash := crypto.hashPassword(newPassword);
          ResetResult(true, "Success!", st.(users := SetPassword(st.users, email, hash)))
  }

  // ------------------------------------------ generatePasswordResetRequest

  datatype ResetRequestResult = ResetRequestResult(ok: bool, message: string, resetCode: string, store: Store)

  /** UserManager::generatePasswordResetRequest: the email is not validated
      and need not belong to a user; the only unique index is on the code,
      so one email may hold many reset records. */
  function GeneratePasswordResetRequest(st: Store, email: string, random: Tokens.RandomBlock,
                                        crypto: Crypto): (r: ResetRequestResult)
    ensures r.resetCode == Tokens.PasswordResetCode(email, random, crypto.sha3)
    ensures r.ok <==> forall i :: 0 <= i < |st.resets| ==> st.resets[i].code != r.resetCode
    ensures r.ok ==> r.store == st.(resets := st.resets + [ResetRequest(r.resetCode, TextBeforeNul(email))])
    ensures !r.ok ==> r.store == st && r.message == "Generic database error."
  {
    var code := Tokens.PasswordResetCode(email, random, crypto.sha3);
    if FindReset(st.resets, code).Some? then
      ResetRequestResult(false, "Generic database error.", code, st)
    else
      ResetRequestResult(true, "Success!", code, st.(resets := st.resets + [ResetRequest(code, TextBeforeNul(email))]))
  }

  // --------------------------------------------------- read-only lookups

  /** errorMessage is None where the source leaves it untouched. */
  datatype CodeLookup = CodeLookup(ok: bool, message: Option<string>, activationCode: Option<string>)

  /** UserManager::getActivationCode: the code of the activation record
      stored for this email. */
  function GetActivationCode(st: Store, email: string): (r: CodeLookup)
    ensures r.ok <==>
      && Email.IsValidEmail(email)
      && exists i :: 0 <= i < |st.activations| && st.activations[i].email == email
    ensures r.ok ==> r.activationCode.Some?
    ensures r.ok ==>
      exists i :: 0 <= i < |st.activations| && st.activations[i].email == email
                  && st.activations[i].code == r.activationCode.value
    ensures !Email.IsValidEmail(email) ==> r.message.None?
  {
    if !Email.IsValidEmail(email) then CodeLookup(false, None, None)
    else match FirstIndex(st.activations, (a: Activation) => a.email == email)
      case None => CodeLookup(false, Some("No activation code found for this email!"), None)
      case Some(i) => CodeLookup(true, Some("Success!"), Some(st.activations[i].code))
  }

  /** UserManager::getUser: the `status` field of the user with this email,
      or None where the source returns false. */
  function GetUser(st: Store, email: string): (status: Option<int>)
    ensures status.Some? <==> Email.IsValidEmail(email) && email in st.users
    ensures status.Some? ==> status.value == st.users[email].status
  {
    if Email.IsValidEmail(email) && email in st.users then Some(st.users[email].status) else None
  }
}
