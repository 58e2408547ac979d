# Swiftly account manager in Dafny

This project models `UserManager` from the Swiftly web framework: the part
that registers users, activates their accounts, logs them in and resets
their passwords against a MongoDB document store. The model has three parts.

- **Input validation** (`email.dfy`, `password.dfy`). `isValidEmail` is a
  length gate followed by a case-insensitive regular expression.
  `isValidePassword` checks length bounds, then a character whitelist, then
  runs a counting scan that exits early. On failure it reports one unmet
  requirement, chosen in the fixed order upper case, special, digit, lower
  case.
- **Token generation** (`tokens.dfy`). An activation or reset code is built
  in four steps. A 256-byte buffer starts with up to 32 Latin-1 bytes of
  the email. The rest of the buffer is random. The buffer is hashed with
  SHA3-256, and the digest is hex-encoded.
- **Account lifecycle** (`accounts.dfy`, `account_properties.dfy`). The
  three collections `User`, `Activation` and `Reset` are kept in memory.
  Each operation maps a store and its inputs to the source's boolean, its
  message, its out-parameters and, for the operations that write, the new
  store. `login`, `getActivationCode` and `getUser` return no store, so
  they cannot change one.

`common.dfy` holds shared pieces: an option type, bytes, Latin-1
conversion, C-string truncation, first-match search and decimal rendering.

Collaborators the model cannot see are parameters:

- libsodium's `crypto_pwhash_str` and `crypto_pwhash_str_verify`, and
  QCryptographicHash's SHA3-256, are the function fields of
  `Accounts.Crypto`.
- `randombytes_buf` is a 256-byte `Tokens.RandomBlock`. The token uses its
  first `256 - min(|email|, 32)` bytes.
- MongoDB's ObjectId generator is the store's `nextId` counter.

Notable behaviour of the code that the model keeps:

- The password whitelist `[A-Z0-9._%+-@#!$&*]` contains the range `+-@`
  (0x2B to 0x40). It therefore also accepts `, / : ; < = > ?`, and the
  case-insensitive flag adds a-z. The error message lists fewer characters
  than the class accepts.
- The two inserts in signup are not atomic. If the activation insert fails,
  the new Pending user stays.
- `activate` keeps the activation record, so activating again succeeds and
  leaves the store as it was.
- Reset codes are never used up.
- `resetPassword` never looks at the account status.
- If no user has the email, the password update in `resetPassword`
  matches nothing and the call still reports success.
- `generatePasswordResetRequest` does not validate the email and does not
  check that a user exists.
- `login` writes the user id out-parameter before it checks the status
  and the password.
- Lookups compare strings exactly. The code does no case folding.
- Codes and unvalidated emails go into queries through `.c_str()`, so
  everything from the first NUL on is dropped. The model applies this
  truncation to the byte-string code arguments and to the email stored by
  `generatePasswordResetRequest`. Validated emails contain no NUL
  (`Email.ValidEmailIsPlainAscii`).
- `isValidePassword` checks `QString::fromLatin1(password)`. With Qt 5,
  the version the code is written against (it uses `toTime_t`), that
  conversion stops at the first zero byte. So the bounds, the whitelist
  and the counting scan see only the bytes before it, while
  `hashPassword` and `verifyPassword` use all the bytes.
  `Password.PasswordText` is that prefix.
- A reset-code collision reports "Generic database error.". It has no
  message of its own.
- Activation and reset codes never expire: no stored `time` field is
  ever read back.
- `activate` sets the status with an unconditional update. It does not
  check the current status first.

## Model

| member | source | states |
|---|---|---|
| Email.IsValidEmail | Swiftly/UserManager.cpp:508-517 | An address is accepted exactly when its length is 1 to 32 and it splits into a local part over `[A-Za-z0-9._%+-]`, an `@`, a domain over `[A-Za-z0-9.-]`, a `.` and a 2 to 4 letter label (the regex matches). |
| Email.HasEmailShapeIffPattern | Swiftly/UserManager.cpp:514-516 | Scanning for the first `@` and the last `.` after it accepts exactly the strings the backtracking regex matches, in both directions. |
| Email.ValidEmailIsPlainAscii | Swiftly/UserManager.cpp:514 | Every character of an accepted address is printable ASCII, so its C-string form is the whole address. |
| Password.CheckPassword | Swiftly/UserManager.cpp:519-601 | The method takes the text before the first zero byte and runs the source's early-exit counting loop over it. It returns true exactly when `Validate` accepts, with an empty message. Otherwise it returns the message of the one problem `Validate` reports. |
| Password.Validate | Swiftly/UserManager.cpp:524-600 | Every check runs on the text before the first zero byte. An accepted text is within bounds, whitelisted and meets every threshold. A whitelist rejection means the bounds passed. A shortfall names a class whose count is below its threshold, with that threshold. The order of the checks is stated by `Password.BoundsCheckedFirst` (bounds before the whitelist) and `Password.ShortfallIsFirstUnmet` (the first unmet class in the order upper, special, digit, lower). |
| Password.ValidateIgnoresTailAfterNul | Swiftly/UserManager.cpp:524 | Bytes from the first zero byte on never change the verdict. A password without a zero byte is judged whole. |
| Password.BytesAfterNulAreNotChecked | Swiftly/UserManager.cpp:524-545 | An instance: "Ab1!", a zero byte and "zz" is accepted under length bounds 4 to 5. The whole six bytes would be too long. |
| Password.CountGrows | Swiftly/UserManager.cpp:547-573 | The tallies of a prefix never exceed the tallies of a longer prefix, in any class. |
| Password.MetPrefixMeetsAll | Swiftly/UserManager.cpp:575-581 | If some prefix meets all four thresholds, so does the whole password. The early return therefore agrees with a check of the final counts. |
| Password.AcceptedIffAllMet | Swiftly/UserManager.cpp:524-582 | A password is accepted exactly when its text before the first zero byte meets three conditions: its length is within `[length, maxLength]`, it is non-empty and whitelisted, and every class count reaches its threshold. |
| Password.ShortfallIsFirstUnmet | Swiftly/UserManager.cpp:584-600 | Suppose the text before the first zero byte is within the bounds and whitelisted. Then the reported shortfall is class c exactly when c is short and every class before c in the order upper, special, digit, lower is met. |
| Password.BoundsCheckedFirst | Swiftly/UserManager.cpp:524-545 | The bounds apply to the length of the text before the first zero byte, whatever its characters. Below the minimum the password is reported as too short, and above the maximum as too long. The whitelist message appears exactly when the bounds pass and the whitelist fails on that text. |
| Password.Message | Swiftly/UserManager.cpp:584-600 | Every message ends in `.`. A class-shortfall message has `s` before that `.` exactly when the threshold is above 1. |
| Common.DecimalRoundTrip | Swiftly/UserManager.cpp:528 | The decimal text `QString::number` puts in a message denotes the threshold it was made from. |
| Common.Latin1RoundTrip | Swiftly/UserManager.cpp:628 | Latin-1 text converted to bytes with `toLatin1` and back with `fromLatin1` is unchanged. |
| Common.BytesBeforeNulOfLatin1 | Swiftly/UserManager.cpp:341-344 | A code without NUL survives the trip into a query through `.c_str()` unchanged. |
| Common.PrefixBeforeNulCuts | Swiftly/UserManager.cpp:524 | A byte string without a zero byte is kept whole. A zero byte cuts off everything after it. |
| Tokens.TokenBuffer | Swiftly/UserManager.cpp:627-631 | The buffer is 256 bytes. Bytes `[0, min(|email|,32))` are the email's Latin-1 bytes and the rest are the random input, in order. |
| Tokens.TokenBufferStartsWithEmail | Swiftly/UserManager.cpp:628-631 | For a Latin-1 email of at most 32 characters, the whole address can be read back from the head of the buffer. |
| Tokens.HexRoundTrip | Swiftly/UserManager.cpp:634 | Decoding the lower-case hex text of any byte string gives that byte string back. |
| Tokens.HexInjective | Swiftly/UserManager.cpp:634 | Distinct digests give distinct codes. |
| Tokens.ActivationCode | Swiftly/UserManager.cpp:625-637 | The activation code is 64 lower-case hex characters that decode to the SHA3-256 digest of the token buffer. |
| Tokens.PasswordResetCode | Swiftly/UserManager.cpp:639-651 | The reset code is 64 lower-case hex characters that decode to the SHA3-256 digest of the token buffer. |
| Tokens.ResetCodeIsActivationCode | Swiftly/UserManager.cpp:625-651 | The two generators compute the same function. |
| Accounts.Signup | Swiftly/UserManager.cpp:34-134 | Signup succeeds exactly when four things hold: the email is valid, the password passes the policy (on its text before the first zero byte), the email is unregistered, and no activation record has this email or the new code. Success adds a Pending user with the next id and the hashed password, and appends the activation record. On failure the activation and reset records are unchanged, and the only possible change is that lone new user. |
| Accounts.Login | Swiftly/UserManager.cpp:136-201 | Login succeeds exactly when four things hold: the email is valid, the password passes the policy (on its text before the first zero byte), the user exists, and the user is not Pending and the verifier accepts the password. The user id is returned exactly when the user was found. |
| Accounts.Activate | Swiftly/UserManager.cpp:333-379 | Activation succeeds exactly when an activation record carries the code up to its first NUL. It then returns that record's email, and only that user's status becomes Active. Otherwise nothing changes. |
| Accounts.AuthorizeReset | Swiftly/UserManager.cpp:218-282 | The authorisation step passes exactly on one of two paths. Old-password path: the old password passes the policy, the user exists and the verifier accepts. Code path: the first reset record with the code names this email. |
| Accounts.ResetPassword | Swiftly/UserManager.cpp:203-331 | A reset succeeds exactly when three things hold: the email is valid, the reset is authorised, and the new password passes the policy. On success only that user's password hash changes. On failure nothing changes. |
| Accounts.GeneratePasswordResetRequest | Swiftly/UserManager.cpp:381-439 | The returned code is the reset code for this email and randomness. The request succeeds exactly when no reset record has that code. Success appends a record with the code and the email up to its first NUL. Otherwise nothing changes. |
| Accounts.GetActivationCode | Swiftly/UserManager.cpp:441-474 | The lookup succeeds exactly when the email is valid and an activation record has it, and it returns that record's code. For an invalid email the message is left untouched. |
| Accounts.GetUser | Swiftly/UserManager.cpp:476-506 | The lookup returns the stored status exactly when the email is valid and registered. |
| AccountProperties.SignupRejectsExistingEmail | Swiftly/UserManager.cpp:118-125 | A signup for a registered email fails and leaves the store unchanged. When the email and password are well-formed, the message is the duplicate-key text "User with the same email exists", with the `User` collection's driver detail. |
| AccountProperties.SignupKeepsUserWhenActivationInsertFails | Swiftly/UserManager.cpp:86-108 | If the new code collides with a stored activation code, signup fails but the new Pending user stays (no rollback). |
| AccountProperties.SignupThenLookups | Swiftly/UserManager.cpp:77-102 | After a successful signup, `getUser` reads the account as Pending and `getActivationCode` returns the code signup produced. |
| AccountProperties.LoginChecksStatusBeforePassword | Swiftly/UserManager.cpp:169-176 | For a Pending user, login fails with the not-activated message and the user id, whatever the password verifier says. |
| AccountProperties.LoginWrongPassword | Swiftly/UserManager.cpp:178-192 | For an activated user whose password the verifier rejects, login fails with "Wrong password." and still returns the user id. |
| AccountProperties.LoginUnknownEmail | Swiftly/UserManager.cpp:194-198 | For a well-formed email with no user, login fails with "No user registered with this email." and returns no user id. |
| AccountProperties.ActivateIsIdempotent | Swiftly/UserManager.cpp:341-370 | Activating twice with the same code gives the same result and the same store as activating once. |
| AccountProperties.SignupActivateLogin | Swiftly/UserManager.cpp:333-370 | After a successful signup, login fails. The returned code activates the account and names its email. Login with the same password then succeeds, provided the verifier accepts the hash made from it. |
| AccountProperties.ResetCodeIsReusable | Swiftly/UserManager.cpp:256-282 | After a successful reset by code, the same code authorises another reset. |
| AccountProperties.ResetIgnoresStatus | Swiftly/UserManager.cpp:284-309 | A reset by code succeeds for a Pending account, and sets only its password hash. |
| AccountProperties.ResetWithWrongOldPasswordFails | Swiftly/UserManager.cpp:244-248 | If the verifier rejects the old password, the reset fails and changes nothing. When the email is valid and the old password passes the policy, the message is "Not able to verify old password.". |
| AccountProperties.ResetWithForeignCodeFails | Swiftly/UserManager.cpp:269-275 | A reset code issued for another email is refused and changes nothing. For a valid email the message is "Email provided doesn't match the password reset code.". |
| AccountProperties.ResetThenLogin | Swiftly/UserManager.cpp:298-309 | After a successful reset, an active user logs in with the new password. An old password that the verifier rejects for the new hash no longer works. |
| AccountProperties.ResetRequestThenReset | Swiftly/UserManager.cpp:400-415 | The code a reset request returns for a valid email authorises a reset for that email. |
| AccountProperties.AddUserPreservesValid | Swiftly/UserManager.cpp:77-87 | Inserting a Pending user under a fresh email with the next id keeps the store consistent. |
| AccountProperties.AddActivationPreservesValid | Swiftly/UserManager.cpp:65-75 | Appending an activation record keeps the store consistent, if it clashes on neither unique index and points at its user. |
| AccountProperties.SetPasswordPreservesValid | Swiftly/UserManager.cpp:298-303 | Changing one user's password hash keeps the store consistent and changes no id or status. |
| AccountProperties.SignupPreservesValid | Swiftly/UserManager.cpp:59-108 | Signup keeps the unique indexes, the record-to-user links and fresh distinct ids, and removes or downgrades no user. |
| AccountProperties.ActivatePreservesValid | Swiftly/UserManager.cpp:356-360 | Activation keeps the store consistent and never sets a status back to Pending. |
| AccountProperties.ResetPasswordPreservesValid | Swiftly/UserManager.cpp:298-303 | A password reset keeps the store consistent and never sets a status back to Pending. |
| AccountProperties.ResetRequestPreservesValid | Swiftly/UserManager.cpp:394-411 | A reset request keeps the unique index on `reset_code`. |
| AccountProperties.RunPreservesValid | Swiftly/UserManager.cpp:59-75 | Along any sequence of signups, activations, resets and reset requests, three things hold: the unique indexes hold, no user disappears or changes id, and no activated account returns to Pending. |
| AccountProperties.RunFromEmptyIsValid | Swiftly/UserManager.cpp:59-75 | Starting from empty collections, any sequence of requests leaves the store consistent. |

## Left out

- The MongoDB client, the singleton access and the `create_index` calls are replaced by an in-memory store. Its inserts fail on a unique-key collision.
- Database errors other than a duplicate key are not modelled, and neither are unacknowledged writes. These are the non-11000 branch of signup, the `if (!result)` branches, and exceptions thrown by `find_one`, `update_one` or `create_index`. An in-memory store does not produce them.
- The driver's `e.what()` text appended to signup's duplicate-key message is opaque. It is represented by the collection that reported the clash (`Accounts.TextAndDriverDetail`).
- libsodium hashing and verification, `randombytes_buf` and SHA3-256 are parameters, not implementations. The out-of-memory branch of `hashPassword` only logs, so it is omitted.
- The `time` fields of activation and reset records, all `qDebug` logging, and the unused `extraFields` parameters are not modelled. They affect no result.
- PCRE's `$` also matches before a final newline. The model treats both patterns as anchored at the very end.
- Case-insensitive matching of non-ASCII characters is not modelled. This includes the Kelvin sign and long s that Unicode case folding relates to K and S: non-ASCII characters match no class in the email pattern. Passwords are not affected: they are Latin-1 bytes, and no Latin-1 byte above 0x7F folds into the whitelist.
- A `char` stands for one QString UTF-16 unit. Characters outside the Basic Multilingual Plane, which take two units, are not modelled.
- The default threshold values live in `UserManager.h`, which is not part of this model. The thresholds are a `Password.Policy` parameter.
- `Swiftly/HttpRequest.h` is socket-bound request plumbing, and `Examples/HelloWorld/main.cpp` is process start-up. Neither is part of the account logic.
- Concurrent requests racing at the store are not modelled. Every operation is one atomic step on the store.
