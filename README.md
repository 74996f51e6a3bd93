# Account credential lifecycle of the HawkHack user routes

This project is a Dafny model of the account routes of the HawkHack event
backend (`routes/api/user.js`): register, login, re-verify, change password,
request a password reset, redeem a reset, and verify an email address. Each
route handler is a transition on the user collection. It finds a record,
checks a condition, rewrites a few fields of its copy, saves it and answers
with a status and a body. The model makes the collection a `Store` class
whose `accounts` field (a sequence of `Account` records in insertion order)
each route method reassigns. Each method's contract states the reply, the
mail handed to the mailer and the whole new state of the store.

Files:
- `wrappers.dfy`: `Option`.
- `account.dfy` (module `Accounts`): the user record, the query filters the
  handlers pass to `findOne`/`findById`, first-match lookup, the store
  invariants (one record per email, ascending unique identifiers, a record
  verified exactly when its verification token is cleared), the
  `Extends` relation every route keeps (no record removed, identity fields
  fixed, `verified` never reset), and lemmas about lookups across an update
  or an append.
- `replies.dfy` (module `Replies`): reply bodies and statuses, mail
  messages, JWT claims, the `"Bearer " + token` header builder and the
  `email sent to <email>` acknowledgment, with lemmas that each can be
  split back into its argument.
- `user_routes.dfy` (module `UserRoutes`): the `Store` class, one method per
  route.
- `scenarios.dfy` (module `Scenarios`): two client methods that run the
  lifecycle on a fresh store and prove the replies.

External collaborators are inputs:
- bcrypt's `hash(salt, plaintext)` is a function parameter that returns
  `None` when bcrypt reports an error. The salt is an argument, so the "same
  password" check compares two hashes, as the code does.
- bcrypt's `compare(plaintext, hash)` is a function parameter.
- The signed JWT is `sign(claims)`.
- The `uid(32)` and `uid(64)` tokens are string arguments of that length.
- The mailer's answer is a boolean `mailOk`.
- The record passport attaches to an authenticated request is the `caller`
  argument.
- The creation time is `now`. The schema's default role is a constructor
  argument.
- Record identifiers come from a counter in the store.

Some behaviour of the code is easy to misread; the model follows the code:
- Login loads the record with only its password field. The signed claims
  therefore carry the identifier and no email (`Claims(id, None)`).
  Registration signs the full saved record (`Claims(id, Some(email))`).
- On reset redemption, a bcrypt error or an unchanged hash throws inside
  bcrypt's callback. That is outside the handler's `try`, so no reply is
  written (`NoReply`): not the catch block's 404, and no 412.
- Registration answers twice: the JWT callback sends 200, and the mailer's
  failure callback sends 500. The scheduling input `mailAnswersFirst` says
  which of the two reaches the client. Either way the record is already
  saved.
- Change password replies with the whole saved record, including its hash.
- The reset token is never cleared after a redemption. `RedeemReset`
  promises that the same token still finds the same record.
  `Scenarios.ResetAndReplay` redeems it a second time and succeeds.
- Re-verify reads the caller's `verified` flag from the passport record. It
  then resends the stored token without rotating it. When the caller's
  identifier resolves to no record, the handler throws (`NoReply`).
- `findOne` returns some matching record. The model takes the first one in
  insertion order. For email lookups only one record can match.

## Model

| member | source | states |
|---|---|---|
| `Accounts.FindFirst` | routes/api/user.js:178-185 | the store's answer to a query is the first matching record, or None exactly when no record matches |
| `Accounts.FindFirstAfterUpdate` | routes/api/user.js:306-311 | replacing a record's password hash (or any field the query does not read) does not change which record a reset-token lookup finds |
| `Accounts.FindFirstAfterAppend` | routes/api/user.js:94-96 | saving a new record keeps every earlier lookup answer, and a lookup nothing answered before now finds the new record exactly when it matches |
| `Replies.BearerTokenSplits` | routes/api/user.js:122-125 | the session header is "Bearer " followed by exactly the signed token |
| `Replies.BearerTokenInjective` | routes/api/user.js:199-203 | two session headers are equal if and only if their signed tokens are |
| `Replies.EmailSentAckInjective` | routes/api/user.js:257 | two reset acknowledgments are equal if and only if they name the same address |
| `UserRoutes.Store.Register` | routes/api/user.js:64-134 | invalid input gives 400 with the validator's errors. A taken email gives 400 with `email: "Email already exists"`. A bcrypt error gives no reply. In all three cases the store is unchanged. Otherwise exactly one record is appended: it is unverified, carries bcrypt's output for the password in place of the submitted plaintext, and the fresh 32-character token, and has no reset token. The mail carries that token. The reply is 200 with a bearer token signed over the new id and email, or 500 when a mailer failure answers first; the record persists in both cases |
| `UserRoutes.Store.Login` | routes/api/user.js:169-211 | never changes the store. Invalid input gives 400. An unknown email gives 404 with `email: "User not found"`. A failing compare gives 400 with `password: "Password incorrect"`. A passing compare gives 200 with a bearer token signed over the record's id |
| `UserRoutes.Store.Reverify` | routes/api/user.js:139-164 | never changes the store. A verified caller gets 400 "user already verified" and no mail is sent. Otherwise the stored verification token is mailed unchanged to the caller's address, and the reply is 200 only when the mailer succeeds (500 otherwise) |
| `UserRoutes.Store.ChangePassword` | routes/api/user.js:216-244 | no record for the caller's email gives 500 with `nouser`. A bcrypt error gives no reply. A new hash equal to the stored one gives 412 with `samepassword`. In all three cases the store is unchanged. Otherwise only that record's hash is replaced and the saved record is the reply |
| `UserRoutes.Store.RequestReset` | routes/api/user.js:249-279 | an unknown email gets 200 "email sent to <email>" with no mail and no change. A known email gets only its reset token set to the fresh 64-character token, and the token is mailed. The reply is the same 200 acknowledgment when the mail succeeds and 500 otherwise |
| `UserRoutes.Store.RedeemReset` | routes/api/user.js:284-323 | a token matching no record gives 404 `error: "Token is not valid"`. A bcrypt error, or a hash equal to the stored one, gives no reply. In all three cases the store is unchanged. Otherwise only the hash is replaced and the reply is 200 `success`. The reset token stays, so the same token finds the same record afterwards |
| `UserRoutes.Store.Verify` | routes/api/user.js:325-343 | a token matching no record gives 400 "Invalid token" with no change. Otherwise the first holder becomes verified with an empty token, every other record and field is untouched, and the reply is 200 `success`. For a non-empty token the holder was unverified before, so this is the single step from unverified to verified; when no other record held the token, the same token finds nothing afterwards |
| `Scenarios.RegisterAndVerify` | routes/api/user.js:330-342 | on a fresh store: registration succeeds; a second registration of the same email is refused and leaves one record; login with the registered password succeeds; verifying with the mailed token succeeds and leaves the record verified with its token cleared; verifying again with the same token fails with "Invalid token" |
| `Scenarios.ResetAndReplay` | routes/api/user.js:289-311 | a reset request for a known and for an unknown address gets the same form of acknowledgment. Redeeming the mailed token sets the new password: login with the new password succeeds and with the old one fails. Redeeming the same token again succeeds as well |

## Left out

- Express routing, passport authentication and the validators of register
  and login input: the validator's verdict and errors, and the authenticated
  record, are inputs.
- The `/test`, `/testp` and `GET /` routes: they only echo fields and hold no
  logic.
- bcrypt internals, salt generation and its cost factor, JWT signing and its
  one-hour expiry, and token randomness: these are library calls, modelled as
  function parameters and string arguments. A genSalt error, which the code
  ignores, reaches the model as the hash failing for that salt.
- The mailer transport and the text of the messages (sender, subject, HTML,
  the link domain): only the recipient, the token the link carries, and the
  success or failure of the send are modelled.
- The mailing-list subscription in verify: it is a side effect outside the
  store that runs after the save is issued, and `Profile` is not imported in
  the route file.
- Store failures (a rejected `save()`): the store is modelled as always
  accepting a save; the code only logs such failures or leaves them unhandled.
- What the framework does after a handler throws (`NoReply` paths): the model
  states only that the store is unchanged when the throw happens.
- Concurrent requests and last-write-wins between them: the model is
  sequential, one route call at a time.
- UserRoutes.Store.Register: the model does not state that a bcrypt hash
  never equals its plaintext; that is a property of bcrypt, and the hasher
  here is an unconstrained input. The contract says only that the stored
  field is the hasher's output for the submitted password.
