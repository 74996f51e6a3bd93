/** The account routes (register, login, reverify, changepw, the two resetpw
    routes and verify) as methods on the account store.

    Each handler finds a record, checks a condition, rewrites a few fields of
    its copy, saves it back and answers with a status and a body. The
    collaborators the handlers call are inputs:
      - `hash(salt, plaintext)` is bcrypt's hash under a salt from genSalt(13);
        None stands for the error bcrypt hands its callback;
      - `compare(plaintext, hash)` is bcrypt's compare;
      - `sign(claims)` is the signed JWT;
      - tokens from uid(32) and uid(64) arrive as strings of that length;
      - `mailOk` is the mailer's answer to one send;
      - `caller` is the record passport attached to the request. */
module UserRoutes {

  import opened Wrappers
  import opened Accounts
  import opened Replies

  const EmailExists: string := "Email already exists"
  const UserNotFound: string := "User not found"
  const PasswordIncorrect: string := "Password incorrect"
  const AlreadyVerified: string := "user already verified"
  const SamePassword: string := "The password needs to be different than your current"
  const TokenNotValid: string := "Token is not valid"
  const InvalidToken: string := "Invalid token"
  const MailError: string := "error"

  class Store {
    /** The user collection, in insertion order. */
    var accounts: seq<Account>
    /** The identifier the next created record receives. */
    var nextId: Id
    /** The role a new record takes from the schema. */
    const defaultRole: string

    ghost predicate Valid()
      reads this
    {
      && UniqueEmails(accounts) && IdsBelow(accounts, nextId)
      && VerifiedExactlyWhenTokenCleared(accounts)
    }

    constructor (defaultRole: string)
      ensures Valid()
      ensures accounts == [] && nextId == 0 && this.defaultRole == defaultRole
    {
      this.defaultRole := defaultRole;
      accounts := [];
      nextId := 0;
    }

    /** POST /register. A new record is saved before the mailer is asked;
        the mailer's failure callback and the JWT callback both answer, and
        `mailAnswersFirst` says which one reaches the client. */
    method Register(isValid: bool, errors: map<string, string>, email: string, password: string,
                    freshToken: string, salt: string, hash: (string, string) -> Option<string>,
                    sign: Claims -> string, now: int, mailOk: bool, mailAnswersFirst: bool)
      returns (r: Response, mail: Option<Mail>)
      requires Valid()
      requires |freshToken| == 32
      modifies this
      ensures Valid() && Extends(old(accounts), accounts)
      ensures !isValid ==>
        && r == Reply(400, FieldErrors(errors)) && mail == None
        && accounts == old(accounts) && nextId == old(nextId)
      ensures isValid && FindFirst(old(accounts), ByEmail(email)).Some? ==>
        && r == Reply(400, FieldErrors(errors["email" := EmailExists])) && mail == None
        && accounts == old(accounts) && nextId == old(nextId)
      ensures isValid && FindFirst(old(accounts), ByEmail(email)).None? && hash(salt, password).None? ==>
        && r == NoReply && mail == None
        && accounts == old(accounts) && nextId == old(nextId)
      ensures isValid && FindFirst(old(accounts), ByEmail(email)).None? && hash(salt, password).Some? ==>
        var saved := Account(old(nextId), email, hash(salt, password).value, false, freshToken,
                             None, defaultRole, now);
        && accounts == old(accounts) + [saved] && nextId == old(nextId) + 1
        && FindFirst(accounts, ByEmail(email)) == Some(|old(accounts)|)
        && mail == Some(VerificationMail(email, freshToken))
        && r == (if !mailOk && mailAnswersFirst then Reply(500, Json(MailError))
                 else Reply(200, Session(BearerToken(sign(Claims(saved.id, Some(email)))))))
    {
      mail := None;
      if !isValid {
        r := Reply(400, FieldErrors(errors));
        return;
      }
      if FindFirst(accounts, ByEmail(email)).Some? {
        r := Reply(400, FieldErrors(errors["email" := EmailExists]));
        return;
      }
      var user := Account(nextId, email, password, false, "", None, defaultRole, now);
      user := user.(verificationToken := freshToken);
      var hashed := hash(salt, password);
      if hashed.None? {
        // bcrypt's error is thrown inside its callback: nothing saved, no reply
        r := NoReply;
        return;
      }
      user := user.(password := hashed.value);
      FindFirstAfterAppend(accounts, user, ByEmail(email));
      accounts := accounts + [user];
      nextId := nextId + 1;
      mail := Some(VerificationMail(user.email, user.verificationToken));
      if !mailOk && mailAnswersFirst {
        r := Reply(500, Json(MailError));
      } else {
        r := Reply(200, Session(BearerToken(sign(Claims(user.id, Some(user.email))))));
      }
    }

    /** POST /login. The record is loaded with only its password field, so the
        signed claims carry the identifier and no email. */
    method Login(isValid: bool, errors: map<string, string>, email: string, password: string,
                 compare: (string, string) -> bool, sign: Claims -> string)
      returns (r: Response)
      ensures !isValid ==> r == Reply(400, FieldErrors(errors))
      ensures isValid && FindFirst(accounts, ByEmail(email)).None? ==>
        r == Reply(404, FieldErrors(errors["email" := UserNotFound]))
      ensures isValid && FindFirst(accounts, ByEmail(email)).Some? ==>
        var user := accounts[FindFirst(accounts, ByEmail(email)).value];
        r == if compare(password, user.password)
             then Reply(200, Session(BearerToken(sign(Claims(user.id, None)))))
             else Reply(400, FieldErrors(errors["password" := PasswordIncorrect]))
    {
      if !isValid {
        return Reply(400, FieldErrors(errors));
      }
      var found := FindFirst(accounts, ByEmail(email));
      if found.None? {
        return Reply(404, FieldErrors(errors["email" := UserNotFound]));
      }
      var user := accounts[found.value];
      if compare(password, user.password) {
        r := Reply(200, Session(BearerToken(sign(Claims(user.id, None)))));
      } else {
        r := Reply(400, FieldErrors(errors["password" := PasswordIncorrect]));
      }
    }

    /** GET /reverify. Resends the stored verification token, unrotated, to
        the caller's address; answers only after the mailer does. */
    method Reverify(caller: Account, mailOk: bool) returns (r: Response, mail: Option<Mail>)
      ensures caller.verified ==> r == Reply(400, Json(AlreadyVerified)) && mail == None
      ensures !caller.verified && FindFirst(accounts, ById(caller.id)).None? ==>
        r == NoReply && mail == None
      ensures !caller.verified && FindFirst(accounts, ById(caller.id)).Some? ==>
        && mail == Some(VerificationMail(caller.email,
                          accounts[FindFirst(accounts, ById(caller.id)).value].verificationToken))
        && r == (if mailOk then Reply(200, Done) else Reply(500, Json(MailError)))
    {
      if caller.verified {
        return Reply(400, Json(AlreadyVerified)), None;
      }
      var found := FindFirst(accounts, ById(caller.id));
      if found.None? {
        // reading a field of the missing record throws
        return NoReply, None;
      }
      var user := accounts[found.value];
      mail := Some(VerificationMail(caller.email, user.verificationToken));
      r := if mailOk then Reply(200, Done) else Reply(500, Json(MailError));
    }

    /** POST /changepw. The new password's fresh hash is compared with the
        stored hash; on a difference only the hash is replaced and the saved
        record is the reply. */
    method ChangePassword(caller: Account, newPassword: string, salt: string,
                          hash: (string, string) -> Option<string>)
      returns (r: Response)
      requires Valid()
      modifies this
      ensures Valid() && Extends(old(accounts), accounts) && nextId == old(nextId)
      ensures FindFirst(old(accounts), ByEmail(caller.email)).None? ==>
        r == Reply(500, FieldErrors(map["nouser" := "user not found"])) && accounts == old(accounts)
      ensures FindFirst(old(accounts), ByEmail(caller.email)).Some? && hash(salt, newPassword).None? ==>
        r == NoReply && accounts == old(accounts)
      ensures FindFirst(old(accounts), ByEmail(caller.email)).Some? && hash(salt, newPassword).Some? ==>
        var i := FindFirst(old(accounts), ByEmail(caller.email)).value;
        var h := hash(salt, newPassword).value;
        if h == old(accounts)[i].password then
          r == Reply(412, FieldErrors(map["samepassword" := SamePassword])) && accounts == old(accounts)
        else
          accounts == old(accounts)[i := old(accounts)[i].(password := h)]
          && r == Reply(200, Document(accounts[i]))
    {
      var found := FindFirst(accounts, ByEmail(caller.email));
      if found.None? {
        return Reply(500, FieldErrors(map["nouser" := "user not found"]));
      }
      var user := accounts[found.value];
      var hashed := hash(salt, newPassword);
      if hashed.None? {
        return NoReply;
      }
      if user.password == hashed.value {
        return Reply(412, FieldErrors(map["samepassword" := SamePassword]));
      }
      user := user.(password := hashed.value);
      CredentialUpdateKeepsInvariants(accounts, nextId, found.value, user);
      accounts := accounts[found.value := user];
      r := Reply(200, Document(user));
    }

    /** GET /resetpw/:email. An unknown address gets the same acknowledgment as
        a known one whose mail went out; a known one gets a fresh reset token. */
    method RequestReset(email: string, freshToken: string, mailOk: bool)
      returns (r: Response, mail: Option<Mail>)
      requires Valid()
      requires |freshToken| == 64
      modifies this
      ensures Valid() && Extends(old(accounts), accounts) && nextId == old(nextId)
      ensures mailOk ==> r == Reply(200, Json(EmailSentAck(email)))
      ensures FindFirst(old(accounts), ByEmail(email)).None? ==>
        r == Reply(200, Json(EmailSentAck(email))) && mail == None && accounts == old(accounts)
      ensures FindFirst(old(accounts), ByEmail(email)).Some? ==>
        var i := FindFirst(old(accounts), ByEmail(email)).value;
        && accounts == old(accounts)[i := old(accounts)[i].(passwordResetToken := Some(freshToken))]
        && mail == Some(ResetMail(email, freshToken))
        && r == (if mailOk then Reply(200, Json(EmailSentAck(email))) else Reply(500, Json(MailError)))
    {
      var found := FindFirst(accounts, ByEmail(email));
      if found.None? {
        return Reply(200, Json(EmailSentAck(email))), None;
      }
      var user := accounts[found.value];
      user := user.(passwordResetToken := Some(freshToken));
      CredentialUpdateKeepsInvariants(accounts, nextId, found.value, user);
      accounts := accounts[found.value := user];
      mail := Some(ResetMail(user.email, freshToken));
      r := if mailOk then Reply(200, Json(EmailSentAck(user.email))) else Reply(500, Json(MailError));
    }

    /** POST /resetpw/:token. The token is looked up and the new hash replaces
        the stored one; the reset token itself is left in place. A failed hash
        or an unchanged hash throws inside bcrypt's callback, outside the
        handler's try, so no reply is written. */
    method RedeemReset(token: string, password: string, salt: string,
                       hash: (string, string) -> Option<string>)
      returns (r: Response)
      requires Valid()
      modifies this
      ensures Valid() && Extends(old(accounts), accounts) && nextId == old(nextId)
      ensures FindFirst(old(accounts), ByResetToken(token)).None? ==>
        r == Reply(404, ErrorMessage(TokenNotValid)) && accounts == old(accounts)
      ensures FindFirst(old(accounts), ByResetToken(token)).Some? && hash(salt, password).None? ==>
        r == NoReply && accounts == old(accounts)
      ensures FindFirst(old(accounts), ByResetToken(token)).Some? && hash(salt, password).Some? ==>
        var i := FindFirst(old(accounts), ByResetToken(token)).value;
        var h := hash(salt, password).value;
        if h == old(accounts)[i].password then
          r == NoReply && accounts == old(accounts)
        else
          accounts == old(accounts)[i := old(accounts)[i].(password := h)] && r == Reply(200, Done)
      ensures FindFirst(accounts, ByResetToken(token)) == FindFirst(old(accounts), ByResetToken(token))
    {
      var found := FindFirst(accounts, ByResetToken(token));
      if found.None? {
        return Reply(404, ErrorMessage(TokenNotValid));
      }
      var user := accounts[found.value];
      var hashed := hash(salt, password);
      if hashed.None? || user.password == hashed.value {
        return NoReply;
      }
      user := user.(password := hashed.value);
      CredentialUpdateKeepsInvariants(accounts, nextId, found.value, user);
      FindFirstAfterUpdate(accounts, found.value, user, ByResetToken(token));
      accounts := accounts[found.value := user];
      r := Reply(200, Done);
    }

    /** GET /verify/:token. The record holding the token becomes verified and
        its token is cleared; nothing else changes. */
    method Verify(token: string) returns (r: Response)
      requires Valid()
      modifies this
      ensures Valid() && Extends(old(accounts), accounts) && nextId == old(nextId)
      ensures FindFirst(old(accounts), ByVerificationToken(token)).None? ==>
        r == Reply(400, Json(InvalidToken)) && accounts == old(accounts)
      ensures FindFirst(old(accounts), ByVerificationToken(token)).Some? ==>
        var i := FindFirst(old(accounts), ByVerificationToken(token)).value;
        && accounts == old(accounts)[i := old(accounts)[i].(verified := true, verificationToken := "")]
        && r == Reply(200, Done)
        && (token != "" ==> !old(accounts)[i].verified)
      ensures FindFirst(old(accounts), ByVerificationToken(token)).Some? && token != "" ==>
        var i := FindFirst(old(accounts), ByVerificationToken(token)).value;
        (forall k :: 0 <= k < |old(accounts)| && k != i ==> old(accounts)[k].verificationToken != token) ==>
          FindFirst(accounts, ByVerificationToken(token)).None?
    {
      var found := FindFirst(accounts, ByVerificationToken(token));
      if found.None? {
        return Reply(400, Json(InvalidToken));
      }
      var user := accounts[found.value];
      user := user.(verified := true, verificationToken := "");
      accounts := accounts[found.value := user];
      r := Reply(200, Done);
    }
  }
}
