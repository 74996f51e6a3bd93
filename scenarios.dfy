/** Clients of the store that run the account lifecycle end to end on a fresh
    store, showing what the route contracts let a caller conclude. The facts
    about bcrypt they rely on are stated as preconditions on the hasher and
    comparer for the passwords involved. */
module Scenarios {

  import opened Wrappers
  import opened Accounts
  import opened Replies
  import opened UserRoutes

  /** Register, a duplicate registration, login with the registered password,
      then verification twice with the mailed token. */
  method RegisterAndVerify(role: string, now: int, token: string, salt: string,
                           hash: (string, string) -> Option<string>,
                           compare: (string, string) -> bool, sign: Claims -> string)
    returns (registered: Response, duplicate: Response, login: Response,
             verified: Response, again: Response, account: Account)
    requires |token| == 32
    requires hash(salt, "Secret123").Some?
    requires compare("Secret123", hash(salt, "Secret123").value)
    ensures registered == Reply(200, Session(BearerToken(sign(Claims(0, Some("a@x.com"))))))
    ensures duplicate == Reply(400, FieldErrors(map["email" := EmailExists]))
    ensures login == Reply(200, Session(BearerToken(sign(Claims(0, None)))))
    ensures verified == Reply(200, Done)
    ensures again == Reply(400, Json(InvalidToken))
    ensures account.email == "a@x.com" && account.password == hash(salt, "Secret123").value
    ensures account.verified && account.verificationToken == ""
  {
    var store := new Store(role);
    var mail;
    registered, mail := store.Register(true, map[], "a@x.com", "Secret123", token, salt, hash,
                                       sign, now, true, true);
    assert mail == Some(VerificationMail("a@x.com", token));
    duplicate, mail := store.Register(true, map[], "a@x.com", "Other456", token, salt, hash,
                                      sign, now, true, true);
    assert |store.accounts| == 1;
    login := store.Login(true, map[], "a@x.com", "Secret123", compare, sign);
    verified := store.Verify(token);
    again := store.Verify(token);
    account := store.accounts[0];
  }

  /** Request a reset, redeem it, log in with the new and the old password, and
      redeem the same token once more: the token was not cleared. */
  method ResetAndReplay(role: string, now: int, vtoken: string, rtoken: string,
                        s1: string, s2: string, s3: string,
                        hash: (string, string) -> Option<string>,
                        compare: (string, string) -> bool, sign: Claims -> string)
    returns (requested: Response, unknown: Response, redeemed: Response,
             loginNew: Response, loginOld: Response, replayed: Response)
    requires |vtoken| == 32 && |rtoken| == 64
    requires hash(s1, "Secret123").Some? && hash(s2, "NewSecret456").Some?
    requires hash(s3, "Third789").Some?
    requires hash(s2, "NewSecret456") != hash(s1, "Secret123")
    requires hash(s3, "Third789") != hash(s2, "NewSecret456")
    requires compare("NewSecret456", hash(s2, "NewSecret456").value)
    requires !compare("Secret123", hash(s2, "NewSecret456").value)
    ensures requested == Reply(200, Json(EmailSentAck("a@x.com")))
    ensures unknown == Reply(200, Json(EmailSentAck("b@x.com")))
    ensures redeemed == Reply(200, Done)
    ensures loginNew == Reply(200, Session(BearerToken(sign(Claims(0, None)))))
    ensures loginOld == Reply(400, FieldErrors(map["password" := PasswordIncorrect]))
    ensures replayed == Reply(200, Done)
  {
    var h1, h2 := hash(s1, "Secret123").value, hash(s2, "NewSecret456").value;
    var store := new Store(role);
    var registered, mail := store.Register(true, map[], "a@x.com", "Secret123", vtoken, s1, hash,
                                           sign, now, true, true);
    assert store.accounts == [Account(0, "a@x.com", h1, false, vtoken, None, role, now)];
    assert FindFirst(store.accounts, ByEmail("a@x.com")) == Some(0);
    assert FindFirst(store.accounts, ByEmail("b@x.com")) == None;
    requested, mail := store.RequestReset("a@x.com", rtoken, true);
    assert mail == Some(ResetMail("a@x.com", rtoken));
    assert store.accounts == [Account(0, "a@x.com", h1, false, vtoken, Some(rtoken), role, now)];
    unknown, mail := store.RequestReset("b@x.com", rtoken, true);
    assert mail == None;
    assert FindFirst(store.accounts, ByResetToken(rtoken)) == Some(0);
    redeemed := store.RedeemReset(rtoken, "NewSecret456", s2, hash);
    assert store.accounts == [Account(0, "a@x.com", h2, false, vtoken, Some(rtoken), role, now)];
    assert FindFirst(store.accounts, ByEmail("a@x.com")) == Some(0);
    loginNew := store.Login(true, map[], "a@x.com", "NewSecret456", compare, sign);
    loginOld := store.Login(true, map[], "a@x.com", "Secret123", compare, sign);
    replayed := store.RedeemReset(rtoken, "Third789", s3, hash);
  }
}
