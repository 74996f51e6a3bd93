/** What the route handlers hand back: HTTP replies, the messages given to
    the mailer and the claims signed into a session token. */
module Replies {

  import opened Wrappers
  import opened Accounts

  /** The payload signed into a session token. A claim read from a record
      loaded without that field is absent. */
  datatype Claims = Claims(id: Id, email: Option<string>)

  /** JSON reply bodies. */
  datatype Body =
    | FieldErrors(errors: map<string, string>)  // field-keyed error object
    | Json(text: string)                        // a bare JSON string
    | Session(token: string)                    // { success: true, token }
    | Done                                      // { success: true }
    | ErrorMessage(message: string)             // { error: message }
    | Document(account: Account)                // the saved record itself

  /** A handler either writes one reply or throws before writing any. */
  datatype Response = Reply(status: nat, body: Body) | NoReply

  /** A message handed to the mailer; the link in it carries `token`. */
  datatype Mail =
    | VerificationMail(to: string, token: string)
    | ResetMail(to: string, token: string)

  const BearerScheme: string := "Bearer "
  const AckPrefix: string := "email sent to "

  /** The authorization header value a client presents with a session token. */
  function BearerToken(signed: string): (header: string) {
    BearerScheme + signed
  }

  /** The acknowledgment of a password-reset request. */
  function EmailSentAck(email: string): (ack: string) {
    AckPrefix + email
  }

  /** A bearer header starts with the scheme and the signed token is exactly
      what follows it. */
  lemma BearerTokenSplits(signed: string)
    ensures |BearerToken(signed)| == |BearerScheme| + |signed|
    ensures BearerToken(signed)[..|BearerScheme|] == BearerScheme
    ensures BearerToken(signed)[|BearerScheme|..] == signed
  {
  }

  /** Distinct signed tokens give distinct headers. */
  lemma BearerTokenInjective(s1: string, s2: string)
    ensures BearerToken(s1) == BearerToken(s2) <==> s1 == s2
  {
    if BearerToken(s1) == BearerToken(s2) {
      BearerTokenSplits(s1);
      BearerTokenSplits(s2);
    }
  }

  /** The acknowledgment names the address it was asked about, and only that. */
  lemma EmailSentAckInjective(e1: string, e2: string)
    ensures EmailSentAck(e1) == EmailSentAck(e2) <==> e1 == e2
  {
    if EmailSentAck(e1) == EmailSentAck(e2) {
      assert e1 == EmailSentAck(e1)[|AckPrefix|..];
      assert e2 == EmailSentAck(e2)[|AckPrefix|..];
    }
  }
}
