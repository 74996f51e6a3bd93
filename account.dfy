/** The user record of the account store and the store's lookups.

    A lookup (`User.findOne({...})`, `User.findById(...)` in the route file)
    is a query document; the store answers with the first matching record in
    insertion order, or with nothing. */
module Accounts {

  import opened Wrappers

  /** The record identifier the store assigns when a record is created. */
  type Id = nat

  /** One stored user record. `password` holds the bcrypt hash, never the
      plaintext; `passwordResetToken` is absent until a reset is requested. */
  datatype Account = Account(
    id: Id,
    email: string,
    password: string,
    verified: bool,
    verificationToken: string,
    passwordResetToken: Option<string>,
    role: string,
    date: int)

  /** The filters the route handlers pass to the store. */
  datatype Query =
    | ByEmail(email: string)
    | ById(id: Id)
    | ByVerificationToken(verificationToken: string)
    | ByResetToken(passwordResetToken: string)

  /** Equality filter on one field; an absent reset token matches no string. */
  predicate Matches(a: Account, q: Query) {
    match q
    case ByEmail(e) => a.email == e
    case ById(i) => a.id == i
    case ByVerificationToken(t) => a.verificationToken == t
    case ByResetToken(t) => a.passwordResetToken == Some(t)
  }

  /** The index of the first record that matches `q`, or None when none does. */
  function FindFirst(s: seq<Account>, q: Query): (r: Option<nat>)
    ensures r.Some? ==> r.value < |s| && Matches(s[r.value], q)
    ensures r.Some? ==> forall j :: 0 <= j < r.value ==> !Matches(s[j], q)
    ensures r.None? <==> forall j :: 0 <= j < |s| ==> !Matches(s[j], q)
    decreases |s|
  {
    if |s| == 0 then None
    else if Matches(s[0], q) then Some(0)
    else
      match FindFirst(s[1..], q)
      case None => None
      case Some(i) => Some(i + 1)
  }

  /** At most one record per email address. */
  ghost predicate UniqueEmails(s: seq<Account>) {
    forall i, j :: 0 <= i < j < |s| ==> s[i].email != s[j].email
  }

  /** Identifiers grow with insertion order and stay below the next one the
      store will hand out, so no two records share one. */
  ghost predicate IdsBelow(s: seq<Account>, next: Id) {
    && (forall i, j :: 0 <= i < j < |s| ==> s[i].id < s[j].id)
    && (forall i :: 0 <= i < |s| ==> s[i].id < next)
  }

  /** A record is verified exactly when its verification token has been
      cleared: registration stores a non-empty token on an unverified record,
      and verification sets the flag and clears the token together. */
  ghost predicate VerifiedExactlyWhenTokenCleared(s: seq<Account>) {
    forall k :: 0 <= k < |s| ==> (s[k].verified <==> s[k].verificationToken == "")
  }

  /** The fields no route handler writes after creation. */
  predicate SameIdentity(a: Account, b: Account) {
    a.id == b.id && a.email == b.email && a.role == b.role && a.date == b.date
  }

  /** How the store may evolve across one request: no record is removed or
      reordered, identity fields stay put, and `verified` never goes back. */
  ghost predicate Extends(before: seq<Account>, after: seq<Account>) {
    && |before| <= |after|
    && forall k :: 0 <= k < |before| ==>
         SameIdentity(before[k], after[k]) && (before[k].verified ==> after[k].verified)
  }

  /** Rewriting a record's password or reset token keeps every store
      invariant and is a permitted step of the store. */
  lemma CredentialUpdateKeepsInvariants(s: seq<Account>, next: Id, i: nat, a: Account)
    requires UniqueEmails(s) && IdsBelow(s, next) && VerifiedExactlyWhenTokenCleared(s)
    requires i < |s|
    requires a == s[i].(password := a.password, passwordResetToken := a.passwordResetToken)
    ensures UniqueEmails(s[i := a]) && IdsBelow(s[i := a], next)
    ensures VerifiedExactlyWhenTokenCleared(s[i := a])
    ensures Extends(s, s[i := a])
  {
  }

  /** Rewriting one record without changing whether it matches `q` leaves the
      answer to `q` as it was. */
  lemma {:induction false} FindFirstAfterUpdate(s: seq<Account>, i: nat, a: Account, q: Query)
    requires i < |s|
    requires Matches(a, q) == Matches(s[i], q)
    ensures FindFirst(s[i := a], q) == FindFirst(s, q)
  {
    if i > 0 {
      assert s[i := a][1..] == s[1..][i - 1 := a];
      FindFirstAfterUpdate(s[1..], i - 1, a, q);
    }
  }

  /** Appending a record keeps every earlier answer; a query nothing answered
      before now finds the new record exactly when it matches. */
  lemma {:induction false} FindFirstAfterAppend(s: seq<Account>, a: Account, q: Query)
    ensures FindFirst(s + [a], q) ==
      match FindFirst(s, q)
      case Some(i) => Some(i)
      case None => if Matches(a, q) then Some(|s|) else None
  {
    if |s| > 0 {
      assert (s + [a])[1..] == s[1..] + [a];
      FindFirstAfterAppend(s[1..], a, q);
    }
  }
}
