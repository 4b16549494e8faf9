/** The account store: the User collection, keyed by email. */
module Accounts {

  import opened Wrappers
  import opened Externals

  /** One User document. `password` holds the bcrypt hash, never the
      plaintext; `verificationToken` is the token issued at signup. */
  datatype Account = Account(
    username: Username,
    email: Email,
    password: PasswordHash,
    isVerified: bool,
    verificationToken: Token)

  type Store = map<Email, Account>

  /** Every account is filed under its own email. */
  predicate WellKeyed(store: Store)
  {
    forall e :: e in store ==> store[e].email == e
  }

  /** User.findOne({ email }). */
  function FindByEmail(store: Store, email: Email): (r: Option<Account>)
    ensures r.Some? <==> email in store
    ensures r.Some? ==> r.value == store[email]
    ensures WellKeyed(store) && r.Some? ==> r.value.email == email
    ensures WellKeyed(store) ==> (r.Some? <==> exists e :: e in store && store[e].email == email)
  {
    if email in store then Some(store[email]) else None
  }

  /** `found` is an answer User.findOne({ username }) may give: some stored
      account with that username, or none when no account has it. The store
      does not keep usernames unique, so several answers may be possible. */
  predicate IsUsernameLookup(store: Store, username: Username, found: Option<Account>)
  {
    match found
    case None => forall e :: e in store ==> store[e].username != username
    case Some(a) => a.username == username && a in store.Values
  }

  /** At most one stored account carries `username`. */
  predicate UsernameUnique(store: Store, username: Username)
  {
    forall e1, e2 ::
      e1 in store && e2 in store && store[e1].username == username && store[e2].username == username
      ==> e1 == e2
  }

  /** `after` is a later state of `before`: no account disappears, no
      account's identity, password hash or token changes, and a verified
      account stays verified. */
  predicate Evolves(before: Store, after: Store)
  {
    && before.Keys <= after.Keys
    && forall e :: e in before ==>
         && after[e].username == before[e].username
         && after[e].email == before[e].email
         && after[e].password == before[e].password
         && after[e].verificationToken == before[e].verificationToken
         && (before[e].isVerified ==> after[e].isVerified)
  }

  lemma EvolvesReflexive(store: Store)
    ensures Evolves(store, store)
  {
  }

  lemma EvolvesTransitive(s1: Store, s2: Store, s3: Store)
    requires Evolves(s1, s2) && Evolves(s2, s3)
    ensures Evolves(s1, s3)
  {
  }
}
