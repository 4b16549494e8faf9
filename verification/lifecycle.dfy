/** The account lifecycle across requests: absent, then pending (stored,
    unverified), then verified. Only signup and email verification write the
    store; login is read-only (Login's contract), so a trace of store-changing
    requests determines every state the store passes through. */
module Lifecycle {

  import opened Wrappers
  import opened Externals
  import opened Accounts
  import opened AuthController

  /** A request that may write the store, with the collaborator outcomes it
      meets. */
  datatype Request =
    | SignupRequest(username: Username, email: Email, password: Password,
                    salt: Salt, saved: bool, mailSent: bool)
    | VerifyRequest(decoded: Option<Email>, saved: bool)

  /** Handle one request. Accounts never disappear or change identity,
      password or token; the verification flag is written false only when an
      account is created and changes only when a verification request names
      that account, and then to true. */
  function Step(store: Store, req: Request): (r: Outcome)
    ensures Evolves(store, r.store)
    ensures WellKeyed(store) ==> WellKeyed(r.store)
    ensures forall e :: e in r.store && e !in store ==>
      req.SignupRequest? && req.email == e && !r.store[e].isVerified
    ensures forall e :: e in store && r.store[e].isVerified != store[e].isVerified ==>
      req.VerifyRequest? && req.decoded == Some(e) && r.store[e].isVerified
  {
    match req
    case SignupRequest(username, email, password, salt, saved, mailSent) =>
      Signup(store, username, email, password, salt, saved, mailSent)
    case VerifyRequest(decoded, saved) =>
      VerifyEmail(store, decoded, saved)
  }

  /** The store after handling `reqs` in order. */
  function Run(store: Store, reqs: seq<Request>): (s: Store)
    decreases |reqs|
  {
    if |reqs| == 0 then store else Run(Step(store, reqs[0]).store, reqs[1..])
  }

  /** Every trace only moves accounts forward: none is removed or altered,
      and none is unverified once verified. */
  lemma {:induction false} RunEvolves(store: Store, reqs: seq<Request>)
    ensures Evolves(store, Run(store, reqs))
    decreases |reqs|
  {
    if |reqs| == 0 {
      EvolvesReflexive(store);
    } else {
      var next := Step(store, reqs[0]).store;
      RunEvolves(next, reqs[1..]);
      EvolvesTransitive(store, next, Run(next, reqs[1..]));
    }
  }

  /** Every trace keeps each account filed under its own email. */
  lemma {:induction false} RunPreservesWellKeyed(store: Store, reqs: seq<Request>)
    requires WellKeyed(store)
    ensures WellKeyed(Run(store, reqs))
    decreases |reqs|
  {
    if |reqs| != 0 {
      RunPreservesWellKeyed(Step(store, reqs[0]).store, reqs[1..]);
    }
  }

  /** Accounts a trace creates are created unverified; an account that is
      verified at the end of a trace was either verified at its start or
      named by a verification request of the trace. */
  lemma {:induction false} VerifiedOnlyByVerification(store: Store, reqs: seq<Request>, e: Email)
    requires e in Run(store, reqs) && Run(store, reqs)[e].isVerified
    ensures (e in store && store[e].isVerified)
      || exists i :: 0 <= i < |reqs| && reqs[i] == VerifyRequest(Some(e), true)
    decreases |reqs|
  {
    if |reqs| != 0 {
      var next := Step(store, reqs[0]).store;
      VerifiedOnlyByVerification(next, reqs[1..], e);
      if e in next && next[e].isVerified {
        if !(e in store && store[e].isVerified) {
          assert reqs[0].VerifyRequest? && reqs[0].decoded == Some(e);
          assert reqs[0] == VerifyRequest(Some(e), true);
        }
      } else {
        var i :| 0 <= i < |reqs[1..]| && reqs[1..][i] == VerifyRequest(Some(e), true);
        assert reqs[i + 1] == VerifyRequest(Some(e), true);
      }
    }
  }

  /** A successful verification, repeated, answers the same and leaves the
      same store; any repetition leaves the store as the first call left it. */
  lemma VerifyEmailIdempotent(store: Store, decoded: Option<Email>, savedAgain: bool)
    ensures var first := VerifyEmail(store, decoded, true);
            var again := VerifyEmail(first.store, decoded, savedAgain);
            again.store == first.store && (savedAgain ==> again == first)
  {
  }

  /** When usernames are unique, login succeeds exactly when the store holds
      a verified account with that username whose hash accepts the password. */
  lemma LoginSucceedsIffCredentialsValid(store: Store, username: Username, password: Password,
                                         found: Option<Account>)
    requires IsUsernameLookup(store, username, found)
    requires UsernameUnique(store, username)
    ensures Login(store, username, password, found).response.status == 200 <==>
      exists e :: e in store && store[e].username == username && store[e].isVerified
        && Matches(password, store[e].password)
  {
  }

  /** The whole happy path for a new email and username: signup answers 200,
      login is refused as unverified until the token is used, verification
      answers 200, then login accepts the password and rejects any other, and
      a second signup with the same email is refused. */
  lemma SignupVerifyLogin(store: Store, username: Username, email: Email, password: Password,
                          wrong: Password, salt: Salt, found: Option<Account>)
    requires email !in store && IsUsernameLookup(store, username, None) && wrong != password
    ensures var signedUp := Signup(store, username, email, password, salt, true, true);
            var verified := VerifyEmail(signedUp.store, Some(SignToken(email).email), true);
            && signedUp.response == Response(200, SignupSuccessful)
            && (IsUsernameLookup(signedUp.store, username, found) ==>
                  Login(signedUp.store, username, password, found).response
                    == Response(400, UserNotVerified))
            && verified.response == Response(200, VerificationSuccessful)
            && (IsUsernameLookup(verified.store, username, found) ==>
                  && Login(verified.store, username, password, found).response
                       == Response(200, LoginSuccessful)
                  && Login(verified.store, username, wrong, found).response
                       == Response(400, PasswordIncorrect))
            && Signup(verified.store, username, email, password, salt, true, true).response
                 == Response(400, UserAlreadyExists)
  {
  }

  /** A signup whose mail dispatch failed answers 400 yet keeps the account,
      so retrying the signup with the same email is refused as a duplicate. */
  lemma StrandedAccountBlocksRetry(store: Store, username: Username, email: Email,
                                   password: Password, salt: Salt, retry: Request)
    requires email !in store
    requires retry.SignupRequest? && retry.email == email
    ensures var failed := Signup(store, username, email, password, salt, true, false);
            && failed.response.status == 400
            && email in failed.store && !failed.store[email].isVerified
            && Step(failed.store, retry).response == Response(400, UserAlreadyExists)
  {
  }

  /** Signup checks only the email, so a new account may take a username
      that another stored account already has, and the store then holds two
      accounts with that username. */
  lemma DuplicateUsernameAdmitted(store: Store, taken: Email, username: Username, email: Email,
                                  password: Password, salt: Salt)
    requires taken in store && store[taken].username == username && email !in store
    ensures var r := Signup(store, username, email, password, salt, true, true);
            r.response.status == 200 && !UsernameUnique(r.store, username)
  {
  }
}
