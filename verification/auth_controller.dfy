/** The three request handlers of the authentication controller, each a
    transition from the current account store to an HTTP response and the
    store after the request. The outcomes of the collaborators the handlers
    await (document saves, token verification, mail dispatch) are inputs. */
module AuthController {

  import opened Wrappers
  import opened Externals
  import opened Accounts

  /** The message of every response the handlers send. */
  datatype Message =
    | DomainCannotReceiveMail
    | UserAlreadyExists
    | SignupSuccessful
    | SignupFailed
    | VerificationSuccessful
    | InvalidToken
    | VerificationFailed
    | UserDoesNotExist
    | UserNotVerified
    | PasswordIncorrect
    | LoginSuccessful

  datatype Response = Response(status: int, message: Message)

  /** What a handler sends and the store it leaves behind. */
  datatype Outcome = Outcome(response: Response, store: Store)

  /** The account a successful signup stores: unverified, holding a hash that
      accepts exactly the submitted password, and the token issued for it. */
  ghost predicate FreshAccount(a: Account, username: Username, email: Email, password: Password)
  {
    && a.username == username
    && a.email == email
    && !a.isVerified
    && Matches(password, a.password)
    && (forall other :: Matches(other, a.password) ==> other == password)
    && a.verificationToken == SignToken(email)
  }

  /** `after` is `before` with exactly one account added, under `email`. */
  predicate AddsOnly(before: Store, after: Store, email: Email)
  {
    && email !in before
    && after.Keys == before.Keys + {email}
    && forall e :: e in before ==> after[e] == before[e]
  }

  /** `after` is `before` with only the account under `email` marked verified. */
  predicate VerifiesOnly(before: Store, after: Store, email: Email)
  {
    && email in before
    && after.Keys == before.Keys
    && after[email] == before[email].(isVerified := true)
    && forall e :: e in before && e != email ==> after[e] == before[e]
  }

  /** POST /signup. `salt` is the randomness of the hash, `saved` whether
      newUser.save() resolved, `mailSent` what sendVerificationMail returned.
      The domain check never rejects: the promise is not awaited. */
  function Signup(store: Store, username: Username, email: Email, password: Password,
                  salt: Salt, saved: bool, mailSent: bool): (r: Outcome)
    ensures r.response.message != DomainCannotReceiveMail
    ensures r.response.status == 200 || r.response.status == 400
    ensures email in store ==> r == Outcome(Response(400, UserAlreadyExists), store)
    ensures email !in store && !saved ==> r == Outcome(Response(400, SignupFailed), store)
    ensures email !in store && saved ==>
      AddsOnly(store, r.store, email) && FreshAccount(r.store[email], username, email, password)
    ensures email !in store && saved && !mailSent ==> r.response == Response(400, SignupFailed)
    ensures r.response.status == 200 <==> email !in store && saved && mailSent
    ensures r.response.status == 200 ==> r.response.message == SignupSuccessful
  {
    if !Truthy(IsEmailValid(email)) then
      Outcome(Response(400, DomainCannotReceiveMail), store)
    else if FindByEmail(store, email).Some? then
      Outcome(Response(400, UserAlreadyExists), store)
    else
      var hashed := HashPassword(password, salt);
      var token := SignToken(email);
      var account := Account(username, email, hashed, false, token);
      if !saved then
        Outcome(Response(400, SignupFailed), store)
      else
        var stored := store[email := account];
        if !mailSent then Outcome(Response(400, SignupFailed), stored)
        else Outcome(Response(200, SignupSuccessful), stored)
  }

  /** GET /verify-email. `decoded` is the email jwt.verify extracted from the
      query token, or None when it threw (absent, malformed, tampered or
      expired token); `saved` is whether user.save() resolved. */
  function VerifyEmail(store: Store, decoded: Option<Email>, saved: bool): (r: Outcome)
    ensures decoded.None? ==> r == Outcome(Response(500, VerificationFailed), store)
    ensures decoded.Some? && decoded.value !in store ==>
      r == Outcome(Response(400, InvalidToken), store)
    ensures decoded.Some? && decoded.value in store && !saved ==>
      r == Outcome(Response(500, VerificationFailed), store)
    ensures r.response.status == 200 <==> decoded.Some? && decoded.value in store && saved
    ensures r.response.status == 200 ==>
      r.response.message == VerificationSuccessful && VerifiesOnly(store, r.store, decoded.value)
    ensures r.response.status != 200 ==> r.store == store
  {
    match decoded
    case None => Outcome(Response(500, VerificationFailed), store)
    case Some(email) =>
      match FindByEmail(store, email)
      case None => Outcome(Response(400, InvalidToken), store)
      case Some(user) =>
        if saved then
          Outcome(Response(200, VerificationSuccessful), store[email := user.(isVerified := true)])
        else
          Outcome(Response(500, VerificationFailed), store)
  }

  /** POST /login. `found` is what User.findOne({ username }) returned. The
      three conditions are checked in a fixed order: existence, then
      verification, then the password. */
  function Login(store: Store, username: Username, password: Password,
                 found: Option<Account>): (r: Outcome)
    requires IsUsernameLookup(store, username, found)
    ensures r.store == store
    ensures r.response.status == 200 || r.response.status == 400
    ensures r.response.status == 200 <==>
      found.Some? && found.value.isVerified && Matches(password, found.value.password)
    ensures found.None? ==> r.response.message == UserDoesNotExist
    ensures found.Some? && !found.value.isVerified ==> r.response.message == UserNotVerified
    ensures found.Some? && found.value.isVerified && !Matches(password, found.value.password) ==>
      r.response.message == PasswordIncorrect
    ensures r.response.status == 200 ==>
      && r.response.message == LoginSuccessful
      && exists e :: e in store && store[e].username == username && store[e].isVerified
           && Matches(password, store[e].password)
  {
    match found
    case None => Outcome(Response(400, UserDoesNotExist), store)
    case Some(user) =>
      if !user.isVerified then Outcome(Response(400, UserNotVerified), store)
      else if !Matches(password, user.password) then Outcome(Response(400, PasswordIncorrect), store)
      else Outcome(Response(200, LoginSuccessful), store)
  }
}
