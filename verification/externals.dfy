/** The collaborators the authentication controller calls but does not own:
    the password hasher (bcrypt), the token signer (jsonwebtoken) and the
    email reachability check. Each is reduced to the behaviour the controller
    relies on; randomness (the bcrypt salt) is a parameter. */
module Externals {

  type Email = string
  type Username = string
  type Password = string

  /** Random salt drawn by bcrypt on every hash. */
  type Salt = nat

  /** Work factor passed to bcrypt by the password hasher. */
  const SaltRounds: nat := 10

  /** Lifetime claim written into every verification token. */
  const TokenLifetime: string := "1d"

  /** A bcrypt hash, kept as a symbolic term: the cost, the salt and the
      password it was computed from. The term is never a plaintext string, and
      two hashes of the same password differ whenever their salts differ. */
  datatype PasswordHash = Bcrypt(cost: nat, salt: Salt, preimage: Password)

  /** bcrypt.compareSync: does the plaintext re-hash to the stored hash? */
  predicate Matches(password: Password, hash: PasswordHash)
  {
    hash.preimage == password
  }

  /** hashPassword: bcrypt.hashSync with the fixed work factor and a fresh
      salt. The result accepts exactly the password it was computed from. */
  function HashPassword(password: Password, salt: Salt): (h: PasswordHash)
    ensures Matches(password, h)
    ensures forall other :: Matches(other, h) ==> other == password
    ensures h.cost == SaltRounds && h.salt == salt
  {
    Bcrypt(SaltRounds, salt, password)
  }

  /** A signed token; its claims are the email and the expiry. */
  datatype Token = Jwt(email: Email, expiresIn: string)

  /** jwt.sign({ email }, secret, { expiresIn: "1d" }). */
  function SignToken(email: Email): (t: Token)
  {
    Jwt(email, TokenLifetime)
  }

  /** The JavaScript values the controller tests for truthiness. Only
      `PendingPromise` is ever produced; `Undefined` and `Boolean` stand for
      the values a synchronous check could have returned, to show which of
      them are falsy. */
  datatype JsValue = Undefined | Boolean(b: bool) | PendingPromise

  /** JavaScript truthiness: every object, a promise included, is truthy. */
  predicate Truthy(v: JsValue)
  {
    match v
    case Undefined => false
    case Boolean(b) => b
    case PendingPromise => true
  }

  /** isEmailValid is an async function, so a call that is not awaited
      yields a promise, whatever the MX lookup later resolves to; negating
      that value is always false. */
  function IsEmailValid(email: Email): (v: JsValue)
    ensures Truthy(v)
  {
    PendingPromise
  }
}
