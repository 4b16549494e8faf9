# Account lifecycle of the authentication service

This project models the authentication controller of a small Express/MongoDB
user service: `signup`, `verifyEmail` and `login` in
`src/controllers/AuthController.js`. Together they form a state machine over the
account store. An account goes from absent to pending (stored, `isVerified`
false) to verified. Login is a read-only decision procedure.

Each handler is a pure Dafny function from the current store, the request
fields and the outcomes of the collaborators it calls to an `Outcome`, which
holds the HTTP response (status and message) and the store afterwards.

- `wrappers.dfy`: `Option`.
- `externals.dfy`: the collaborators, reduced to what the controller relies on.
  - bcrypt is a symbolic `PasswordHash` term (cost 10, salt, preimage); the random salt is a parameter, and `Matches` is `compareSync`.
  - The jsonwebtoken claims are `{ email }` with a `"1d"` expiry.
  - `IsEmailValid` is an async function, so a call that is not awaited yields a promise, which is always truthy.
- `accounts.dfy`: the User collection as `map<Email, Account>`, lookup by email, the set of answers `findOne({ username })` may give, and the `Evolves` relation between an earlier and a later store.
- `auth_controller.dfy`: the three handlers.
- `lifecycle.dfy`: one step and whole traces of store-changing requests, plus the lifecycle lemmas.

Collaborator outcomes that the model takes as inputs:
- whether `save()` resolved (`saved`);
- the email `jwt.verify` decoded from the query token, or `None` when it threw (`decoded`);
- the truthiness of the value `sendVerificationMail` returned (`mailSent`); the call at line 52 is not awaited;
- which account `findOne({ username })` returned (`found`). Any account with that username is allowed, because usernames are not kept unique.

Behaviour of the code that the model keeps:
- `isEmailValid` is not awaited at line 13, so `!isEmailValid(email)` is always false and the domain branch is dead. The model keeps that branch, and `Signup` proves it never answers `DomainCannotReceiveMail`.
- Signup checks only the email (line 21), so usernames are not kept unique. `DuplicateUsernameAdmitted` proves that a signup with a username already in use succeeds and leaves two accounts with that username. A unique index in the schema, which is not part of this model, would surface as a failed save (`saved` false).
- `resetPassword` is an empty stub, and `resetPage` and `reset`, imported by the routes, are not defined in the controller.

## Model

| member | source | states |
|---|---|---|
| Externals.IsEmailValid | src/utils/checkEmail.js:3-9 | the async check yields a truthy value to a caller that does not await it, whatever the MX lookup finds |
| Externals.HashPassword | src/utils/hashPassword.js:3-7 | the hash uses work factor 10 and the given salt, and accepts the hashed password and no other |
| Accounts.FindByEmail | src/controllers/AuthController.js:21-22 | in a well-keyed store, an account is found iff some stored account carries that email, and the one found carries it |
| AuthController.Signup | src/controllers/AuthController.js:8-62 | the domain check never rejects. A stored email gives 400 and no change. A failed save gives 400 and no change. Otherwise exactly one account is added: unverified, with a hash accepting exactly the password, and the issued token. A mail failure then gives 400 with the account kept. 200 iff new email, saved and mail sent |
| AuthController.VerifyEmail | src/controllers/AuthController.js:65-91 | an undecodable token gives 500 and no change. An unknown email gives 400 and no change. A failed save gives 500 and no change. 200 iff the account exists and the save succeeds, and then only that account's flag is set |
| AuthController.Login | src/controllers/AuthController.js:93-135 | the store is never changed. 200 iff the found account is verified and its hash matches. Failures come in the order not-found, not-verified, wrong-password, each as 400. A 200 implies some stored account with that username is verified and matches |
| Lifecycle.Step | src/controllers/AuthController.js:42-78 | a request never removes or alters an account except its flag. A new account starts unverified. A flag changes only on a verification naming that account, and only to true. Well-keyedness is kept |
| Lifecycle.RunEvolves | src/controllers/AuthController.js:42-78 | over any sequence of signups and verifications, no account is lost or altered and no verified account becomes unverified |
| Lifecycle.RunPreservesWellKeyed | src/controllers/AuthController.js:21-50 | over any trace every account stays filed under its own email |
| Lifecycle.VerifiedOnlyByVerification | src/controllers/AuthController.js:46-74 | an account verified after a trace was verified before it, or was named by a saved verification in it |
| Lifecycle.VerifyEmailIdempotent | src/controllers/AuthController.js:71-78 | repeating a successful verification gives the same response and store; any repetition leaves the store unchanged |
| Lifecycle.LoginSucceedsIffCredentialsValid | src/controllers/AuthController.js:97-134 | with a unique username, login answers 200 iff a stored account with it is verified and accepts the password |
| Lifecycle.SignupVerifyLogin | src/controllers/AuthController.js:8-134 | for a fresh email and username: signup 200, login refused as unverified, verification 200, login 200 with the password and 400 with any other, repeated signup 400 |
| Lifecycle.StrandedAccountBlocksRetry | src/controllers/AuthController.js:21-61 | a signup whose mail failed answers 400 but keeps an unverified account, so a retry with that email is refused as existing |
| Lifecycle.DuplicateUsernameAdmitted | src/controllers/AuthController.js:20-50 | for every store holding an account with a given username, a saved and mailed signup under a new email with that username answers 200 and leaves the username held by two accounts |

## Left out

- `resetPassword` (src/controllers/AuthController.js:137-139) is an empty stub that sends no response. `resetPage` and `reset` are imported by the routes (src/routes/src/authRoutes.js:7-8) but not defined in the controller. There is nothing to model for them. The consequence is that the service as shown cannot start. Under native ES modules the missing named exports fail when the modules link. Under a CommonJS build, registering `undefined` as a handler at src/routes/src/authRoutes.js:17-18 throws. Either way src/index.js never reaches `listen`. The model describes the three handlers as if the routes had loaded.
- The MX lookup in `isEmailValid` is network I/O and is not modelled. Its result never reaches `signup`.
- AuthController.Signup: does not model the rejection of the discarded `isEmailValid` promise. `resolveMx` rejects for an unknown domain, and also for an existing domain that has no MX records (ENODATA). For an email without "@" it is called with `undefined` and throws. No handler is registered for that rejection (src/index.js), and Node 15 or later ends the process on an unhandled rejection by default. The DNS answer may come before or after the `findOne` at line 21, the save and the response. So the program may send no response and make no write, or it may answer and store the account and then stop. Either way every later request goes unanswered. The model answers as if the check had passed and has no notion of the process ending.
- bcrypt internals: salting and the work factor are not computed, and the salt is a parameter.
- Externals.HashPassword: `Matches` accepts exactly the password the hash was computed from. bcryptjs uses only the first 72 bytes of the password's UTF-8 encoding, so any two passwords sharing those bytes match the same hash. The model does not encode strings to bytes and does not promise that truncation.
- Lifecycle.SignupVerifyLogin: its clause that login with any other password answers 400 relies on the idealised `Matches`. In the program, a different password that shares the first 72 UTF-8 bytes of a longer one is accepted.
- jsonwebtoken signature and expiry checking, and time in general. Only the decoded outcome enters `VerifyEmail`.
- `sendVerificationMail` (src/services/mailer.js) is not part of this model. Its call at line 52 is not awaited, so `mailSent` is only the truthiness of what it returns. If the mailer is async, that value is a promise, always truthy, and the mail-failure branch at lines 53-55 is dead. The boolean input covers both cases. `StrandedAccountBlocksRetry` then describes only a mailer that returns false synchronously. If an async mailer's promise rejects, nothing handles the rejection, because the promise is only kept in `status`. By then the program has already stored the account and answered 200. Under Node 15 or later the process then exits, and every later request goes unanswered. `mailSent` does not cover that outcome.
- Store reads that reject are not modelled. In `signup` (line 21) and `login` (line 97) such a read is outside any `try`, so no response is sent. In `verifyEmail` it would give 500. Exceptions thrown by `hashPassword` or `jwt.sign` outside the `try` of `signup` are not modelled either.
- Response bodies are reduced to a status and a `Message` tag per distinct message text; console logging is dropped.
- Express routing, CORS, body parsing and the Mongoose connection (src/index.js, src/routes) are glue.
- Concurrent interleaving of requests, including the race between the existence check and the save in `signup`, is not modelled: the code has no coordination, and each handler is taken as atomic.
- AuthController.Login: request fields are taken to be strings. `bodyParser.json()` (src/index.js:10) admits any JSON value, or none, and this has two effects the model excludes. First, a non-string or missing password makes `bcrypt.compareSync` at line 117 throw once a verified account is found. That throw is outside any `try`, so no response is sent and, under Node 15 or later, the process exits. Second, an operator object such as `{"$ne": null}` as the username turns `findOne({ username })` at line 97 into a query. That query can return an account that does not carry the submitted username, and login may then answer 200 for it. The `IsUsernameLookup` precondition and the clause that a 200 implies a stored account with that username hold only for string usernames.
- Signup and verification requests are likewise taken to carry strings. Operator objects or missing fields in `signup`'s body, and a non-string decoded email, are not modelled.
- Login requests are not part of `Lifecycle.Request` traces. `AuthController.Login` proves that login leaves the store unchanged, so traces that include logins pass through the same stores.
- Lifecycle.LoginSucceedsIffCredentialsValid: additionally requires the username to be unique. Without uniqueness, `findOne` may return a different account with that username, and only `AuthController.Login`'s weaker guarantee holds.
