# Registration, login and bearer-token gate of a small user API

This project models, in Dafny, the three pieces of decision logic of a small Express/Sequelize
REST API:

- **Registration** (`createUser`): checks that `name`, `email` and `password` are present, in
  that order; refuses an email that is already stored with 409; otherwise inserts a user
  whose `hash` is the hashed password and answers 201 with the stored row.
- **Login** (`createTokens`): checks `email`, then `password`; answers one and the same 401
  for an unknown email and for a wrong password; on success signs an access and a refresh
  token from the user's claims (with token functions the model assumes, see Left out), records the refresh token, and answers 201 with both.
- **Bearer-token gate** (`authenticateToken`): takes field 1 of the `Authorization` header
  split at single spaces; a missing or empty field gives 400 without calling the validator;
  a validator error gives 401 (the validator is likewise assumed); otherwise the decoded user is attached and `next` runs once.

Each handler is a pure function. The two controllers map the store and the request to a
response and the new store (`Step`); the middleware maps the header to a `GateOutcome`. The user store is a sequence of `User` rows in insertion order. The unique
constraint on `email` leaves at most one match for a lookup by email; where a store has
several, the model takes the first. The refresh-token store is a sequence of token strings,
because the `token` column has no unique constraint. Password hashing, password comparison,
token signing and access-token validation are opaque function values in a `Crypto` record,
so every result holds for any scheme plugged in. The login success path needs one extra
fact, `AcceptsOwnHash`: a password matches its own hash. It is stated as a precondition.

`String.prototype.split` with a one-character separator is modelled by `JsString.Split`.
It is proved inverse to `Join` in both directions. It is also proved to agree with a
positional description of field 1 (`SecondField`), and the gate's contract uses that
description.

Files: `wrappers.dfy` (Option, Result), `user.dfy` (User row, store, constraints),
`crypto.dfy` (collaborator signatures, claims), `http.dfy` (responses, field presence),
`users_controller.dfy`, `tokens_controller.dfy`, `js_string.dfy`, `auth_token.dfy`,
`scenarios.dfy` (registration followed by login).

Three behaviours of the code worth noting:
- the 201 body of registration is the stored row, `hash` included;
- the gate never looks at the scheme word, so `"Basic abc"` is treated like `"Bearer abc"`;
- the login handler reads `userData.isVerified` while the column is `is_verified`. The
  `isVerified` claim is therefore always undefined (`None` in `Claims`), and the issued
  tokens never depend on the stored flag (`TokensController.VerifiedFlagIgnored`).

## Model

| member | source | states |
|---|---|---|
| UserModel.FindByEmail | api/controllers/users.controller.js:24-26 | the lookup finds a user exactly when some stored user has that email; the user found has that email; in a store with unique emails it is the only one |
| UserModel.FreshId | api/db/models/user.js:11-16 | the primary key given to a new row is carried by no stored user |
| UserModel.NewUser | api/db/models/user.js:30-39 | a created row has the given name, email and hash, role USER, is_verified false and a fresh id |
| UserModel.InsertValid | api/db/models/user.js:17-29 | appending a row to a valid store keeps email and id unique and name and email non-empty, exactly when the row's email and id are unused and its name and email non-empty |
| UserModel.CountEmailValid | api/db/models/user.js:21-25 | under the unique constraint at most one stored user has a given email, and none exactly when the email is not taken |
| UsersController.CreateUser | api/controllers/users.controller.js:11-48 | missing name, then email, then password give 400 with the matching message and no change; a taken email gives 409 and no change; otherwise (within the column length limit listed under Left out) exactly one row is appended with the request's name and email, the hashed password, default role and flag and a fresh id, and the response is 201 with that row; the store changes exactly when the status is 201; validity of the store is preserved |
| UsersController.RegisterAllValid | api/controllers/users.controller.js:24-42 | after any sequence of registrations no two users share an email or id, and each email belongs to at most one user |
| UsersController.RegisterTwice | api/controllers/users.controller.js:24-44 | registering the same complete request twice gives 201 then 409, and one user holds that email |
| TokensController.ClaimsDetermineIdentity | api/controllers/tokens.controller.js:40-46 | two rows give equal claims exactly when they agree on id, name, email and role, so the hash and the verified flag never reach a token |
| TokensController.CreateTokens | api/controllers/tokens.controller.js:8-59 | missing email, then password give 400; an unknown email gives 401; for the user with that email a failed comparison gives the same 401 and a successful one gives 201 with tokens signed from its claims and the refresh token appended; every non-201 answer leaves the token store unchanged |
| TokensController.FailuresIndistinguishable | api/controllers/tokens.controller.js:17-38 | an unknown email and a wrong password get identical responses (status and body), and both leave the token store unchanged |
| TokensController.RecordCount | api/controllers/tokens.controller.js:48-55 | a login adds one record of the returned refresh token on success and no record otherwise, counted per token value |
| TokensController.VerifiedFlagIgnored | api/controllers/tokens.controller.js:40-46 | in any store, flipping a stored user's is_verified flag does not change any login result |
| JsString.Split | api/middleware/auth-token.js:5 | the split has one more field than the string has separators, and no field contains the separator |
| JsString.JoinSplit | api/middleware/auth-token.js:5 | joining the fields of a split with the separator gives back the string |
| JsString.SplitJoin | api/middleware/auth-token.js:5 | splitting a join of separator-free fields gives back the fields |
| JsString.SecondFieldOfSplit | api/middleware/auth-token.js:5 | index 1 of the split is the text between the first separator and the next one (or the end), and is undefined when there is no separator |
| AuthToken.ExtractToken | api/middleware/auth-token.js:4-5 | an absent header gives no token; otherwise the token is field 1 by position, and it contains no space |
| AuthToken.AuthenticateToken | api/middleware/auth-token.js:3-18 | no token or an empty one gives 400 and no validator call; otherwise the validator gets that token, an error gives 401, success attaches the decoded user; exactly one of a response and a single `next` call happens |
| AuthToken.BearerHeader | api/middleware/auth-token.js:5-11 | `"Bearer " + t` with a non-empty space-free `t` yields `t` and hands it to the validator |
| AuthToken.SchemeIgnored | api/middleware/auth-token.js:5 | any space-free scheme word gives the same gate outcome as `Bearer` |
| AuthToken.NoSpaceMeansNoToken | api/middleware/auth-token.js:4-9 | a missing header or one without a space yields no token, 400, and no validator call |
| AuthToken.EmptyFieldMeansNoToken | api/middleware/auth-token.js:5-9 | a space right after the first space (or nothing after it) yields an empty token and the same outcome as a missing header |
| AuthToken.LaterFieldsIgnored | api/middleware/auth-token.js:5 | text after field 1 is dropped: `scheme + " " + t + " " + rest` yields `t` |
| Scenarios.RegisterThenLogin | api/controllers/tokens.controller.js:17-55 | after a fresh registration, logging in with the same credentials gives 201 with tokens signed from the new user's claims and appends the refresh token, when a password matches its own hash |
| Scenarios.RegisterThenWrongPassword | api/controllers/tokens.controller.js:29-38 | after a registration, a password that does not match the stored hash gets the shared 401 and the token store is unchanged |

## Left out

- The token functions `generateAccessToken`, `generateRefreshToken` and `validateAccessToken` are imported by the login handler and the middleware, but the cryptography module (api/utils/cryptography/index.js) defines only `hashPassword` and `verifyPassword`. As written, a login with a correct password fails when it calls the missing signer. So does every request with a non-empty token, at the missing validator. The error reaches the generic error handler, which answers 500 and stores no token record. The model assumes the three functions exist and takes them as fields of `Crypto`. On those paths it therefore answers 201, 401 or continues, as the tests expect, not 500.
- Password hashing and comparison (bcrypt) and the token functions are opaque function parameters. Salts, work factors, signatures and token expiry are not modelled. An expired token is one more validator error, answered 401 like any other.
- The stub handlers `getUsers`, `getUserById`, `updateUser`, `deleteUser`, `updateAccessToken` and `deleteRefreshToken` are left out because their bodies are empty. The listing filters, admin and ownership checks, refresh and revoke behaviours that the tests expect are not implemented by any of this code.
- The HTTP and process wiring is left out: routers, app setup, server start, the HTTP test client and response content types. `authenticateToken` is modelled on its own, because the users router does not mount it; the tokens router is not part of this model.
- Storage failures are left out: an error thrown by the database or the hasher goes to `next(error)` and a 500 answer, and the model does not include that path.
- Concurrency is left out: each handler call is one atomic step. The race between the email check and the insert is not modelled.
- UserModel.FreshId: the random UUIDv4 primary key is replaced by a deterministic fresh number. The model assumes a generated key never collides.
- TokensController.CreateTokens: the 401/201 outcome for a known email is stated only for stores with unique emails. No valid store has duplicates. If one did, the database query would return an unspecified matching row, while the model takes the first (`UserModel.FindByEmail`).
- UsersController.CreateUser: the 255-character limit of the `name` and `email` columns (`STRING`, which is VARCHAR(255)) is not modelled. The database rejects an insert whose name or email is longer, unless the excess is only spaces. The handler then passes the error to `next(error)`, which answers 500 and adds no row. In that case the model answers 201 and appends the row.
- TokensController.FailuresIndistinguishable: the two 401 answers are identical in status, body and store, but not in timing. The unknown-email path skips the password comparison, and timing is not modelled.
- Creation and update timestamps of both tables, and the id column of refresh-token records, are not modelled.
- Request-body fields are modelled as absent or a string. Non-string JSON values (numbers, booleans, null, objects) are not modelled. Their truthiness would follow JavaScript rules.
- Multiple `Authorization` headers and non-string header values are not modelled.
