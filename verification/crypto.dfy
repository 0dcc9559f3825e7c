/**
  The cryptographic collaborators the controllers and the middleware call: password hashing
  and comparison, token signing and access-token validation. Their algorithms are not part
  of the model; each is a function value supplied by the caller, so every property proved
  holds for whatever hashing and signing scheme is plugged in.
 */
module Crypto {
  import opened Wrappers
  import opened UserModel

  /**
    The identity claims signed into a token. `isVerified` is `None` when the claim is
    undefined, which is what the login handler actually sends (see `ClaimsOf`).
   */
  datatype Claims = Claims(id: nat, name: string, email: string, role: Role, isVerified: Option<bool>)

  /** Why an access token was refused: a bad signature or shape, or an elapsed expiry. */
  datatype TokenError = Invalid | Expired

  datatype Crypto = Crypto(
    hashPassword: string -> string,
    verifyPassword: (string, string) -> bool,
    generateAccessToken: Claims -> string,
    generateRefreshToken: Claims -> string,
    validateAccessToken: string -> Result<Claims, TokenError>)

  /** The one fact about hashing the login flow relies on: a password matches its own hash. */
  ghost predicate AcceptsOwnHash(c: Crypto) {
    forall p :: c.verifyPassword(p, c.hashPassword(p))
  }
}
