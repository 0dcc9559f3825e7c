/** Login: the `createTokens` handler of the tokens controller. */
module TokensController {
  import opened Wrappers
  import opened UserModel
  import opened Crypto
  import opened Http

  const EmailRequired := "Email is required"
  const PasswordRequired := "Password is required"
  const BadCredentials := "Incorrect email or password"

  /** The fields of a login request body. */
  datatype LoginBody = LoginBody(email: Option<string>, password: Option<string>)

  /** The refresh-token table: the `token` column of each record, oldest first, duplicates allowed. */
  type RefreshStore = seq<string>

  /**
    The claims built from the matched row. The handler reads `userData.isVerified`, but the
    row's attribute is `is_verified`, so that claim is always undefined.
   */
  function ClaimsOf(u: User): Claims {
    Claims(u.id, u.name, u.email, u.role, None)
  }

  /**
    Two rows yield the same claims exactly when they agree on id, name, email and role:
    neither the password hash nor the verified flag reaches a token.
   */
  lemma ClaimsDetermineIdentity(u: User, v: User)
    ensures ClaimsOf(u) == ClaimsOf(v) <==>
      u.id == v.id && u.name == v.name && u.email == v.email && u.role == v.role
  {
  }

  /**
    Validates email then password, looks the user up by email, compares the password with
    the stored hash, and on a match signs an access and a refresh token from the user's
    claims and records the refresh token. The user store is only read.
   */
  function CreateTokens(users: Users, tokens: RefreshStore, body: LoginBody, crypto: Crypto): (r: Step<RefreshStore>)
    ensures !Present(body.email) ==> r == Step(Response(400, Message(EmailRequired)), tokens)
    ensures Present(body.email) && !Present(body.password) ==>
      r == Step(Response(400, Message(PasswordRequired)), tokens)
    ensures Present(body.email) && Present(body.password) && !EmailTaken(users, body.email.value) ==>
      r == Step(Response(401, Message(BadCredentials)), tokens)
    ensures Present(body.email) && Present(body.password) && UniqueEmails(users) ==>
      forall i :: 0 <= i < |users| && users[i].email == body.email.value ==>
        if crypto.verifyPassword(body.password.value, users[i].hash) then
          var access := crypto.generateAccessToken(ClaimsOf(users[i]));
          var refresh := crypto.generateRefreshToken(ClaimsOf(users[i]));
          r == Step(Response(201, TokenPair(access, refresh)), tokens + [refresh])
        else
          r == Step(Response(401, Message(BadCredentials)), tokens)
    ensures r.response.status == 201 ==>
      r.response.body.TokenPair? && r.state == tokens + [r.response.body.refreshToken]
    ensures r.response.status != 201 ==> r.state == tokens && r.response.body.Message?
  {
    if !Present(body.email) then Step(Response(400, Message(EmailRequired)), tokens)
    else if !Present(body.password) then Step(Response(400, Message(PasswordRequired)), tokens)
    else
      match FindByEmail(users, body.email.value)
      case None => Step(Response(401, Message(BadCredentials)), tokens)
      case Some(u) =>
        if !crypto.verifyPassword(body.password.value, u.hash) then
          Step(Response(401, Message(BadCredentials)), tokens)
        else
          var claims := ClaimsOf(u);
          var access := crypto.generateAccessToken(claims);
          var refresh := crypto.generateRefreshToken(claims);
          Step(Response(201, TokenPair(access, refresh)), tokens + [refresh])
  }

  /**
    An unknown email and a wrong password for a known one get identical responses,
    and neither touches the refresh-token store. (Only the second path runs the password
    comparison, so the two can differ in timing; timing is not modelled.)
   */
  lemma FailuresIndistinguishable(users: Users, tokens: RefreshStore, unknown: LoginBody, wrong: LoginBody, crypto: Crypto)
    requires UniqueEmails(users)
    requires Present(unknown.email) && Present(unknown.password) && !EmailTaken(users, unknown.email.value)
    requires Present(wrong.email) && Present(wrong.password)
    requires exists i :: 0 <= i < |users| && users[i].email == wrong.email.value
                         && !crypto.verifyPassword(wrong.password.value, users[i].hash)
    ensures CreateTokens(users, tokens, unknown, crypto) == CreateTokens(users, tokens, wrong, crypto)
    ensures CreateTokens(users, tokens, wrong, crypto).state == tokens
  {
  }

  /** Every login adds at most one refresh-token record, and exactly one of the returned token on success. */
  lemma RecordCount(users: Users, tokens: RefreshStore, body: LoginBody, crypto: Crypto, t: string)
    ensures var r := CreateTokens(users, tokens, body, crypto);
      multiset(r.state)[t] == multiset(tokens)[t]
        + (if r.response.status == 201 && r.response.body.refreshToken == t then 1 else 0)
  {
  }

  /** Flipping one row's verified flag changes neither whether a lookup finds a row nor the found row's hash and claims. */
  lemma {:induction false} FindIgnoresFlag(users: Users, i: nat, e: string)
    requires i < |users|
    ensures var flipped := users[i := users[i].(isVerified := !users[i].isVerified)];
      var a := FindByEmail(users, e);
      var b := FindByEmail(flipped, e);
      && a.Some? == b.Some?
      && (a.Some? ==> a.value.hash == b.value.hash && ClaimsOf(a.value) == ClaimsOf(b.value))
    decreases |users|
  {
    var flipped := users[i := users[i].(isVerified := !users[i].isVerified)];
    if users[0].email != e {
      if i == 0 {
        assert flipped[1..] == users[1..];
      } else {
        var tail := users[1..];
        assert flipped[1..] == tail[i - 1 := tail[i - 1].(isVerified := !tail[i - 1].isVerified)];
        FindIgnoresFlag(tail, i - 1, e);
      }
    }
  }

  /** The issued tokens do not depend on the stored verified flag of any user. */
  lemma VerifiedFlagIgnored(users: Users, tokens: RefreshStore, body: LoginBody, crypto: Crypto, i: nat)
    requires i < |users|
    ensures var flipped := users[i := users[i].(isVerified := !users[i].isVerified)];
      CreateTokens(flipped, tokens, body, crypto) == CreateTokens(users, tokens, body, crypto)
  {
    if Present(body.email) {
      FindIgnoresFlag(users, i, body.email.value);
    }
  }
}
