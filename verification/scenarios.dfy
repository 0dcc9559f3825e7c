/** Registration followed by login, across the two controllers. */
module Scenarios {
  import opened Wrappers
  import opened UserModel
  import opened Crypto
  import opened Http
  import UsersController
  import TokensController

  /**
    A fresh registration followed by a login with the same credentials issues both tokens
    for the new user and records the refresh token, provided a password matches its own hash.
   */
  lemma RegisterThenLogin(users: Users, tokens: TokensController.RefreshStore,
                          name: string, email: string, password: string, crypto: Crypto)
    requires Valid(users) && AcceptsOwnHash(crypto)
    requires name != "" && email != "" && password != ""
    requires !EmailTaken(users, email)
    ensures var reg := UsersController.CreateUser(users, UsersController.RegisterBody(Some(name), Some(email), Some(password)), crypto);
      && reg.response.status == 201
      && var claims := TokensController.ClaimsOf(reg.response.body.user);
         TokensController.CreateTokens(reg.state, tokens, TokensController.LoginBody(Some(email), Some(password)), crypto)
           == Step(Response(201, TokenPair(crypto.generateAccessToken(claims), crypto.generateRefreshToken(claims))),
                   tokens + [crypto.generateRefreshToken(claims)])
  {
  }

  /** After registering, a password that does not match the stored hash is refused with the shared 401. */
  lemma RegisterThenWrongPassword(users: Users, tokens: TokensController.RefreshStore,
                                  name: string, email: string, password: string, wrong: string, crypto: Crypto)
    requires Valid(users)
    requires name != "" && email != "" && password != "" && wrong != ""
    requires !EmailTaken(users, email)
    requires !crypto.verifyPassword(wrong, crypto.hashPassword(password))
    ensures var reg := UsersController.CreateUser(users, UsersController.RegisterBody(Some(name), Some(email), Some(password)), crypto);
      TokensController.CreateTokens(reg.state, tokens, TokensController.LoginBody(Some(email), Some(wrong)), crypto)
        == Step(Response(401, Message(TokensController.BadCredentials)), tokens)
  {
  }
}
