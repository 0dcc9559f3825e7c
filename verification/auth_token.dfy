/** The bearer-token middleware `authenticateToken`. */
module AuthToken {
  import opened Wrappers
  import opened Crypto
  import opened Http
  import opened JsString

  const TokenRequired := "Access token required"
  const InvalidToken := "Invalid access token"

  /**
    `authHeader?.split(" ")[1]`: field 1 of the header split at single spaces. The scheme
    word in field 0 is never looked at.
   */
  function ExtractToken(authorization: Option<string>): (token: Option<string>)
    ensures authorization.None? ==> token.None?
    ensures authorization.Some? ==> token == SecondField(authorization.value, ' ')
    ensures token.Some? ==> ' ' !in token.value
  {
    match authorization
    case None => None
    case Some(header) =>
      var parts := Split(header, ' ');
      SecondFieldOfSplit(header, ' ');
      if |parts| > 1 then Some(parts[1]) else None
  }

  /**
    What one pass through the middleware does: the token handed to the validator (if it
    was called), the response sent (if any), the user attached to the request (if any),
    and how many times `next` was called.
   */
  datatype GateOutcome = GateOutcome(
    validatorInput: Option<string>,
    response: Option<Response>,
    user: Option<Claims>,
    nextCalls: nat)

  /** The token the gate acts on: field 1 of the header, when it is there and not empty. */
  predicate HasToken(authorization: Option<string>) {
    authorization.Some? && Present(SecondField(authorization.value, ' '))
  }

  /**
    A missing or empty token is answered 400 without consulting the validator; a token the
    validator rejects is answered 401; otherwise the decoded user is attached and `next`
    runs. Exactly one of "respond" and "continue" happens.
   */
  function AuthenticateToken(authorization: Option<string>, crypto: Crypto): (g: GateOutcome)
    ensures g.nextCalls <= 1
    ensures g.response.None? <==> g.nextCalls == 1
    ensures g.user.Some? <==> g.nextCalls == 1
    ensures !HasToken(authorization) <==> g.response == Some(Response(400, Message(TokenRequired)))
    ensures !HasToken(authorization) ==> g.validatorInput.None? && g.user.None?
    ensures HasToken(authorization) ==>
      var token := SecondField(authorization.value, ' ').value;
      && g.validatorInput == Some(token)
      && match crypto.validateAccessToken(token)
         case Failure(_) => g.response == Some(Response(401, Message(InvalidToken))) && g.user.None?
         case Success(user) => g.user == Some(user)
  {
    Decide(ExtractToken(authorization), crypto)
  }

  /** The decision once the token has been taken out of the header. */
  function Decide(token: Option<string>, crypto: Crypto): GateOutcome {
    if !Present(token) then
      GateOutcome(None, Some(Response(400, Message(TokenRequired))), None, 0)
    else
      match crypto.validateAccessToken(token.value)
      case Failure(_) => GateOutcome(token, Some(Response(401, Message(InvalidToken))), None, 0)
      case Success(user) => GateOutcome(token, None, Some(user), 1)
  }

  /** Field 1 of `w + " " + t`, for a space-free word `w`: the text of `t` up to its first space. */
  lemma TokenAfterWord(w: string, t: string)
    requires ' ' !in w
    ensures ExtractToken(Some(w + " " + t)) == Some(t[..FirstIndex(t, ' ')])
  {
    var h := w + " " + t;
    assert h == w + [' '] + t;
    FirstIndexAfterWord(w, t, ' ');
    assert h[|w| + 1..] == t;
  }

  /** The well-formed case: `"Bearer " + t` for a non-empty `t` without spaces hands `t` to the validator. */
  lemma BearerHeader(t: string, crypto: Crypto)
    requires t != "" && ' ' !in t
    ensures ExtractToken(Some("Bearer " + t)) == Some(t)
    ensures AuthenticateToken(Some("Bearer " + t), crypto).validatorInput == Some(t)
  {
    TokenAfterWord("Bearer", t);
    assert t[..|t|] == t;
  }

  /** The scheme word is not checked: any space-free word in its place gives the same outcome. */
  lemma SchemeIgnored(scheme: string, rest: string, crypto: Crypto)
    requires ' ' !in scheme
    ensures AuthenticateToken(Some(scheme + " " + rest), crypto) == AuthenticateToken(Some("Bearer " + rest), crypto)
  {
    TokenAfterWord(scheme, rest);
    TokenAfterWord("Bearer", rest);
    assert "Bearer" + " " + rest == "Bearer " + rest;
  }

  /** A missing header, or one without any space (such as `"abc"` or `""`), is answered 400. */
  lemma NoSpaceMeansNoToken(authorization: Option<string>, crypto: Crypto)
    requires authorization.Some? ==> ' ' !in authorization.value
    ensures ExtractToken(authorization).None?
    ensures AuthenticateToken(authorization, crypto).response == Some(Response(400, Message(TokenRequired)))
    ensures AuthenticateToken(authorization, crypto).validatorInput.None?
  {
  }

  /**
    A space right after the first one leaves field 1 empty, so `"Bearer "` and `"Bearer  x"`
    are answered 400 exactly like a missing header.
   */
  lemma EmptyFieldMeansNoToken(scheme: string, tail: string, crypto: Crypto)
    requires ' ' !in scheme
    requires tail == [] || tail[0] == ' '
    ensures ExtractToken(Some(scheme + " " + tail)) == Some("")
    ensures AuthenticateToken(Some(scheme + " " + tail), crypto) == AuthenticateToken(None, crypto)
  {
    TokenAfterWord(scheme, tail);
    assert FirstIndex(tail, ' ') == 0;
  }

  /** Whatever follows field 1 is dropped: `"Bearer a b"` hands `"a"` to the validator. */
  lemma LaterFieldsIgnored(scheme: string, token: string, tail: string)
    requires ' ' !in scheme && ' ' !in token
    ensures ExtractToken(Some(scheme + " " + token + " " + tail)) == Some(token)
  {
    assert scheme + " " + token + " " + tail == scheme + " " + (token + " " + tail);
    TokenAfterWord(scheme, token + " " + tail);
    assert token + " " + tail == token + [' '] + tail;
    FirstIndexAfterWord(token, tail, ' ');
    assert (token + " " + tail)[..|token|] == token;
  }
}
