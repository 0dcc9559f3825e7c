/** The response shapes the handlers produce and the JavaScript notion of a present field. */
module Http {
  import opened Wrappers
  import opened UserModel

  /** The JSON body of a response. */
  datatype Body =
    | Message(text: string)
    | Created(user: User)
    | TokenPair(accessToken: string, refreshToken: string)

  datatype Response = Response(status: int, body: Body)

  /** A handler's response together with the store it leaves behind. */
  datatype Step<S> = Step(response: Response, state: S)

  /**
    A request field passes a `!field` guard when it is defined and truthy; for a string
    that means non-empty.
   */
  predicate Present(field: Option<string>) {
    field.Some? && field.value != ""
  }
}
