/** What a handler or the guard leaves on the request and the response:
    the status code and the JSON body, reduced to its message and the
    documents it carries. */
module Http {
  import opened Wrappers
  import opened UserModel

  datatype Body =
    | Error(error: string)                  // { error: "<message>" }
    | Thrown                                // { error: error.message } of a caught exception
    | Record(user: User, message: string)   // { ...doc, message }
    | LoggedIn(token: string, user: User)   // { token, user }
    | UserList(users: seq<User>)            // { users }

  datatype Response = Response(status: nat, body: Body)

  /** `req.user`: not yet set, set to the `null` of a lookup that found
      nothing, or set to a document. */
  datatype Identity = Unset | Null | Attached(user: User)

  /** One request as the guard sees it: its `authorization` header and what
      the guard may do to it (set `req.user`, respond, call `next`). */
  class Request {
    const authorization: Option<string>
    var user: Identity
    var response: Option<Response>
    var nextCalls: nat

    constructor (authorization: Option<string>)
      ensures this.authorization == authorization
      ensures user == Unset && response.None? && nextCalls == 0
    {
      this.authorization := authorization;
      user := Unset;
      response := None;
      nextCalls := 0;
    }
  }

  /** JavaScript truthiness of a string that may be `undefined`. */
  predicate Truthy(s: Option<string>)
  {
    s.Some? && s.value != ""
  }
}
