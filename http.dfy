/**
 * The servlet session the controllers keep their state in, and the responses they return.
 * Every attribute the controllers store is a string, so the attribute table is a
 * `map<string, string>`; a missing key is Java's `null`.
 */
module Http {
  import opened Wrappers
  import opened WebAuthnTypes

  /** The session key under which a successful authentication records the username; the
      authentication, passkey-management and profile controllers all declare it. */
  const SESSION_AUTHENTICATED_USER := "authenticated_username"

  /** The error message of every 401 the management and profile endpoints send. */
  const NOT_AUTHENTICATED := "Not authenticated"

  datatype Status = Ok | BadRequest | Unauthorized | NotFound | InternalServerError
  {
    function Code(): int {
      match this
      case Ok => 200
      case BadRequest => 400
      case Unauthorized => 401
      case NotFound => 404
      case InternalServerError => 500
    }
  }

  /** What a response carries. `Json` is a JSON text the controller builds by string
      concatenation (or receives from the relying party); the other variants are the
      small maps and records that Spring serialises. */
  datatype Body =
    | NoBody
    | Json(text: string)
    | ErrorMessage(error: string)                                   // {"error": error}
    | Done(message: string)                                         // {"success": true, "message": message}
    | PasskeyList(passkeys: seq<PasskeyInfo>)
    | ProfileData(username: string, displayName: string, email: string)
    | AddPasskeyStarted(username: string)                           // {"success": true, "username": username}
    | AuthStatus(username: string)                                  // {"authenticated": true, "username": username}
    | NotAuthenticatedStatus                                        // {"authenticated": false, "error": "Not authenticated"}

  datatype Response = Response(status: Status, body: Body)

  /** One client's `HttpSession`. */
  class Session {
    var attributes: map<string, string>
    var invalidated: bool

    constructor ()
      ensures attributes == map[] && !invalidated
    {
      attributes := map[];
      invalidated := false;
    }

    /** `getAttribute`, with None for `null`. */
    function GetAttribute(name: string): (r: Option<string>)
      reads this
      ensures r.Some? <==> name in attributes
      ensures r.Some? ==> r.value == attributes[name]
    {
      if name in attributes then Some(attributes[name]) else None
    }

    method SetAttribute(name: string, value: string)
      modifies this
      ensures attributes == old(attributes)[name := value]
      ensures invalidated == old(invalidated)
    {
      attributes := attributes[name := value];
    }

    method RemoveAttribute(name: string)
      modifies this
      ensures attributes == old(attributes) - {name}
      ensures invalidated == old(invalidated)
    {
      attributes := attributes - {name};
    }

    /** `invalidate`: unbinds every attribute; the container serves the next request of
        this client with a new session. */
    method Invalidate()
      modifies this
      ensures attributes == map[] && invalidated
    {
      attributes := map[];
      invalidated := true;
    }
  }
}
