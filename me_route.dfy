/**
 * The `GET /api/auth/me` handler: read the `auth-token` cookie, verify it,
 * look the user up and answer with the user's public fields. Token
 * verification and the database are parameters.
 */
module MeRoute {
  import opened Wrappers

  /** A stored user as the lookup returns it (the password is not selected). */
  datatype User = User(id: int, email: string, name: string, createdAt: string, updatedAt: string)

  /** The claims of a verified session token. */
  datatype Payload = Payload(userId: int, email: string)

  /** How `getUserById` settles: with a row, with nothing, or by rejecting. */
  datatype Lookup = Found(user: User) | NotFound | Failed

  /** The fields the handler sends back. */
  datatype PublicUser = PublicUser(id: int, email: string, name: string, createdAt: string)

  datatype Body = UserBody(user: PublicUser) | ErrorBody(error: string)

  datatype Response = Response(status: int, body: Body)

  const NoToken: string := "No authentication token found"
  const BadToken: string := "Invalid or expired token"
  const NoUser: string := "User not found"
  const ServerError: string := "Internal server error"

  /** The handler's decision for a cookie value, a token verifier and a user store. */
  function Me(cookie: Option<string>, verify: string -> Option<Payload>, getUser: int -> Lookup): (resp: Response)
    ensures (cookie.None? || cookie.value == []) ==> resp == Response(401, ErrorBody(NoToken))
    ensures cookie.Some? && cookie.value != [] && verify(cookie.value).None? ==>
      resp == Response(401, ErrorBody(BadToken))
    ensures resp.status == 200 <==> (cookie.Some? && cookie.value != [] && verify(cookie.value).Some? &&
                                     getUser(verify(cookie.value).value.userId).Found?)
    ensures resp.status == 200 ==> (resp.body.UserBody? &&
                                    var u := getUser(verify(cookie.value).value.userId).user;
                                    resp.body.user == PublicUser(u.id, u.email, u.name, u.createdAt))
    ensures resp.status in {200, 401, 404, 500}
  {
    if cookie.None? || cookie.value == [] then Response(401, ErrorBody(NoToken))
    else
      var payload := verify(cookie.value);
      if payload.None? then Response(401, ErrorBody(BadToken))
      else
        match getUser(payload.value.userId)
        case Failed => Response(500, ErrorBody(ServerError))
        case NotFound => Response(404, ErrorBody(NoUser))
        case Found(u) => Response(200, UserBody(PublicUser(u.id, u.email, u.name, u.createdAt)))
  }

  /** A verified token for an absent user gives 404, and a failing store gives 500. */
  lemma MeLookupOutcomes(token: string, verify: string -> Option<Payload>, getUser: int -> Lookup)
    requires token != [] && verify(token).Some?
    ensures getUser(verify(token).value.userId).NotFound? ==>
      Me(Some(token), verify, getUser) == Response(404, ErrorBody(NoUser))
    ensures getUser(verify(token).value.userId).Failed? ==>
      Me(Some(token), verify, getUser) == Response(500, ErrorBody(ServerError))
  {
  }

  /** The store is consulted only after a token was found and verified: before that,
      any two stores give the same answer. */
  lemma LookupOnlyAfterVerification(cookie: Option<string>, verify: string -> Option<Payload>,
                                    store1: int -> Lookup, store2: int -> Lookup)
    requires cookie.None? || cookie.value == [] || verify(cookie.value).None?
    ensures Me(cookie, verify, store1) == Me(cookie, verify, store2)
  {
  }

  /** The store is asked about the token's own user and no other. */
  lemma LookupUsesTokenUser(token: string, verify: string -> Option<Payload>,
                            store1: int -> Lookup, store2: int -> Lookup)
    requires token != [] && verify(token).Some?
    requires store1(verify(token).value.userId) == store2(verify(token).value.userId)
    ensures Me(Some(token), verify, store1) == Me(Some(token), verify, store2)
  {
  }

  /** The answer does not depend on the stored `updated_at`. */
  lemma UpdatedAtNotDisclosed(token: string, verify: string -> Option<Payload>,
                              store1: int -> Lookup, store2: int -> Lookup)
    requires token != [] && verify(token).Some?
    requires var id := verify(token).value.userId;
      store1(id).Found? && store2(id).Found? &&
      store1(id).user.(updatedAt := store2(id).user.updatedAt) == store2(id).user
    ensures Me(Some(token), verify, store1) == Me(Some(token), verify, store2)
  {
  }
}
