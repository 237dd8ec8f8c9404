/** What a handler hands back: the response it sends, the store after the
    request, and the side effects it triggers outside the store. */
module Http {
  import opened Documents

  const OK := 200
  const CREATED := 201
  const UNAUTHORIZED := 401
  const FORBIDDEN := 403
  const NOT_FOUND := 404
  const UNPROCESSABLE := 422
  const SERVER_ERROR := 500

  /** A user as `getUsers` returns it: every field but the password. */
  datatype UserView = UserView(name: string, email: string, image: string, places: seq<PlaceId>)

  datatype Body =
    | PlaceDoc(id: PlaceId, place: Place)
    | PlaceList(entries: seq<PlaceEntry>)
    | UserList(users: map<UserId, UserView>)
    | Session(userId: UserId, email: string, token: string)
    | Message(text: string)

  datatype Response =
    | Json(status: int, body: Body)   // res.status(..).json(..)
    | Error(status: int)              // next(new HttpError(.., status)) or a propagated error
    | AuthRejected                    // refused by the authentication middleware
    | Unhandled                       // the handler threw outside any try block

  /** The only effect outside the store: removing an uploaded file. */
  datatype Effect = Unlink(path: string)

  datatype Step = Step(response: Response, store: Store, effects: seq<Effect>)

  /** The handler stops with `response` before any write. */
  function Halt(s: Store, response: Response): Step {
    Step(response, s, [])
  }

  predicate Succeeded(r: Step) {
    r.response.Json?
  }
}
