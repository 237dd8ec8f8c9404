/** The places router: the two reads are public; everything registered after
    the authentication middleware -- create, update, delete -- needs an
    authenticated caller, whose id becomes the handler's `caller`. */
module PlacesRoutes {
  import opened Documents
  import opened Http
  import opened Validators
  import opened Places

  /** What the authentication middleware makes of the request's token. */
  datatype Identity = Anonymous | Authenticated(userId: UserId)

  datatype Request =
    | GetById(pid: PlaceId, readFails: bool)                                  // GET /:pid
    | GetByUser(uid: UserId, readFails: bool)                                 // GET /user/:uid
    | Post(input: PlaceInput, imagePath: string, newId: PlaceId, geo: Geocode,
           readFails: bool, commitFails: bool)                                // POST /
    | Patch(pid: PlaceId, title: string, description: string,
            readFails: bool, saveFails: bool)                                 // PATCH /:pid
    | Delete(pid: PlaceId, readFails: bool, commitFails: bool)                // DELETE /:pid

  /** The routes registered after `router.use(checkAuth)`. */
  predicate Guarded(req: Request) {
    req.Post? || req.Patch? || req.Delete?
  }

  /** The route table: each route reaches its handler, and a guarded route
      hands the authenticated caller's id to it. */
  function Dispatch(s: Store, req: Request, who: Identity): (r: Step)
    ensures req.GetById? ==> r == GetPlaceById(s, req.pid, req.readFails)
    ensures req.GetByUser? ==> r == GetPlacesByUserId(s, req.uid, req.readFails)
    ensures req.Post? && who.Authenticated? ==>
              r == CreatePlace(s, who.userId, req.input, req.imagePath, req.newId, req.geo,
                               req.readFails, req.commitFails)
    ensures req.Patch? && who.Authenticated? ==>
              r == UpdatePlace(s, who.userId, req.pid, req.title, req.description, req.readFails, req.saveFails)
    ensures req.Delete? && who.Authenticated? ==>
              r == DeletePlace(s, who.userId, req.pid, req.readFails, req.commitFails)
    ensures Guarded(req) && who.Anonymous? ==> r.response == AuthRejected && r.store == s && r.effects == []
    ensures r.store != s ==> Guarded(req) && who.Authenticated?
    ensures r.effects != [] ==> req.Delete? && who.Authenticated?
    ensures (req.Patch? || req.Delete?) && r.store != s ==>
              req.pid in s.places && IsOwner(who.userId, s.places[req.pid])
    ensures req.Post? && r.store != s ==>
              req.newId in r.store.places && IsOwner(who.userId, r.store.places[req.newId])
    ensures req.Post? && who.Authenticated? && !CreateInputValid(req.input) ==> r.response == Error(UNPROCESSABLE)
    ensures req.Patch? && who.Authenticated? && !UpdateInputValid(req.title, req.description) ==>
              r.response == Error(UNPROCESSABLE)
  {
    match req
    case GetById(pid, readFails) => GetPlaceById(s, pid, readFails)
    case GetByUser(uid, readFails) => GetPlacesByUserId(s, uid, readFails)
    case _ =>
      match who
      case Anonymous => Halt(s, AuthRejected)
      case Authenticated(caller) =>
        match req
        case Post(input, imagePath, newId, geo, readFails, commitFails) =>
          CreatePlace(s, caller, input, imagePath, newId, geo, readFails, commitFails)
        case Patch(pid, title, description, readFails, saveFails) =>
          UpdatePlace(s, caller, pid, title, description, readFails, saveFails)
        case Delete(pid, readFails, commitFails) =>
          DeletePlace(s, caller, pid, readFails, commitFails)
  }

  /** The two reads answer the same whoever asks, authenticated or not. */
  lemma PublicRoutesIgnoreIdentity(s: Store, req: Request, a: Identity, b: Identity)
    requires !Guarded(req)
    ensures Dispatch(s, req, a) == Dispatch(s, req, b)
    ensures Dispatch(s, req, a).response != AuthRejected
  {
  }
}
