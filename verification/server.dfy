/** The whole backend as a state machine: any request to either router, and
    any sequence of them, keeps the bidirectional place/user link and the
    uniqueness of emails. */
module Server {
  import opened Documents
  import opened Http
  import opened Users
  import opened PlacesRoutes
  import PlacesProperties
  import UsersProperties

  datatype Op =
    | PlacesCall(req: Request, who: Identity)
    | ListUsers(readFails: bool)
    | SignUp(inputValid: bool, input: SignupInput, imagePath: string, newId: UserId,
             readFails: bool, hashFails: bool, saveFails: bool, sign: Signing)
    | LogIn(email: string, password: string, readFails: bool, compareFails: bool, sign: Signing)

  function Apply(s: Store, op: Op, hash: string -> string): (r: Step)
    requires Valid(s)
    ensures Valid(r.store)
    ensures s.users.Keys <= r.store.users.Keys
  {
    match op
    case PlacesCall(req, who) =>
      DispatchPreservesValid(s, req, who);
      Dispatch(s, req, who)
    case ListUsers(readFails) => GetUsers(s, readFails)
    case SignUp(inputValid, input, imagePath, newId, readFails, hashFails, saveFails, sign) =>
      UsersProperties.SignupPreservesValid(s, inputValid, input, imagePath, newId, hash,
                                           readFails, hashFails, saveFails, sign);
      Signup(s, inputValid, input, imagePath, newId, hash, readFails, hashFails, saveFails, sign)
    case LogIn(email, password, readFails, compareFails, sign) =>
      Login(s, email, password, hash, readFails, compareFails, sign)
  }

  lemma DispatchPreservesValid(s: Store, req: Request, who: Identity)
    requires Valid(s)
    ensures Valid(Dispatch(s, req, who).store)
  {
    match who
    case Anonymous =>
    case Authenticated(caller) =>
      match req
      case Post(input, imagePath, newId, geo, readFails, commitFails) =>
        PlacesProperties.CreatePreservesValid(s, caller, input, imagePath, newId, geo, readFails, commitFails);
      case Patch(pid, title, description, readFails, saveFails) =>
        PlacesProperties.UpdatePreservesValid(s, caller, pid, title, description, readFails, saveFails);
      case Delete(pid, readFails, commitFails) =>
        PlacesProperties.DeletePreservesValid(s, caller, pid, readFails, commitFails);
      case _ =>
  }

  /** The store after handling `ops` one after another. Every store reached
      this way, in particular from the empty store, is `Valid`, and no user
      account ever disappears. */
  function Run(s: Store, ops: seq<Op>, hash: string -> string): (t: Store)
    requires Valid(s)
    ensures Valid(t)
    ensures s.users.Keys <= t.users.Keys
    decreases |ops|
  {
    if ops == [] then s
    else
      Run(Apply(s, ops[0], hash).store, ops[1..], hash)
  }

  lemma ReachableStoresAreValid(ops: seq<Op>, hash: string -> string)
    ensures Valid(Empty) && Valid(Run(Empty, ops, hash))
  {
    EmptyIsValid();
  }
}
