/** The three users handlers: listing users without their passwords, signing
    up with a unique email, and logging in.

    Password hashing is a function parameter `hash`; checking a password
    against a stored hash is `hash(password) == stored`. Token signing is an
    outcome parameter: its token is opaque and its failure is a 500. The
    request-body checks of signup live in a router that is not part of this
    model, so their verdict is the parameter `inputValid`.
 */
module Users {
  import opened Documents
  import opened Http

  datatype SignupInput = SignupInput(name: string, email: string, password: string)

  datatype Signing = Signed(token: string) | SignFailed

  /** The password-free projection `find({}, "-password")` returns. */
  function Hide(u: User): UserView {
    UserView(u.name, u.email, u.image, u.places)
  }

  /** `bcrypt.compare`: the candidate matches when it hashes to the stored value. */
  predicate PasswordMatches(hash: string -> string, candidate: string, stored: string) {
    hash(candidate) == stored
  }

  predicate EmailTaken(users: map<UserId, User>, email: string) {
    exists u :: u in users && users[u].email == email
  }

  /** `findOne({email})` on a store whose emails are unique. */
  function FindByEmail(users: map<UserId, User>, email: string): (r: Option<UserId>)
    requires EmailsUnique(users)
    ensures r.None? <==> !EmailTaken(users, email)
    ensures r.Some? ==> r.value in users && users[r.value].email == email
    ensures r.Some? ==> forall u :: u in users && users[u].email == email ==> u == r.value
  {
    if EmailTaken(users, email) then
      var u :| u in users && users[u].email == email;
      Some(u)
    else
      None
  }

  function GetUsers(s: Store, readFails: bool): (r: Step)
    ensures r.store == s && r.effects == []
    ensures readFails <==> r.response == Error(SERVER_ERROR)
    ensures !readFails ==>
              && r.response.Json? && r.response.status == OK && r.response.body.UserList?
              && r.response.body.users.Keys == s.users.Keys
              && forall u :: u in s.users ==>
                   var v, doc := r.response.body.users[u], s.users[u];
                   v.name == doc.name && v.email == doc.email && v.image == doc.image && v.places == doc.places
  {
    if readFails then Halt(s, Error(SERVER_ERROR))
    else Halt(s, Json(OK, UserList(map u | u in s.users :: Hide(s.users[u]))))
  }

  /** `signup`: reject bad input and taken emails with 422, otherwise store a
      new user with the hashed password and no places. A signing failure comes
      after the save, so the account exists although the answer is 500. */
  function Signup(s: Store, inputValid: bool, input: SignupInput, imagePath: string, newId: UserId,
                  hash: string -> string, readFails: bool, hashFails: bool, saveFails: bool,
                  sign: Signing): (r: Step)
    ensures r.effects == []
    ensures r.store.places == s.places
    ensures r.store != s <==>
              inputValid && !readFails && !EmailTaken(s.users, input.email) && !hashFails
              && !saveFails && newId !in s.users
    ensures !inputValid ==> r.response == Error(UNPROCESSABLE)
    ensures inputValid && readFails ==> r.response == Error(SERVER_ERROR)
    ensures inputValid && !readFails && EmailTaken(s.users, input.email) ==> r.response == Error(UNPROCESSABLE)
    ensures (inputValid && !readFails && !EmailTaken(s.users, input.email) && r.store == s) ==>
              r.response == Error(SERVER_ERROR)
    ensures Succeeded(r) <==> r.store != s && sign.Signed?
    ensures r.store != s && !Succeeded(r) ==> r.response == Error(SERVER_ERROR)
    ensures Succeeded(r) ==> r.response == Json(CREATED, Session(newId, input.email, sign.token))
    ensures r.store != s ==>
              && r.store.users.Keys == s.users.Keys + {newId}
              && (forall u :: u in s.users ==> r.store.users[u] == s.users[u])
              && var created := r.store.users[newId];
                 && created.name == input.name && created.email == input.email
                 && created.image == imagePath
                 && PasswordMatches(hash, input.password, created.password)
                 && created.places == []
  {
    if !inputValid then Halt(s, Error(UNPROCESSABLE))
    else if readFails then Halt(s, Error(SERVER_ERROR))
    else if EmailTaken(s.users, input.email) then Halt(s, Error(UNPROCESSABLE))
    else if hashFails then Halt(s, Error(SERVER_ERROR))
    else
      var created := User(input.name, input.email, imagePath, hash(input.password), []);
      if saveFails || newId in s.users then Halt(s, Error(SERVER_ERROR))
      else
        var t := s.(users := s.users[newId := created]);
        assert newId in t.users && newId !in s.users;
        match sign
        case SignFailed => Step(Error(SERVER_ERROR), t, [])
        case Signed(token) => Step(Json(CREATED, Session(newId, created.email, token)), t, [])
  }

  /** `login`: 401 for an unknown email, 403 for a wrong password, otherwise
      the stored user's id and email. It reads the store and never writes it.
      Stores reached by the handlers keep emails unique, so `findOne` picks the
      only user with that email. */
  function Login(s: Store, email: string, password: string, hash: string -> string,
                 readFails: bool, compareFails: bool, sign: Signing): (r: Step)
    requires EmailsUnique(s.users)
    ensures r.store == s && r.effects == []
    ensures readFails ==> r.response == Error(SERVER_ERROR)
    ensures !readFails && !EmailTaken(s.users, email) ==> r.response == Error(UNAUTHORIZED)
    ensures (!readFails && EmailTaken(s.users, email) && compareFails) ==> r.response == Error(SERVER_ERROR)
    ensures (!readFails && !compareFails && EmailTaken(s.users, email)
             && (forall u :: u in s.users && s.users[u].email == email ==>
                   !PasswordMatches(hash, password, s.users[u].password))) ==> r.response == Error(FORBIDDEN)
    ensures (!readFails && !compareFails && sign.SignFailed?
             && exists u :: u in s.users && s.users[u].email == email
                            && PasswordMatches(hash, password, s.users[u].password)) ==> r.response == Error(SERVER_ERROR)
    ensures Succeeded(r) <==>
              !readFails && !compareFails && sign.Signed?
              && exists u :: u in s.users && s.users[u].email == email
                             && PasswordMatches(hash, password, s.users[u].password)
    ensures Succeeded(r) ==>
              && r.response.status == OK && r.response.body.Session?
              && r.response.body.userId in s.users
              && r.response.body.email == email
              && s.users[r.response.body.userId].email == email
              && PasswordMatches(hash, password, s.users[r.response.body.userId].password)
              && r.response.body.token == sign.token
  {
    if readFails then Halt(s, Error(SERVER_ERROR))
    else match FindByEmail(s.users, email)
      case None => Halt(s, Error(UNAUTHORIZED))
      case Some(u) =>
        if compareFails then Halt(s, Error(SERVER_ERROR))
        else if !PasswordMatches(hash, password, s.users[u].password) then Halt(s, Error(FORBIDDEN))
        else match sign
          case SignFailed => Halt(s, Error(SERVER_ERROR))
          case Signed(token) => Halt(s, Json(OK, Session(u, s.users[u].email, token)))
  }
}
