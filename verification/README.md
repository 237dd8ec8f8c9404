# Places and users backend: a Dafny model of the request handlers

This project models the request handlers of a small Express/Mongoose backend.
The backend stores two document collections: places and users. Every place
has one creator (a user id). Each user keeps the ids of its places in a
`places` list, which is a denormalised inverse of `creator`.

Each handler is modelled as a pure function. It takes the store (two maps),
the request, and the outcomes of the outside calls it makes: store reads, the
address lookup, the transaction commit, password hashing and token signing.
It returns a `Step`, which holds the response, the store after the request,
and the side effects (one effect exists: unlinking an uploaded image file).

The central invariant is `Documents.Valid`, made of two parts:

- `Linked`: every place is listed by its creator, and every listed id names a
  place whose creator is that user.
- `EmailsUnique`: no two users share an email.

The create, update and delete handlers and signup are proved to keep `Valid`.
`Server.Run` chains any sequence of requests and proves that every store it
reaches is `Valid`.

Files:

- `documents.dfy`: the documents, the store, the invariant, and Mongoose's
  `pull` and array `populate`.
- `http.dfy`: status codes, response bodies, effects, `Step`.
- `validators.dfy`: the field checks of the places router.
- `places.dfy`, `places_properties.dfy`: the five places handlers and the
  properties that relate them.
- `users.dfy`, `users_properties.dfy`: the three users handlers and signup/login
  properties.
- `routes.dfy`: the places router. The two GET routes are public; POST, PATCH
  and DELETE sit behind the authentication middleware.
- `server.dfy`: every handler as one state machine, and runs of it.

Modelling decisions:

- New ids are parameters with no freshness precondition. If a new id is
  already in use, the save fails with a duplicate-key error. The handler
  turns that into a 500 and leaves the store unchanged.
- `findById` can reject the read: the store is unreachable, or the id is not
  a well-formed object id. The model takes this as a boolean parameter. The
  handler turns it into a 500.
- `updatePlace` reads `place.creator` without first checking that the place
  exists. For a missing id the handler throws outside any `try`. The model
  returns `Unhandled` and the store is unchanged. The same happens in
  `deletePlace` when the place's creator document is missing, because
  `populate('creator')` then yields null.
- `populate` over an array drops ids that have no document.
  `getPlacesByUserId` checks the list length after populating. So it answers
  404 when the user does not exist, when the user's list is empty, and when
  none of the listed ids resolves. Under `Linked` the last case cannot occur.
- Signup saves the user before it signs the token. If signing fails, the
  response is 500 but the account is already stored. The model keeps this.
- A successful delete emits `Unlink(image path)`. The path is read before the
  transaction. The response is 200 whatever the unlink does.
- `createPlace` emits no unlink on any path. What the application's error
  handler does with the upload is outside this model.
- An update by a non-owner answers 401. A delete by a non-owner answers 403.
- An update of a missing place throws (`Unhandled`). It never answers 404.
- The description check counts code points but skips the variation
  selectors U+FE0E and U+FE0F, as the validator library's `isLength` does.

## Model

| member | source | states |
|---|---|---|
| Documents.Pull | controllers/places-controllers.js:255 | `places.pull(place)`: every occurrence of the id leaves the list, every other id stays as often as it was there (multiset with that id's count set to zero), and the list is unchanged when the id is absent |
| Documents.PullDistributes | controllers/places-controllers.js:255 | pulling from a concatenation is pulling from each part, parts in order; so the ids that remain keep their relative order |
| Documents.EmptyIsValid | controllers/users-controllers.js:163 | the empty store satisfies the invariant; it is the base case `Server.ReachableStoresAreValid` starts every run of the handlers from |
| Documents.PopulateDistributes | controllers/places-controllers.js:50 | populating a concatenation is populating each part, parts in order; so the result keeps list order and multiplicity even when some ids do not resolve |
| Documents.Populate | controllers/places-controllers.js:50 | `populate('places')`: each returned entry is a listed id paired with its stored document, every listed id that has a document appears, and when every listed id resolves the result is exactly the list, in list order |
| Places.GetPlaceById | controllers/places-controllers.js:16-38 | answers 200 with the stored place exactly when the read succeeds and the id is present; 404 when absent; 500 when the read fails; the store never changes |
| Places.GetPlacesByUserId | controllers/places-controllers.js:40-74 | answers 200 exactly when the user exists and some listed id resolves, otherwise 404 (500 on a failed read); the entries are listed places with their stored documents, and under `Linked` they are exactly the user's list in order; the store never changes |
| Places.CreatePlace | controllers/places-controllers.js:76-158 | 422 on invalid input, the lookup's error on a failed address lookup, 500 on a failed user read, 404 for an unknown caller, 500 on a failed transaction, each with the store unchanged; on success 201, one new place with creator = caller, the resolved location, the upload path and the input fields, its id appended to the caller's list, and every other document unchanged; no path unlinks the image |
| Places.UpdatePlace | controllers/places-controllers.js:161-205 | 422 on invalid input, 500 on a failed read, a thrown error for a missing place, 401 for a non-owner, 500 on a failed save, each with the store unchanged; on success 200 with only title and description changed, and creator, address, location, image, users and every other place unchanged |
| Places.DeletePlace | controllers/places-controllers.js:207-281 | 500 on a failed read, 404 for a missing id, 403 for a non-owner, 500 on a failed transaction, each with the store unchanged and no effect; on success 200, the place removed, the creator's list replaced by its `Pull` of the id, other documents unchanged, and exactly one unlink of the image path the place had before the delete |
| PlacesProperties.CreatePreservesValid | controllers/places-controllers.js:127-137 | the transaction that saves the place and pushes its id onto the creator's list keeps the bidirectional link and email uniqueness, on every path |
| PlacesProperties.UpdatePreservesValid | controllers/places-controllers.js:191-195 | changing title and description keeps the invariant |
| PlacesProperties.DeletePreservesValid | controllers/places-controllers.js:250-258 | the transaction that removes the place and pulls its id from the creator's list keeps the invariant, on every path |
| PlacesProperties.RemovedLinked | controllers/places-controllers.js:250-258 | removing a place and pulling its id from its creator's list keeps the bidirectional link: every remaining place is still listed by its creator, and every id still listed names a remaining place of that user |
| PlacesProperties.CreateThenRead | controllers/places-controllers.js:127-136 | after a successful create, reading the new id returns the created place, and the creator's listing succeeds with the new place last |
| PlacesProperties.DeleteThenRead | controllers/places-controllers.js:250-258 | after a successful delete, reading the id gives 404, deleting it again gives 404, and the creator's list and listing no longer mention it |
| PlacesProperties.PlacesByUserAreCreatedPlaces | controllers/places-controllers.js:50-73 | under `Linked`, listing by user answers exactly when some place has that creator, and then lists exactly the places whose creator is that user |
| Users.FindByEmail | controllers/users-controllers.js:108 | `findOne({email})` on unique emails: none exactly when no user has the email, otherwise the one user that has it |
| Users.GetUsers | controllers/users-controllers.js:9-24 | 500 exactly when the read fails; otherwise one entry per stored user carrying its name, email, image and places, and no password; the store never changes |
| Users.Signup | controllers/users-controllers.js:26-100 | 422 on invalid input or a taken email, 500 on a failed read, hash or save or a reused id, each with the store unchanged; otherwise exactly one new user with the given name and email, the upload path, the hash of the password and no places, and no existing user changes; 201 with the new id and email when signing succeeds, 500 with the user kept when it fails |
| Users.Login | controllers/users-controllers.js:102-161 | 500 on a failed read, 401 for an unknown email, 500 when the compare throws, 403 when the password does not match, 500 when signing fails for a matching password; success exactly when a user with that email has a matching password and signing works, returning that user's id and email; the store never changes |
| UsersProperties.SignupPreservesValid | controllers/users-controllers.js:38-78 | signup keeps emails unique and the place/user link, on every path |
| UsersProperties.SignupThenLogin | controllers/users-controllers.js:125-160 | logging in with the email and password a signup stored succeeds and returns the id signup returned |
| UsersProperties.SignupThenWrongPassword | controllers/users-controllers.js:125-142 | with an injective hash, logging in to a freshly created account with any other password gives 403 |
| UsersProperties.SecondSignupSameEmail | controllers/users-controllers.js:38-55 | a second signup with an email already stored gives 422 and stores nothing |
| UsersProperties.ListingHidesPassword | controllers/users-controllers.js:14 | two stores that differ only in one user's password hash give the same user listing |
| Validators.CountedLength | routes/places-routes.js:31-32 | the length `isLength({min: 5})` measures is at most the number of code points, and equals it when the description has no variation selector; `LongEnough`, and through it `CreateInputValid` (routes/places-routes.js:27-36) and `UpdateInputValid` (routes/places-routes.js:40-46), compare it with 5 |
| Validators.CountedLengthBySelectors | routes/places-routes.js:31-32 | the length the description check measures equals the number of code points less the occurrences of U+FE0E and U+FE0F |
| Validators.CountedLengthAppend | routes/places-routes.js:31-32 | that measured length adds up over concatenation |
| Validators.CreateIsUpdatePlusAddress | routes/places-routes.js:25-47 | create input is valid exactly when update input would be valid (title non-empty, description of at least 5 counted code points) and the address is non-empty |
| Validators.CheckBoundaries | routes/places-routes.js:39-47 | a 4-code-point description is refused and a 5-code-point one accepted; four letters plus U+FE0F are refused; an empty title is refused; an update accepts an empty address that a create refuses |
| PlacesRoutes.Dispatch | routes/places-routes.js:18-49 | each route reaches its handler: GET `/:pid` and GET `/user/:uid` whoever asks, and POST, PATCH and DELETE with the authenticated caller's id as the caller; an anonymous request to POST, PATCH or DELETE is rejected before its handler runs and changes nothing; only authenticated guarded requests change the store or unlink files; a changed place after PATCH or DELETE belongs to the caller, and a created place belongs to the caller; invalid bodies of authenticated requests give 422 |
| PlacesRoutes.PublicRoutesIgnoreIdentity | routes/places-routes.js:18-20 | the two GET routes answer the same whoever asks, and never reach authentication |
| Server.DispatchPreservesValid | routes/places-routes.js:23-49 | every request to the places router keeps the invariant |
| Server.Apply | controllers/users-controllers.js:163 | any one request, to the places router or to one of the three users handlers, takes a `Valid` store to a `Valid` store and removes no user account |
| Server.Run | controllers/places-controllers.js:283-289 | any sequence of requests to the five places handlers and the three users handlers keeps the invariant and never removes a user account |
| Server.ReachableStoresAreValid | controllers/users-controllers.js:163 | every store reached from the empty store by any sequence of requests satisfies the invariant |

## Left out

- Mongoose and MongoDB mechanics are not modelled: sessions, `toObject({getters})`, ObjectId generation and the JSON shape of documents. The store is two maps. A place in a response is its id and document.
- Concurrency is not modelled. Requests are handled one at a time, so two concurrent creates for one owner, lost updates and isolation levels are out of scope.
- Password hashing is a function parameter. The real hash is salted and therefore not a function; `compare(pw, h)` is modelled as `hash(pw) == h`.
- Token signing and its expiry are an outcome parameter, and the token is opaque.
- The authentication middleware is not part of this model. Its verdict is the `Identity` parameter, and its rejection is `AuthRejected` without a status code.
- The address lookup is an outcome parameter. The status of its error is passed on as given, because the lookup module is not part of this model.
- File uploads are reduced to the upload path, a parameter. A request with no file throws at `req.file.path` once it passes the earlier checks (places-controllers.js:99, users-controllers.js:71); that throw is not modelled. The branches before it, such as 422 on invalid input or a failed address lookup, are the same with or without a file and are modelled.
- `fs.unlink` is reduced to the `Unlink` effect it emits. Its outcome is only logged, so it has no effect on the model.
- The users router is not part of this model. The verdict of signup's field checks is the `inputValid` parameter.
- Express routing and path matching are not modelled. Requests arrive already parsed into the `Request` and `Op` datatypes. A body field that is not a string is out of scope. A title, description or address missing from every request location reads as the empty string, because the validator library reads the fields it checks that way; this holds only for those validated places fields.
- Error message strings, logging and the commented-out in-memory code are left out. The one message kept is the delete confirmation.
- Validators.CreateInputValid: judges only the body's title, description and address, and so does Validators.UpdateInputValid for title and description. The model assumes these names appear only in the body. The validator's `check` also reads the same name from the cookies, headers, route parameters and query string, and every location that carries the field must pass. So `PATCH /:pid?title=` with a valid body is refused with 422 by the source but accepted by the model, and `POST /?title=Hi` with no title in the body passes the source's check, after which `createPlace` runs with an undefined title, while the model answers 422.
- Users.Login: a request without an `email` field is not modelled; the model's `email` is always a string. The source passes `undefined` to `findOne({email})` (users-controllers.js:104-108). If the driver drops the undefined key, the filter is empty and matches an arbitrary account, whose hash is then compared with the given password; if it sends null, no account with an email matches.
- Users.Login: defined only on stores with unique emails. Every store the handlers reach has unique emails (`Server.Run`). Which of several same-email users `findOne` would return is not modelled.
- UsersProperties.SignupThenWrongPassword: assumes an injective hash. bcrypt reads only the first 72 bytes of a password, so the real hash is not injective: after signup with a password longer than 72 bytes, login accepts any other password with the same first 72 bytes. The lemma therefore holds for the real hash only for passwords that differ within their first 72 bytes.
- Users.GetUsers: returns the users as a map keyed by id. The order of the list that `find` returns is not modelled.
- What the application's error handler does with an upload after a failed create is not modelled; that handler is not part of this model. `Places.CreatePlace` only promises that the handler itself emits no unlink.
- Coordinates are `real` pairs. They are only stored, never computed with, so floating point plays no part.
