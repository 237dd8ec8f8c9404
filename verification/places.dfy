/** The five places handlers, each a pure function from the store, the request
    and the outcomes of the calls it makes (store reads, the address lookup,
    the transaction commit) to a `Step`.

    `readFails` stands for a rejected `findById` (storage unreachable or an id
    that is not a well-formed object id); `commitFails` for any failure inside
    the transaction, including the duplicate-key error a reused id would raise.
    A failed transaction leaves the store as it was.
 */
module Places {
  import opened Documents
  import opened Http
  import opened Validators

  /** The address lookup either yields coordinates or raises an error whose
      status the handler passes on unchanged. */
  datatype Geocode = Resolved(coordinates: Coordinates) | GeocodeFailed(status: int)

  function GetPlaceById(s: Store, pid: PlaceId, readFails: bool): (r: Step)
    ensures r.store == s && r.effects == []
    ensures Succeeded(r) <==> !readFails && pid in s.places
    ensures Succeeded(r) ==> r.response == Json(OK, PlaceDoc(pid, s.places[pid]))
    ensures readFails ==> r.response == Error(SERVER_ERROR)
    ensures !readFails && pid !in s.places ==> r.response == Error(NOT_FOUND)
  {
    if readFails then Halt(s, Error(SERVER_ERROR))
    else if pid !in s.places then Halt(s, Error(NOT_FOUND))
    else Halt(s, Json(OK, PlaceDoc(pid, s.places[pid])))
  }

  /** The user's places, fetched through the user's own list. A user that is
      missing, and a user none of whose listed ids resolves, both give 404. */
  function GetPlacesByUserId(s: Store, uid: UserId, readFails: bool): (r: Step)
    ensures r.store == s && r.effects == []
    ensures readFails ==> r.response == Error(SERVER_ERROR)
    ensures Succeeded(r) <==>
              !readFails && uid in s.users && exists q :: q in s.users[uid].places && q in s.places
    ensures !readFails && !Succeeded(r) ==> r.response == Error(NOT_FOUND)
    ensures Succeeded(r) ==> r.response.status == OK && r.response.body.PlaceList?
    ensures Succeeded(r) ==> forall e :: e in r.response.body.entries ==>
              e.id in s.users[uid].places && e.id in s.places && e.place == s.places[e.id]
    ensures Succeeded(r) && Linked(s) ==>
              var ids := s.users[uid].places;
              |r.response.body.entries| == |ids| &&
              forall i :: 0 <= i < |ids| ==> r.response.body.entries[i] == PlaceEntry(ids[i], s.places[ids[i]])
  {
    if readFails then Halt(s, Error(SERVER_ERROR))
    else if uid !in s.users then Halt(s, Error(NOT_FOUND))
    else
      var entries := Populate(s.places, s.users[uid].places);
      if |entries| == 0 then
        assert entries == [];
        Halt(s, Error(NOT_FOUND))
      else
        assert entries[0] in entries;
        Halt(s, Json(OK, PlaceList(entries)))
  }

  /** The place `createPlace` builds from the request before touching the store. */
  function NewPlace(caller: UserId, input: PlaceInput, coordinates: Coordinates, imagePath: string): Place {
    Place(input.title, input.description, input.address, coordinates, imagePath, caller)
  }

  /** `createPlace`: validate, resolve the address, load the caller, then save the
      place and push its id onto the caller's list in one transaction. The
      handler itself never unlinks the uploaded image. */
  function CreatePlace(s: Store, caller: UserId, input: PlaceInput, imagePath: string, newId: PlaceId,
                       geo: Geocode, readFails: bool, commitFails: bool): (r: Step)
    ensures r.effects == []
    ensures Succeeded(r) <==>
              CreateInputValid(input) && geo.Resolved? && !readFails && caller in s.users
              && !commitFails && newId !in s.places
    ensures !Succeeded(r) ==> r.store == s
    ensures !CreateInputValid(input) ==> r.response == Error(UNPROCESSABLE)
    ensures CreateInputValid(input) && geo.GeocodeFailed? ==> r.response == Error(geo.status)
    ensures CreateInputValid(input) && geo.Resolved? && readFails ==> r.response == Error(SERVER_ERROR)
    ensures CreateInputValid(input) && geo.Resolved? && !readFails && caller !in s.users ==>
              r.response == Error(NOT_FOUND)
    ensures (CreateInputValid(input) && geo.Resolved? && !readFails && caller in s.users
             && (commitFails || newId in s.places)) ==> r.response == Error(SERVER_ERROR)
    ensures Succeeded(r) ==>
              && r.response.status == CREATED
              && r.store.places.Keys == s.places.Keys + {newId}
              && r.response.body == PlaceDoc(newId, r.store.places[newId])
              && r.store.places[newId].creator == caller
              && r.store.places[newId].location == geo.coordinates
              && r.store.places[newId].image == imagePath
              && r.store.places[newId].title == input.title
              && r.store.places[newId].description == input.description
              && r.store.places[newId].address == input.address
              && (forall q :: q in s.places ==> r.store.places[q] == s.places[q])
              && r.store.users.Keys == s.users.Keys
              && r.store.users[caller].places == s.users[caller].places + [newId]
              && r.store.users[caller].(places := []) == s.users[caller].(places := [])
              && (forall u :: u in s.users && u != caller ==> r.store.users[u] == s.users[u])
  {
    if !CreateInputValid(input) then Halt(s, Error(UNPROCESSABLE))
    else if geo.GeocodeFailed? then Halt(s, Error(geo.status))
    else
      var created := NewPlace(caller, input, geo.coordinates, imagePath);
      if readFails then Halt(s, Error(SERVER_ERROR))
      else if caller !in s.users then Halt(s, Error(NOT_FOUND))
      else if commitFails || newId in s.places then Halt(s, Error(SERVER_ERROR))
      else
        var owner := s.users[caller];
        Step(Json(CREATED, PlaceDoc(newId, created)),
             Store(s.places[newId := created], s.users[caller := owner.(places := owner.places + [newId])]),
             [])
  }

  /** `updatePlace`: only the owner may change a place, and only its title and
      description. A missing place is dereferenced without a check, so the
      handler throws instead of answering. */
  function UpdatePlace(s: Store, caller: UserId, pid: PlaceId, title: string, description: string,
                       readFails: bool, saveFails: bool): (r: Step)
    ensures r.effects == []
    ensures r.store.users == s.users
    ensures r.store.places.Keys == s.places.Keys
    ensures forall q :: q in s.places && q != pid ==> r.store.places[q] == s.places[q]
    ensures Succeeded(r) <==>
              UpdateInputValid(title, description) && !readFails && pid in s.places
              && IsOwner(caller, s.places[pid]) && !saveFails
    ensures !Succeeded(r) ==> r.store == s
    ensures !UpdateInputValid(title, description) ==> r.response == Error(UNPROCESSABLE)
    ensures UpdateInputValid(title, description) && readFails ==> r.response == Error(SERVER_ERROR)
    ensures UpdateInputValid(title, description) && !readFails && pid !in s.places ==> r.response == Unhandled
    ensures (UpdateInputValid(title, description) && !readFails && pid in s.places
             && !IsOwner(caller, s.places[pid])) ==> r.response == Error(UNAUTHORIZED)
    ensures (UpdateInputValid(title, description) && !readFails && pid in s.places
             && IsOwner(caller, s.places[pid]) && saveFails) ==> r.response == Error(SERVER_ERROR)
    ensures Succeeded(r) ==>
              var before, after := s.places[pid], r.store.places[pid];
              && r.response == Json(OK, PlaceDoc(pid, after))
              && after.title == title && after.description == description
              && after.address == before.address && after.location == before.location
              && after.image == before.image && after.creator == before.creator
  {
    if !UpdateInputValid(title, description) then Halt(s, Error(UNPROCESSABLE))
    else if readFails then Halt(s, Error(SERVER_ERROR))
    else if pid !in s.places then Halt(s, Unhandled)
    else if !IsOwner(caller, s.places[pid]) then Halt(s, Error(UNAUTHORIZED))
    else if saveFails then Halt(s, Error(SERVER_ERROR))
    else
      var updated := s.places[pid].(title := title, description := description);
      Step(Json(OK, PlaceDoc(pid, updated)), s.(places := s.places[pid := updated]), [])
  }

  const DELETED_MESSAGE := "Deleted place..!"

  /** `deletePlace`: load the place with its creator, let only the creator
      through, then remove the place and pull its id from the creator's list in
      one transaction. After a commit the image path read before the writes is
      unlinked; the response does not wait for, or depend on, that unlink. */
  function DeletePlace(s: Store, caller: UserId, pid: PlaceId, readFails: bool, commitFails: bool): (r: Step)
    ensures Succeeded(r) <==>
              !readFails && pid in s.places && s.places[pid].creator in s.users
              && IsOwner(caller, s.places[pid]) && !commitFails
    ensures !Succeeded(r) ==> r.store == s && r.effects == []
    ensures readFails ==> r.response == Error(SERVER_ERROR)
    ensures !readFails && pid !in s.places ==> r.response == Error(NOT_FOUND)
    ensures !readFails && pid in s.places && s.places[pid].creator !in s.users ==> r.response == Unhandled
    ensures (!readFails && pid in s.places && s.places[pid].creator in s.users
             && !IsOwner(caller, s.places[pid])) ==> r.response == Error(FORBIDDEN)
    ensures (!readFails && pid in s.places && s.places[pid].creator in s.users
             && IsOwner(caller, s.places[pid]) && commitFails) ==> r.response == Error(SERVER_ERROR)
    ensures Succeeded(r) ==>
              && r.response == Json(OK, Message(DELETED_MESSAGE))
              && r.effects == [Unlink(s.places[pid].image)]
              && r.store.places.Keys == s.places.Keys - {pid}
              && (forall q :: q in r.store.places ==> r.store.places[q] == s.places[q])
              && r.store.users.Keys == s.users.Keys
              && r.store.users[caller].places == Pull(s.users[caller].places, pid)
              && (forall q :: q in r.store.users[caller].places <==> q in s.users[caller].places && q != pid)
              && r.store.users[caller].(places := []) == s.users[caller].(places := [])
              && (forall u :: u in s.users && u != caller ==> r.store.users[u] == s.users[u])
  {
    if readFails then Halt(s, Error(SERVER_ERROR))
    else if pid !in s.places then Halt(s, Error(NOT_FOUND))
    else
      var place := s.places[pid];
      if place.creator !in s.users then Halt(s, Unhandled)
      else if !IsOwner(caller, place) then Halt(s, Error(FORBIDDEN))
      else
        var imagePath := place.image;
        if commitFails then Halt(s, Error(SERVER_ERROR))
        else
          var owner := s.users[place.creator];
          Step(Json(OK, Message(DELETED_MESSAGE)),
               Store(s.places - {pid}, s.users[place.creator := owner.(places := Pull(owner.places, pid))]),
               [Unlink(imagePath)])
  }
}
