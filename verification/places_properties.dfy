/** Properties that relate the places handlers to the store invariant and to
    each other: every handler keeps `Valid`, and the read handlers see exactly
    what a create or delete left behind. */
module PlacesProperties {
  import opened Documents
  import opened Http
  import opened Validators
  import opened Places

  lemma CreatePreservesValid(s: Store, caller: UserId, input: PlaceInput, imagePath: string, newId: PlaceId,
                             geo: Geocode, readFails: bool, commitFails: bool)
    requires Valid(s)
    ensures Valid(CreatePlace(s, caller, input, imagePath, newId, geo, readFails, commitFails).store)
  {
    var r := CreatePlace(s, caller, input, imagePath, newId, geo, readFails, commitFails);
    if Succeeded(r) {
      var t := r.store;
      forall u, p | u in t.users && p in t.users[u].places
        ensures p in t.places && t.places[p].creator == u
      {
        if u == caller && p == newId {
        } else {
          assert p in s.users[u].places;
        }
      }
      forall p | p in t.places
        ensures t.places[p].creator in t.users && p in t.users[t.places[p].creator].places
      {
        if p != newId {
          var c := s.places[p].creator;
          assert p in s.users[c].places;
          if c == caller {
            assert t.users[c].places == s.users[c].places + [newId];
          }
        }
      }
      forall u, v | u in t.users && v in t.users && t.users[u].email == t.users[v].email
        ensures u == v
      {
        assert t.users[u].email == s.users[u].email;
        assert t.users[v].email == s.users[v].email;
      }
    }
  }

  lemma UpdatePreservesValid(s: Store, caller: UserId, pid: PlaceId, title: string, description: string,
                             readFails: bool, saveFails: bool)
    requires Valid(s)
    ensures Valid(UpdatePlace(s, caller, pid, title, description, readFails, saveFails).store)
  {
    var t := UpdatePlace(s, caller, pid, title, description, readFails, saveFails).store;
    forall p | p in t.places
      ensures t.places[p].creator == s.places[p].creator
    {
    }
  }

  lemma DeletePreservesValid(s: Store, caller: UserId, pid: PlaceId, readFails: bool, commitFails: bool)
    requires Valid(s)
    ensures Valid(DeletePlace(s, caller, pid, readFails, commitFails).store)
  {
    var r := DeletePlace(s, caller, pid, readFails, commitFails);
    if Succeeded(r) {
      RemoveOwnedPlaceKeepsValid(s, pid);
    }
  }

  /** The store a successful delete commits: the place gone, and its id pulled
      from its creator's list. */
  function Removed(s: Store, pid: PlaceId): Store
    requires pid in s.places && s.places[pid].creator in s.users
  {
    var c := s.places[pid].creator;
    Store(s.places - {pid}, s.users[c := s.users[c].(places := Pull(s.users[c].places, pid))])
  }

  lemma RemoveOwnedPlaceKeepsValid(s: Store, pid: PlaceId)
    requires Valid(s) && pid in s.places
    ensures Valid(Removed(s, pid))
  {
    RemovedLinked(s, pid);
    RemovedEmailsUnique(s, pid);
  }

  /** Every id a user still lists names a remaining place of that user, and
      every remaining place is still listed by its creator. */
  lemma RemovedLinked(s: Store, pid: PlaceId)
    requires Linked(s) && pid in s.places
    ensures Linked(Removed(s, pid))
  {
    var t := Removed(s, pid);
    forall u, p | u in t.users && p in t.users[u].places
      ensures p in t.places && t.places[p].creator == u
    {
      assert p in s.users[u].places;
      assert p != pid;
    }
    forall p | p in t.places
      ensures t.places[p].creator in t.users && p in t.users[t.places[p].creator].places
    {
      assert p in s.users[s.places[p].creator].places;
    }
  }

  /** Pulling an id from a list changes no email. */
  lemma RemovedEmailsUnique(s: Store, pid: PlaceId)
    requires EmailsUnique(s.users) && pid in s.places && s.places[pid].creator in s.users
    ensures EmailsUnique(Removed(s, pid).users)
  {
    var t := Removed(s, pid);
    assert forall u :: u in t.users ==> t.users[u].email == s.users[u].email;
  }

  /** A created place is immediately readable by id, and it is the last of its
      creator's places. */
  lemma CreateThenRead(s: Store, caller: UserId, input: PlaceInput, imagePath: string, newId: PlaceId,
                       geo: Geocode, readFails: bool, commitFails: bool)
    requires Valid(s)
    requires Succeeded(CreatePlace(s, caller, input, imagePath, newId, geo, readFails, commitFails))
    ensures var t := CreatePlace(s, caller, input, imagePath, newId, geo, readFails, commitFails).store;
            && GetPlaceById(t, newId, false).response
                 == Json(OK, PlaceDoc(newId, NewPlace(caller, input, geo.coordinates, imagePath)))
            && Succeeded(GetPlacesByUserId(t, caller, false))
            && var entries := GetPlacesByUserId(t, caller, false).response.body.entries;
               |entries| > 0 && entries[|entries| - 1] == PlaceEntry(newId, t.places[newId])
  {
    CreatePreservesValid(s, caller, input, imagePath, newId, geo, readFails, commitFails);
    var t := CreatePlace(s, caller, input, imagePath, newId, geo, readFails, commitFails).store;
    var ids := t.users[caller].places;
    assert ids[|ids| - 1] == newId;
    assert newId in ids && newId in t.places;
  }

  /** After a delete the place is gone for good: reading it and deleting it
      again both give 404, and its creator's listing no longer mentions it. */
  lemma DeleteThenRead(s: Store, caller: UserId, pid: PlaceId, readFails: bool, commitFails: bool)
    requires Valid(s)
    requires Succeeded(DeletePlace(s, caller, pid, readFails, commitFails))
    ensures var t := DeletePlace(s, caller, pid, readFails, commitFails).store;
            && GetPlaceById(t, pid, false).response == Error(NOT_FOUND)
            && DeletePlace(t, caller, pid, false, false).response == Error(NOT_FOUND)
            && pid !in t.users[caller].places
            && (Succeeded(GetPlacesByUserId(t, caller, false)) ==>
                  forall e :: e in GetPlacesByUserId(t, caller, false).response.body.entries ==> e.id != pid)
  {
  }

  /** The listing by user agrees with the independent definition "the places
      whose creator is that user": it answers exactly when there is one, and
      then lists each of them and nothing else. */
  lemma PlacesByUserAreCreatedPlaces(s: Store, uid: UserId)
    requires Linked(s)
    ensures var r := GetPlacesByUserId(s, uid, false);
            && (Succeeded(r) <==> exists p :: p in s.places && s.places[p].creator == uid)
            && (Succeeded(r) ==>
                  forall p :: (p in s.places && s.places[p].creator == uid) <==>
                              (exists e :: e in r.response.body.entries && e.id == p))
  {
    var r := GetPlacesByUserId(s, uid, false);
    if exists p :: p in s.places && s.places[p].creator == uid {
      var p :| p in s.places && s.places[p].creator == uid;
      assert p in s.users[uid].places;
    }
    if Succeeded(r) {
      var entries := r.response.body.entries;
      forall p | p in s.places && s.places[p].creator == uid
        ensures exists e :: e in entries && e.id == p
      {
        var ids := s.users[uid].places;
        var i :| 0 <= i < |ids| && ids[i] == p;
        assert entries[i] == PlaceEntry(p, s.places[p]);
      }
    }
  }
}
