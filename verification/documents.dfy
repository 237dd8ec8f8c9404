/** The two document collections of the backend -- places and users -- and the
    bidirectional link between them that every handler must keep.

    A place names its owner in `creator`; the owner keeps the place's id in its
    `places` list, a denormalised inverse index. `Linked` states that the two
    sides agree; `EmailsUnique` states that signup never lets two accounts
    share an email. Together they are `Valid`, the invariant of every store the
    handlers can reach.
 */
module Documents {

  type PlaceId = string
  type UserId = string

  datatype Option<+T> = None | Some(value: T)

  /** Coordinates as resolved by the address lookup; they are stored, never
      computed with. */
  datatype Coordinates = Coordinates(lat: real, lng: real)

  datatype Place = Place(
    title: string,
    description: string,
    address: string,
    location: Coordinates,
    image: string,       // path of the uploaded image file
    creator: UserId)

  datatype User = User(
    name: string,
    email: string,
    image: string,
    password: string,    // the stored password hash
    places: seq<PlaceId>)

  datatype Store = Store(places: map<PlaceId, Place>, users: map<UserId, User>)

  /** A place as it leaves the server: the document together with its id. */
  datatype PlaceEntry = PlaceEntry(id: PlaceId, place: Place)

  /** The ownership gate shared by update and delete. */
  predicate IsOwner(caller: UserId, p: Place) {
    p.creator == caller
  }

  /** Every place is listed by its creator, and every listed id names a place
      of that user. */
  ghost predicate Linked(s: Store) {
    && (forall p :: p in s.places ==>
          s.places[p].creator in s.users && p in s.users[s.places[p].creator].places)
    && (forall u, p :: u in s.users && p in s.users[u].places ==>
          p in s.places && s.places[p].creator == u)
  }

  ghost predicate EmailsUnique(users: map<UserId, User>) {
    forall u, v :: u in users && v in users && users[u].email == users[v].email ==> u == v
  }

  ghost predicate Valid(s: Store) {
    Linked(s) && EmailsUnique(s.users)
  }

  const Empty: Store := Store(map[], map[])

  lemma EmptyIsValid()
    ensures Valid(Empty)
  {
  }

  /** Mongoose's `pull`: every occurrence of `pid` leaves the list, and the
      remaining ids keep their order. */
  function Pull(ids: seq<PlaceId>, pid: PlaceId): (r: seq<PlaceId>)
    ensures forall q :: q in r <==> q in ids && q != pid
    ensures multiset(r) == multiset(ids)[pid := 0]
    ensures |r| <= |ids|
    ensures pid !in ids ==> r == ids
    ensures pid in ids ==> |r| < |ids|
  {
    if ids == [] then []
    else
      assert ids == [ids[0]] + ids[1..];
      if ids[0] == pid then Pull(ids[1..], pid)
      else [ids[0]] + Pull(ids[1..], pid)
  }

  /** `Pull` works piece by piece: pulling from a concatenation pulls from each
      part and keeps the parts in order. With `Pull([q], pid) == [q]` for
      `q != pid` this fixes the order of what remains. */
  lemma {:induction false} PullDistributes(a: seq<PlaceId>, b: seq<PlaceId>, pid: PlaceId)
    ensures Pull(a + b, pid) == Pull(a, pid) + Pull(b, pid)
    decreases |a|
  {
    if a == [] {
      assert a + b == b;
    } else {
      assert (a + b)[1..] == a[1..] + b;
      assert (a + b)[0] == a[0];
      PullDistributes(a[1..], b, pid);
    }
  }

  /** Mongoose's `populate` over an array of references: each id is replaced by
      its document, in list order, and ids with no document are dropped. */
  function Populate(places: map<PlaceId, Place>, ids: seq<PlaceId>): (r: seq<PlaceEntry>)
    ensures |r| <= |ids|
    ensures forall e :: e in r ==> e.id in ids && e.id in places && places[e.id] == e.place
    ensures forall q :: q in ids && q in places ==> PlaceEntry(q, places[q]) in r
    ensures (forall q :: q in ids ==> q in places) ==>
              |r| == |ids| && forall i :: 0 <= i < |ids| ==> r[i] == PlaceEntry(ids[i], places[ids[i]])
  {
    if ids == [] then []
    else if ids[0] in places then [PlaceEntry(ids[0], places[ids[0]])] + Populate(places, ids[1..])
    else Populate(places, ids[1..])
  }

  /** `Populate` works piece by piece, so its result keeps list order and
      multiplicity even when some ids do not resolve. */
  lemma {:induction false} PopulateDistributes(places: map<PlaceId, Place>, a: seq<PlaceId>, b: seq<PlaceId>)
    ensures Populate(places, a + b) == Populate(places, a) + Populate(places, b)
    decreases |a|
  {
    if a == [] {
      assert a + b == b;
    } else {
      assert (a + b)[0] == a[0];
      assert (a + b)[1..] == a[1..] + b;
      PopulateDistributes(places, a[1..], b);
    }
  }
}
