/** Properties that tie signup and login together and to the store invariant. */
module UsersProperties {
  import opened Documents
  import opened Http
  import opened Users

  ghost predicate Injective(hash: string -> string) {
    forall a, b :: hash(a) == hash(b) ==> a == b
  }

  lemma SignupPreservesValid(s: Store, inputValid: bool, input: SignupInput, imagePath: string, newId: UserId,
                             hash: string -> string, readFails: bool, hashFails: bool, saveFails: bool,
                             sign: Signing)
    requires Valid(s)
    ensures Valid(Signup(s, inputValid, input, imagePath, newId, hash, readFails, hashFails, saveFails, sign).store)
  {
    var t := Signup(s, inputValid, input, imagePath, newId, hash, readFails, hashFails, saveFails, sign).store;
    if t != s {
      forall p | p in t.places
        ensures t.places[p].creator in t.users && p in t.users[t.places[p].creator].places
      {
        assert p in s.users[s.places[p].creator].places;
      }
    }
  }

  /** The account a signup stores answers a login with the same email and
      password, and the login returns the id the signup returned. */
  lemma SignupThenLogin(s: Store, inputValid: bool, input: SignupInput, imagePath: string, newId: UserId,
                        hash: string -> string, readFails: bool, hashFails: bool, saveFails: bool,
                        sign: Signing, later: Signing)
    requires Valid(s)
    requires Succeeded(Signup(s, inputValid, input, imagePath, newId, hash, readFails, hashFails, saveFails, sign))
    requires later.Signed?
    ensures var t := Signup(s, inputValid, input, imagePath, newId, hash, readFails, hashFails, saveFails, sign).store;
            EmailsUnique(t.users) &&
            Login(t, input.email, input.password, hash, false, false, later).response
              == Json(OK, Session(newId, input.email, later.token))
  {
    SignupPreservesValid(s, inputValid, input, imagePath, newId, hash, readFails, hashFails, saveFails, sign);
  }

  /** With an injective hash, any other password is refused with 403 for the
      account a signup just stored. */
  lemma SignupThenWrongPassword(s: Store, inputValid: bool, input: SignupInput, imagePath: string, newId: UserId,
                                hash: string -> string, readFails: bool, hashFails: bool, saveFails: bool,
                                sign: Signing, wrong: string, later: Signing)
    requires Valid(s) && Injective(hash)
    requires Succeeded(Signup(s, inputValid, input, imagePath, newId, hash, readFails, hashFails, saveFails, sign))
    requires wrong != input.password
    ensures var t := Signup(s, inputValid, input, imagePath, newId, hash, readFails, hashFails, saveFails, sign).store;
            EmailsUnique(t.users) &&
            Login(t, input.email, wrong, hash, false, false, later).response == Error(FORBIDDEN)
  {
    SignupPreservesValid(s, inputValid, input, imagePath, newId, hash, readFails, hashFails, saveFails, sign);
    var t := Signup(s, inputValid, input, imagePath, newId, hash, readFails, hashFails, saveFails, sign).store;
    forall u | u in t.users && t.users[u].email == input.email
      ensures !PasswordMatches(hash, wrong, t.users[u].password)
    {
      assert u == newId;
      assert t.users[u].password == hash(input.password);
    }
  }

  /** A second signup with an email a first signup stored is refused with 422
      and stores nothing. */
  lemma SecondSignupSameEmail(s: Store, input: SignupInput, imagePath: string, newId: UserId,
                              hash: string -> string, hashFails: bool, saveFails: bool, sign: Signing,
                              input2: SignupInput, imagePath2: string, newId2: UserId,
                              hashFails2: bool, saveFails2: bool, sign2: Signing)
    requires Signup(s, true, input, imagePath, newId, hash, false, hashFails, saveFails, sign).store != s
    requires input2.email == input.email
    ensures var t := Signup(s, true, input, imagePath, newId, hash, false, hashFails, saveFails, sign).store;
            var r := Signup(t, true, input2, imagePath2, newId2, hash, false, hashFails2, saveFails2, sign2);
            r.response == Error(UNPROCESSABLE) && r.store == t
  {
    var t := Signup(s, true, input, imagePath, newId, hash, false, hashFails, saveFails, sign).store;
    assert t.users[newId].email == input2.email;
  }

  /** The user listing cannot reveal a password: two accounts that differ only
      in their password hash are listed identically. */
  lemma ListingHidesPassword(s: Store, uid: UserId, otherHash: string)
    requires uid in s.users
    ensures var t := s.(users := s.users[uid := s.users[uid].(password := otherHash)]);
            GetUsers(t, false) == GetUsers(s, false).(store := t)
  {
    var t := s.(users := s.users[uid := s.users[uid].(password := otherHash)]);
    assert (map u | u in t.users :: Hide(t.users[u])) == (map u | u in s.users :: Hide(s.users[u]));
  }
}
