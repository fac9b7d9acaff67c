/** Logging in with Google: the outcome of the profile request, and the callback
    that logs in the user whose username is the profile's email, creating that
    user first when there is none. */
module Imperial {
  import opened Common
  import opened Entities
  import opened Store

  /** The two fields decoded from the profile response. */
  datatype GoogleUserInfo = GoogleUserInfo(email: string, name: string)

  /** `Google.getUser`'s handling of the profile response: 200 decodes the body
      (a body that does not decode fails the request), 401 redirects to the
      Google login again, and any other status is a 500. */
  function ClassifyProfileResponse(status: nat, body: Option<GoogleUserInfo>): (r: Outcome<GoogleUserInfo>)
    ensures r.Done? <==> status == StatusOk && body.Some?
    ensures r.Done? ==> r.value == body.value
    ensures status == StatusOk && body.None? ==> r == Fail(DecodeError)
    ensures status == StatusUnauthorized ==> r == Fail(AbortRedirect("/login-google"))
    ensures status != StatusOk && status != StatusUnauthorized ==> r == Fail(Abort(StatusInternalServerError))
  {
    if status != StatusOk then
      if status == StatusUnauthorized then Fail(AbortRedirect("/login-google"))
      else Fail(Abort(StatusInternalServerError))
    else
      match body
      case None => Fail(DecodeError)
      case Some(info) => Done(info)
  }

  /** The users table after the callback, and the row the session is bound to:
      the first user whose username is the email, or else a new user with the
      profile's name, the email as username and an empty password. */
  function ResolveOrProvision(users: seq<User>, info: GoogleUserInfo): (r: (seq<User>, nat))
    ensures r.1 < |r.0| && r.0[r.1].username == info.email
    ensures users <= r.0 && |r.0| <= |users| + 1
  {
    match FindUserByUsername(users, info.email)
    case Some(i) => (users, i)
    case None => (users + [User(Some(|users|), info.name, info.email, "", None)], |users|)
  }

  /** An existing user is reused and nothing is created; otherwise exactly one user
      is created. Either way the bound row exists and its username is the email, and
      the table invariants still hold. */
  lemma ResolveOrProvisionEffect(users: seq<User>, info: GoogleUserInfo)
    requires UsersIndexed(users) && UniqueUsernames(users)
    ensures var (us, id) := ResolveOrProvision(users, info);
      && id < |us| && us[id].username == info.email && us[id].id == Some(id)
      && UsersIndexed(us) && UniqueUsernames(us)
      && ((exists i :: 0 <= i < |users| && users[i].username == info.email) ==> us == users)
      && ((forall i :: 0 <= i < |users| ==> users[i].username != info.email) ==>
            us == users + [User(Some(|users|), info.name, info.email, "", None)])
  {
  }

  /** A second callback with the same email adds no second user and binds the
      same row. */
  lemma RepeatedCallbackAddsNoUser(users: seq<User>, info: GoogleUserInfo)
    requires UsersIndexed(users) && UniqueUsernames(users)
    ensures var once := ResolveOrProvision(users, info);
      ResolveOrProvision(once.0, info) == once
  {
    var once := ResolveOrProvision(users, info);
    if FindUserByUsername(users, info.email).None? {
      var us := once.0;
      assert us[|users|].username == info.email;
      var found := FindUserByUsername(us, info.email);
      assert found.Some?;
      assert forall i :: 0 <= i < |users| ==> us[i] == users[i];
      assert found.value == |users|;
    }
  }

  /** `processGoogleLogin`'s work once the profile is known: resolve or provision,
      bind the session to that user, redirect to "/". */
  method ProcessGoogleLogin(db: Database, session: Session, info: GoogleUserInfo) returns (r: Response)
    requires db.Valid()
    modifies db`users, session`authUser
    ensures db.Valid()
    ensures db.users == ResolveOrProvision(old(db.users), info).0
    ensures session.authUser == Some(ResolveOrProvision(old(db.users), info).1)
    ensures r == Redirect("/")
  {
    var found := FindUserByUsername(db.users, info.email);
    match found {
      case Some(i) =>
        var existing := db.users[i];
        session.Authenticate(existing.id.value);
      case None =>
        var saved := db.SaveNewUser(info.name, info.email, "", None);
        assert saved.Some?;
        session.Authenticate(saved.value.id.value);
    }
    r := Redirect("/");
  }

  /** The whole callback: the profile response, then the login. A failed profile
      request changes nothing. */
  method GoogleCallback(db: Database, session: Session, status: nat, body: Option<GoogleUserInfo>)
    returns (r: Outcome<Response>)
    requires db.Valid()
    modifies db`users, session`authUser
    ensures db.Valid()
    ensures r.Fail? <==> ClassifyProfileResponse(status, body).Fail?
    ensures r.Fail? ==>
      && r.failure == ClassifyProfileResponse(status, body).failure
      && db.users == old(db.users) && session.authUser == old(session.authUser)
    ensures r.Done? ==>
      && r.value == Redirect("/")
      && db.users == ResolveOrProvision(old(db.users), body.value).0
      && session.authUser == Some(ResolveOrProvision(old(db.users), body.value).1)
  {
    var profile := ClassifyProfileResponse(status, body);
    if profile.Fail? {
      return Fail(profile.failure);
    }
    var response := ProcessGoogleLogin(db, session, profile.value);
    r := Done(response);
  }
}
