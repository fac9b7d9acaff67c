/** The user API under /api/users: creating a user (password replaced by its hash
    before the save), reading users only through their public projection, and
    logging in, which issues a bearer token for the basic-authenticated user. */
module UsersApi {
  import opened Common
  import opened Entities
  import opened Store
  import opened UserModel
  import opened TokenModel
  import opened Auth

  /** `getHandler`: the projection of the user in the path, or 404. */
  function GetHandler(users: seq<User>, id: UserId): (r: Outcome<PublicUser>)
    ensures UsersIndexed(users) ==> (r.Done? <==> id < |users|)
    ensures UsersIndexed(users) && r.Done? ==> r.value == ConvertToPublic(users[id])
    ensures r.Fail? ==> r.failure == Abort(StatusNotFound)
  {
    var fetched := match FindUserById(users, id)
                   case Some(i) => Done(users[i])
                   case None => Fail(Abort(StatusNotFound));
    ConvertFutureToPublic(fetched)
  }

  /** `createHandler`: hashes the submitted password, saves the user, answers with
      its projection. A failed hash or a taken username fails the request with 500. */
  method CreateHandler(db: Database, user: User, hash: string -> Option<string>) returns (r: Outcome<PublicUser>)
    requires db.Valid()
    modifies db`users
    ensures db.Valid()
    ensures r.Done? <==> hash(user.password).Some? && FindUserByUsername(old(db.users), user.username).None?
    ensures r.Fail? ==> r.failure == Abort(StatusInternalServerError) && db.users == old(db.users)
    ensures r.Done? ==>
      var saved := User(Some(|old(db.users)|), user.name, user.username, hash(user.password).value, user.twitterURL);
      && db.users == old(db.users) + [saved]
      && r.value == ConvertToPublic(saved)
  {
    var hashed := hash(user.password);
    if hashed.None? {
      return Fail(Abort(StatusInternalServerError));
    }
    var saved := db.SaveNewUser(user.name, user.username, hashed.value, user.twitterURL);
    var outcome := match saved
                   case Some(u) => Done(u)
                   case None => Fail(Abort(StatusInternalServerError));
    r := ConvertFutureToPublic(outcome);
  }

  /** `loginHandler`: the basic-authenticated user gets a new token row bound to
      their id, and that token then authenticates as the user it names. Without an
      authenticated user the request fails with 401; a user without an id, or an id
      the foreign key rejects, fails it with 500. */
  method LoginHandler(db: Database, user: Option<User>, random: seq<byte>) returns (r: Outcome<Token>)
    requires db.Valid()
    modifies db`tokens
    ensures db.Valid()
    ensures user.None? ==> r == Fail(Abort(StatusUnauthorized))
    ensures r.Done? <==> user.Some? && user.value.id.Some? && user.value.id.value < |db.users|
    ensures r.Fail? ==> db.tokens == old(db.tokens)
    ensures r.Done? ==>
      && r.value == Token(Base64.Encode(random), user.value.id.value)
      && db.tokens == old(db.tokens) + [r.value]
    ensures r.Done? && (forall k :: 0 <= k < |old(db.tokens)| ==> old(db.tokens)[k].token != r.value.token) ==>
      BearerAuthenticate(db.tokens, db.users, r.value.token) == Some(db.users[r.value.userID])
  {
    var authenticated := RequireAuthenticated(user);
    if authenticated.Fail? {
      return Fail(authenticated.failure);
    }
    var u := authenticated.value;
    var generated := Generate(u, random);
    if generated.Fail? {
      return Fail(generated.failure);
    }
    var t := generated.value;
    var ok := db.SaveToken(t);
    if !ok {
      return Fail(Abort(StatusInternalServerError));
    }
    if forall k :: 0 <= k < |old(db.tokens)| ==> old(db.tokens)[k].token != t.token {
      IssuedTokenAuthenticates(old(db.tokens), db.users, t);
    }
    r := Done(t);
  }
}
