/** Users: the public projection shown by the API, basic authentication on the
    username and password-hash columns, and the migration that seeds the admin
    account. */
module UserModel {
  import opened Common
  import opened Entities
  import opened Store

  /** `convertToPublic`: id, name and username, and nothing else. */
  function ConvertToPublic(u: User): (p: PublicUser)
    ensures p.id == u.id && p.name == u.name && p.username == u.username
  {
    PublicUser(u.id, u.name, u.username)
  }

  /** The projection never depends on the password hash or the profile URL: two
      users that agree on id, name and username look the same. */
  lemma PublicHidesPassword(u: User, v: User)
    requires u.id == v.id && u.name == v.name && u.username == v.username
    ensures ConvertToPublic(u) == ConvertToPublic(v)
  {
  }

  /** The `Future<User>` form: a failed lookup or save stays failed with the same
      failure, a user is mapped through the same projection. */
  function ConvertFutureToPublic(f: Outcome<User>): (r: Outcome<PublicUser>)
    ensures r.Fail? <==> f.Fail?
    ensures f.Fail? ==> r.failure == f.failure
    ensures f.Done? ==> r.value == ConvertToPublic(f.value)
  {
    match f
    case Done(u) => Done(ConvertToPublic(u))
    case Fail(e) => Fail(e)
  }

  /** The projection of every row of a table, in table order. */
  function ConvertAllToPublic(users: seq<User>): (r: seq<PublicUser>)
    ensures |r| == |users|
    ensures forall i :: 0 <= i < |users| ==> r[i] == ConvertToPublic(users[i])
    decreases |users|
  {
    if |users| == 0 then [] else [ConvertToPublic(users[0])] + ConvertAllToPublic(users[1..])
  }

  /** Basic authentication (`usernameKey` is the username column, `passwordKey`
      the password column): the user whose username is `username`, when `verify`
      accepts `password` against that user's stored hash. */
  function BasicAuthenticate(users: seq<User>, username: string, password: string,
                             verify: (string, string) -> bool): (r: Option<User>)
    ensures r.Some? ==> r.value in users && r.value.username == username && verify(password, r.value.password)
    ensures UniqueUsernames(users) ==>
      (r.Some? <==> exists i :: 0 <= i < |users| && users[i].username == username && verify(password, users[i].password))
  {
    match FindUserByUsername(users, username)
    case None => None
    case Some(i) => if verify(password, users[i].password) then Some(users[i]) else None
  }

  const AdminName: string := "Admin"
  const AdminUsername: string := "admin"
  const AdminPassword: string := "password"

  /** How the admin seed ends: the user it inserted, a fatal stop because hashing
      failed, or a failed save (the username is taken), which fails the migration. */
  datatype SeedResult = Seeded(user: User) | FatalHashFailure | SaveFailed

  /** `AdminUser.prepare`: hashes "password", stops fatally if that fails, and
      otherwise inserts the user "Admin" / "admin" with the hash as its password. */
  method PrepareAdminUser(db: Database, hash: string -> Option<string>) returns (r: SeedResult)
    requires db.Valid()
    modifies db`users
    ensures db.Valid()
    ensures r == FatalHashFailure <==> hash(AdminPassword).None?
    ensures r.FatalHashFailure? || r.SaveFailed? ==> db.users == old(db.users)
    ensures r.SaveFailed? <==> hash(AdminPassword).Some? && FindUserByUsername(old(db.users), AdminUsername).Some?
    ensures r.Seeded? ==>
      && r.user == User(Some(|old(db.users)|), AdminName, AdminUsername, hash(AdminPassword).value, None)
      && db.users == old(db.users) + [r.user]
  {
    var hashed := hash(AdminPassword);
    if hashed.None? {
      return FatalHashFailure;
    }
    var saved := db.SaveNewUser(AdminName, AdminUsername, hashed.value, None);
    match saved
    case None => r := SaveFailed;
    case Some(u) => r := Seeded(u);
  }

  /** `AdminUser.revert`: completes at once and changes nothing. */
  method RevertAdminUser(db: Database)
    ensures unchanged(db)
  {
  }
}
