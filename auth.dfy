/** How a request becomes authenticated before a handler runs: bearer-token and
    basic authentication on the API, the session on the web site, and the guard
    and redirect middleware that turn an unauthenticated request away. The route
    groups of the controllers say which of these applies to each endpoint. */
module Auth {
  import opened Common
  import opened Entities
  import opened Store
  import opened UserModel
  import opened TokenModel

  /** The credentials a request carries in its Authorization header. */
  datatype Credentials = NoCredentials | BearerCredentials(token: string) | BasicCredentials(username: string, password: string)

  /** `User.tokenAuthMiddleware()`: a bearer header that resolves authenticates
      the request; any other request goes on unauthenticated. */
  function TokenAuthMiddleware(tokens: seq<Token>, users: seq<User>, cred: Credentials): (r: Option<User>)
    ensures r.Some? ==> cred.BearerCredentials? && r == BearerAuthenticate(tokens, users, cred.token)
    ensures cred.BearerCredentials? ==> r == BearerAuthenticate(tokens, users, cred.token)
  {
    match cred
    case BearerCredentials(t) => BearerAuthenticate(tokens, users, t)
    case _ => None
  }

  /** `User.basicAuthMiddleware(using:)`: a basic header whose username and password
      verify authenticates the request; any other request goes on unauthenticated. */
  function BasicAuthMiddleware(users: seq<User>, cred: Credentials, verify: (string, string) -> bool): (r: Option<User>)
    ensures r.Some? ==> cred.BasicCredentials? && r == BasicAuthenticate(users, cred.username, cred.password, verify)
    ensures cred.BasicCredentials? ==> r == BasicAuthenticate(users, cred.username, cred.password, verify)
  {
    match cred
    case BasicCredentials(u, p) => BasicAuthenticate(users, u, p, verify)
    case _ => None
  }

  /** `req.requireAuthenticated(User.self)`, which is also what the guard middleware
      does: the authenticated user, or an abort with 401. */
  function RequireAuthenticated(user: Option<User>): (r: Outcome<User>)
    ensures r.Done? <==> user.Some?
    ensures r.Done? ==> r.value == user.value
    ensures r.Fail? ==> r.failure == Abort(StatusUnauthorized)
  {
    match user
    case Some(u) => Done(u)
    case None => Fail(Abort(StatusUnauthorized))
  }

  /** `User.authSessionsMiddleware()`: the user whose id the session holds, if that
      user still exists. */
  function SessionUser(users: seq<User>, authUser: Option<UserId>): (r: Option<User>)
    ensures r.Some? ==> r.value in users && authUser.Some? && r.value.id == Some(authUser.value)
    ensures UsersIndexed(users) && authUser.Some? && authUser.value < |users| ==> r == Some(users[authUser.value])
  {
    match authUser
    case None => None
    case Some(id) =>
      match FindUserById(users, id)
      case None => None
      case Some(i) => Some(users[i])
  }

  /** The middleware a route group runs before its handlers. */
  datatype Protection =
    | Open            // no authentication
    | BasicGroup      // basic authentication middleware
    | TokenGuarded    // token authentication middleware, then the guard
    | SessionGroup    // the session restores the user
    | LoginRedirect   // the session, then a redirect to /login without a user

  datatype Endpoint =
    | UsersGetAll | UsersGet | UsersGetAcronyms | UsersLogin | UsersCreate
    | AcronymsGetAll | AcronymsGet | AcronymsSearch | AcronymsFirst | AcronymsSorted
    | AcronymsGetUser | AcronymsGetCategories
    | AcronymsCreate | AcronymsDelete | AcronymsUpdate | AcronymsAddCategory | AcronymsRemoveCategory
    | SiteIndex | SiteAcronym | SiteUser | SiteAllUsers | SiteAllCategories | SiteCategory
    | SiteLoginForm | SiteLoginPost | SiteLogout | SiteRegisterForm | SiteRegisterPost
    | SiteCreateForm | SiteCreatePost | SiteEditForm | SiteEditPost | SiteDelete

  /** The route groups the controllers register their endpoints in. */
  function ProtectionOf(e: Endpoint): (r: Protection)
    ensures ChangesApiTables(e) <==> r == TokenGuarded || r == BasicGroup
    ensures r == BasicGroup <==> e == UsersLogin
    ensures r == LoginRedirect <==> e.SiteCreateForm? || e.SiteCreatePost? || e.SiteEditForm? || e.SiteEditPost? || e.SiteDelete?
  {
    match e
    case UsersLogin => BasicGroup
    case UsersCreate => TokenGuarded
    case AcronymsCreate | AcronymsDelete | AcronymsUpdate | AcronymsAddCategory | AcronymsRemoveCategory => TokenGuarded
    case SiteCreateForm | SiteCreatePost | SiteEditForm | SiteEditPost | SiteDelete => LoginRedirect
    case SiteIndex | SiteAcronym | SiteUser | SiteAllUsers | SiteAllCategories | SiteCategory
       | SiteLoginForm | SiteLoginPost | SiteLogout | SiteRegisterForm | SiteRegisterPost => SessionGroup
    case _ => Open
  }

  /** The API endpoints that change a table. */
  predicate ChangesApiTables(e: Endpoint) {
    e.UsersCreate? || e.UsersLogin? || e.AcronymsCreate? || e.AcronymsDelete? || e.AcronymsUpdate?
    || e.AcronymsAddCategory? || e.AcronymsRemoveCategory?
  }

  /** Runs a group's middleware: the user the handler sees, or how the request is
      turned away before the handler runs. */
  function Admit(p: Protection, users: seq<User>, tokens: seq<Token>, cred: Credentials,
                 authUser: Option<UserId>, verify: (string, string) -> bool): (r: Outcome<Option<User>>)
    ensures r.Fail? <==> ((p == TokenGuarded && TokenAuthMiddleware(tokens, users, cred).None?)
                       || (p == LoginRedirect && SessionUser(users, authUser).None?))
    ensures r.Fail? && p == TokenGuarded ==> r.failure == Abort(StatusUnauthorized)
    ensures r.Fail? && p == LoginRedirect ==> r.failure == AbortRedirect("/login")
    ensures r.Done? && r.value.Some? && (p == TokenGuarded || p == BasicGroup) ==> r.value.value in users
    ensures p == Open ==> r == Done(None)
    ensures p == BasicGroup ==> r == Done(BasicAuthMiddleware(users, cred, verify))
    ensures p == SessionGroup ==> r == Done(SessionUser(users, authUser))
    ensures p == TokenGuarded && r.Done? ==> r.value == TokenAuthMiddleware(tokens, users, cred)
    ensures p == LoginRedirect && r.Done? ==> r.value == SessionUser(users, authUser)
  {
    match p
    case Open => Done(None)
    case BasicGroup => Done(BasicAuthMiddleware(users, cred, verify))
    case TokenGuarded =>
      (match RequireAuthenticated(TokenAuthMiddleware(tokens, users, cred))
       case Done(u) => Done(Some(u))
       case Fail(f) => Fail(f))
    case SessionGroup => Done(SessionUser(users, authUser))
    case LoginRedirect =>
      (match SessionUser(users, authUser)
       case None => Fail(AbortRedirect("/login"))
       case Some(u) => Done(Some(u)))
  }

  /** Every API endpoint that changes the tables is behind some authentication:
      creating users and every acronym change need a bearer token that resolves,
      and the token-issuing login needs basic credentials that verify. A request
      without them is turned away with 401 or reaches login unauthenticated. */
  lemma ApiChangesNeedCredentials(e: Endpoint, users: seq<User>, tokens: seq<Token>, cred: Credentials,
                                  authUser: Option<UserId>, verify: (string, string) -> bool)
    requires ChangesApiTables(e)
    ensures var r := Admit(ProtectionOf(e), users, tokens, cred, authUser, verify);
      && (e != UsersLogin ==> (r.Done? <==> cred.BearerCredentials? && BearerAuthenticate(tokens, users, cred.token).Some?))
      && (e != UsersLogin && r.Fail? ==> r.failure == Abort(StatusUnauthorized))
      && (e != UsersLogin && r.Done? ==> r.value == BearerAuthenticate(tokens, users, cred.token))
      && (e == UsersLogin ==> r.Done? && (r.value.Some? <==>
            (cred.BasicCredentials? && BasicAuthenticate(users, cred.username, cred.password, verify).Some?)))
  {
  }

  /** The site's form pages and form posts answer a request without a logged-in
      session with a redirect to /login, and run only for a user of the table. */
  lemma SiteFormsNeedSession(e: Endpoint, users: seq<User>, tokens: seq<Token>, cred: Credentials,
                             authUser: Option<UserId>, verify: (string, string) -> bool)
    requires e.SiteCreateForm? || e.SiteCreatePost? || e.SiteEditForm? || e.SiteEditPost? || e.SiteDelete?
    ensures var r := Admit(ProtectionOf(e), users, tokens, cred, authUser, verify);
      && (r.Fail? <==> SessionUser(users, authUser).None?)
      && (r.Fail? ==> r.failure == AbortRedirect("/login"))
      && (r.Done? ==> r.value.Some? && r.value.value in users && r.value == SessionUser(users, authUser))
  {
  }
}
