/** The web site's handlers that compute or change something: the home page's
    flags, the acronym create and edit forms with their anti-forgery token, the
    category reconciliation of an edit, delete, session login and logout, and
    registration. Page rendering is reduced to the values a page is given. */
module Website {
  import opened Common
  import opened Entities
  import opened Store
  import opened Text
  import Base64
  import opened Auth
  import opened Csrf
  import opened CategoryModel
  import opened Reconciliation
  import opened AcronymsApi
  import opened UserModel
  import opened Registration

  /** The posted create or edit form. */
  datatype CreateAcronymData = CreateAcronymData(short: string, long: string,
                                                 categories: Option<seq<string>>, csrfToken: string)

  /** What the home page is given. */
  datatype IndexContext = IndexContext(acronyms: Option<seq<Acronym>>, userLoggedIn: bool, showCookieMessage: bool)

  /** What the edit form is given. */
  datatype EditAcronymContext = EditAcronymContext(acronym: Acronym, categories: seq<Category>, csrfToken: string)

  const CookiesAccepted: string := "cookies-accepted"

  /** `indexHandler`: an empty acronym table is passed as no list; the user flag
      says whether the session restored a user; the cookie banner shows until the
      `cookies-accepted` cookie is set. */
  function IndexPage(acronyms: seq<Acronym>, sessionUser: Option<User>, cookies: map<string, string>)
    : (ctx: IndexContext)
    ensures ctx.acronyms.None? <==> |acronyms| == 0
    ensures ctx.acronyms.Some? ==> ctx.acronyms.value == acronyms
    ensures ctx.userLoggedIn <==> sessionUser.Some?
    ensures ctx.showCookieMessage <==> CookiesAccepted !in cookies
  {
    IndexContext(if |acronyms| == 0 then None else Some(acronyms), sessionUser.Some?, CookiesAccepted !in cookies)
  }

  /** The loop of `createAcronymPostHandler`: find-or-create-then-attach for each
      name of the list, in order. The acronym gains exactly the listed names, no
      category row changes and no other acronym's links change. */
  method AttachNames(db: Database, acronym: AcronymId, names: seq<string>)
    requires db.Valid() && acronym < db.nextAcronymId
    modifies db`categories, db`pivot
    ensures db.Valid()
    ensures forall n :: n in AttachedNames(db.categories, db.pivot, acronym)
                    <==> n in AttachedNames(old(db.categories), old(db.pivot), acronym) || n in names
    ensures old(db.categories) <= db.categories
    ensures forall p: PivotRow :: p.0 != acronym ==> (p in db.pivot <==> p in old(db.pivot))
  {
    var i := 0;
    while i < |names|
      invariant 0 <= i <= |names|
      invariant db.Valid()
      invariant old(db.categories) <= db.categories
      invariant forall p: PivotRow :: p.0 != acronym ==> (p in db.pivot <==> p in old(db.pivot))
      invariant forall n :: n in AttachedNames(db.categories, db.pivot, acronym)
                        <==> n in AttachedNames(old(db.categories), old(db.pivot), acronym) || n in names[..i]
    {
      AddExtendsNames(db.categories, db.pivot, acronym, names[i]);
      AddCategory(db, names[i], acronym);
      assert names[..i + 1] == names[..i] + [names[i]];
      i := i + 1;
    }
    assert names[..i] == names;
  }

  /** `createAcronymPostHandler`: reads and clears the session token and answers
      400 on a mismatch; otherwise saves the acronym for the session's user, runs
      find-or-create-then-attach for each submitted name in order, and redirects to
      the new acronym's page. */
  method CreateAcronymPost(db: Database, session: Session, data: CreateAcronymData) returns (r: Outcome<Response>)
    requires db.Valid()
    modifies db`acronyms, db`nextAcronymId, db`categories, db`pivot, session`data
    ensures db.Valid()
    ensures session.data == old(session.data) - {CsrfKey}
    ensures !Accepts(old(session.data), data.csrfToken) ==> r == Fail(Abort(StatusBadRequest))
    ensures Accepts(old(session.data), data.csrfToken) && SessionUser(old(db.users), old(session.authUser)).None?
      ==> r == Fail(Abort(StatusUnauthorized))
    ensures r.Done? <==> Accepts(old(session.data), data.csrfToken) && SessionUser(old(db.users), old(session.authUser)).Some?
    ensures r.Fail? ==>
      && db.acronyms == old(db.acronyms) && db.nextAcronymId == old(db.nextAcronymId)
      && db.categories == old(db.categories) && db.pivot == old(db.pivot)
    ensures r.Done? ==>
      var id := old(db.nextAcronymId);
      && r.value == Redirect("/acronyms/" + Decimal(id))
      && db.acronyms == old(db.acronyms) + [Acronym(Some(id), data.short, data.long, old(session.authUser).value)]
      && db.nextAcronymId == id + 1
      && AttachedNames(db.categories, db.pivot, id) == SubmittedNames(data.categories)
      && old(db.categories) <= db.categories
      && (forall p: PivotRow :: p.0 != id ==> (p in db.pivot <==> p in old(db.pivot)))
  {
    var ok := ConsumeToken(session, data.csrfToken);
    if !ok {
      return Fail(Abort(StatusBadRequest));
    }
    var authenticated := RequireAuthenticated(SessionUser(db.users, session.authUser));
    if authenticated.Fail? {
      return Fail(authenticated.failure);
    }
    var u := authenticated.value;
    var saved := db.SaveNewAcronym(data.short, data.long, u.id.value);
    var id := saved.id.value;
    assert AttachedNames(db.categories, db.pivot, id) == {};
    var names := match data.categories case Some(ns) => ns case None => [];
    AttachNames(db, id, names);
    r := Done(Redirect("/acronyms/" + Decimal(id)));
  }

  /** `editAcronymHandler`: mints the token first, then fetches the acronym (404 if
      there is none) and hands the form its current categories and the token. */
  method EditAcronymForm(db: Database, session: Session, id: AcronymId, random: seq<Common.byte>)
    returns (r: Outcome<EditAcronymContext>)
    modifies session`data
    ensures session.data == old(session.data)[CsrfKey := Base64.Encode(random)]
    ensures r.Fail? <==> FetchAcronym(db.acronyms, id).Fail?
    ensures r.Fail? ==> r.failure == Abort(StatusNotFound)
    ensures r.Done? ==>
      && r.value.acronym == FetchAcronym(db.acronyms, id).value
      && r.value.categories == AttachedCategories(db.categories, db.pivot, id)
      && r.value.csrfToken == Base64.Encode(random)
      && Accepts(session.data, r.value.csrfToken)
  {
    var token := MintToken(session, random);
    var fetched := FetchAcronym(db.acronyms, id);
    if fetched.Fail? {
      return Fail(fetched.failure);
    }
    r := Done(EditAcronymContext(fetched.value, AttachedCategories(db.categories, db.pivot, id), token));
  }

  /** `editAcronymPostHandler`: 404 for an unknown acronym and 401 without a user
      come before the token is read; the token is then read and cleared, and a
      mismatch answers 400 before the save. After the save, the acronym's current
      categories are read, the reconciliation plan is made from them and the
      submitted names, and the plan runs. */
  method EditAcronymPost(db: Database, session: Session, id: AcronymId, data: CreateAcronymData)
    returns (r: Outcome<Response>)
    requires db.Valid()
    modifies db`acronyms, db`categories, db`pivot, session`data
    ensures db.Valid()
    ensures FetchAcronym(old(db.acronyms), id).Fail? ==>
      r == Fail(Abort(StatusNotFound)) && session.data == old(session.data)
    ensures FetchAcronym(old(db.acronyms), id).Done? && SessionUser(old(db.users), old(session.authUser)).None? ==>
      r == Fail(Abort(StatusUnauthorized)) && session.data == old(session.data)
    ensures FetchAcronym(old(db.acronyms), id).Done? && SessionUser(old(db.users), old(session.authUser)).Some? ==>
      session.data == old(session.data) - {CsrfKey}
    ensures (FetchAcronym(old(db.acronyms), id).Done? && SessionUser(old(db.users), old(session.authUser)).Some?
             && !Accepts(old(session.data), data.csrfToken)) ==> r == Fail(Abort(StatusBadRequest))
    ensures r.Done? <==>
      && FetchAcronym(old(db.acronyms), id).Done?
      && SessionUser(old(db.users), old(session.authUser)).Some?
      && Accepts(old(session.data), data.csrfToken)
    ensures r.Fail? ==> db.acronyms == old(db.acronyms) && db.categories == old(db.categories) && db.pivot == old(db.pivot)
    ensures r.Done? ==>
      && r.value == Redirect("/acronyms/" + Decimal(id))
      && db.acronyms == old(db.acronyms)[FindAcronymById(old(db.acronyms), id).value :=
                                          Acronym(Some(id), data.short, data.long, old(session.authUser).value)]
      && old(db.categories) <= db.categories
      && (forall p: PivotRow :: p.0 != id ==> (p in db.pivot <==> p in old(db.pivot)))
      && (DistinctAttachedNames(old(db.categories), old(db.pivot), id) ==>
            && AttachedNames(db.categories, db.pivot, id) == SubmittedNames(data.categories)
            && DistinctAttachedNames(db.categories, db.pivot, id))
  {
    var fetched := FetchAcronym(db.acronyms, id);
    if fetched.Fail? {
      return Fail(fetched.failure);
    }
    var authenticated := RequireAuthenticated(SessionUser(db.users, session.authUser));
    if authenticated.Fail? {
      return Fail(authenticated.failure);
    }
    var u := authenticated.value;
    var ok := ConsumeToken(session, data.csrfToken);
    if !ok {
      return Fail(Abort(StatusBadRequest));
    }
    var updated := fetched.value.(short := data.short, long := data.long, userID := u.id.value);
    db.UpdateAcronym(updated);
    var k := FindAcronymById(old(db.acronyms), id).value;
    assert db.acronyms[k] == updated;
    var existing := AttachedCategories(db.categories, db.pivot, id);
    var ops := PlanReconciliation(existing, data.categories);
    RunOps(db, id, ops);
    ApplyOpsLocal(old(db.categories), old(db.pivot), id, ops);
    if DistinctAttachedNames(old(db.categories), old(db.pivot), id) {
      ReconcileMatchesSubmitted(old(db.categories), old(db.pivot), id, SubmittedNames(data.categories), ops);
    }
    r := Done(Redirect("/acronyms/" + Decimal(id)));
  }

  /** `deleteAcronymHandler`: 404 for an unknown acronym, otherwise the row is
      deleted and the browser goes home. */
  method DeleteAcronymPost(db: Database, id: AcronymId) returns (r: Outcome<Response>)
    requires db.Valid()
    modifies db`acronyms
    ensures db.Valid()
    ensures r.Fail? <==> FetchAcronym(old(db.acronyms), id).Fail?
    ensures r.Fail? ==> r.failure == Abort(StatusNotFound) && db.acronyms == old(db.acronyms)
    ensures r.Done? ==>
      && r.value == Redirect("/")
      && var k := FindAcronymById(old(db.acronyms), id).value;
         db.acronyms == old(db.acronyms)[..k] + old(db.acronyms)[k + 1..]
  {
    var fetched := FetchAcronym(db.acronyms, id);
    if fetched.Fail? {
      return Fail(fetched.failure);
    }
    db.DeleteAcronym(id);
    r := Done(Redirect("/"));
  }

  /** `loginPostHandler`: credentials that verify bind the session to that user
      and go home; otherwise back to the login page with the error flag and the
      session as it was. */
  method LoginPost(db: Database, session: Session, username: string, password: string,
                   verify: (string, string) -> bool) returns (r: Response)
    requires db.Valid()
    modifies session`authUser
    ensures BasicAuthenticate(db.users, username, password, verify).None? ==>
      r == Redirect("/login?error") && session.authUser == old(session.authUser)
    ensures BasicAuthenticate(db.users, username, password, verify).Some? ==>
      && r == Redirect("/")
      && session.authUser.Some?
      && BasicAuthenticate(db.users, username, password, verify).value.id == session.authUser
      && SessionUser(db.users, session.authUser) == BasicAuthenticate(db.users, username, password, verify)
  {
    var user := BasicAuthenticate(db.users, username, password, verify);
    if user.None? {
      return Redirect("/login?error");
    }
    var u := user.value;
    var i :| 0 <= i < |db.users| && db.users[i] == u;
    session.Authenticate(u.id.value);
    r := Redirect("/");
  }

  /** `logoutHandler`: the session forgets its user. */
  method Logout(session: Session) returns (r: Response)
    modifies session`authUser
    ensures session.authUser == None
    ensures r == Redirect("/")
  {
    session.Unauthenticate();
    r := Redirect("/");
  }

  /** `registerPostHandler`: a registration that fails validation is sent back to
      the form with the reason and saves nothing; otherwise the password is
      hashed (a hash failure is 500), an empty profile URL is dropped, the user is
      saved (a taken username is 500) and the session is bound to the new user.
      `encodeReason` is the percent-encoded reason text of the failures, or none. */
  method RegisterPost(db: Database, session: Session, data: RegisterData, hash: string -> Option<string>,
                      encodeReason: seq<ValidationFailure> -> Option<string>) returns (r: Outcome<Response>)
    requires db.Valid()
    modifies db`users, session`authUser
    ensures db.Valid()
    ensures !IsValid(data) ==> r == Done(Redirect(FailureRedirect(encodeReason(Validate(data)))))
    ensures IsValid(data) && hash(data.password).None? ==> r == Fail(Abort(StatusInternalServerError))
    ensures IsValid(data) && hash(data.password).Some? && FindUserByUsername(old(db.users), data.username).Some?
      ==> r == Fail(Abort(StatusInternalServerError))
    ensures r == Done(Redirect("/")) <==>
      IsValid(data) && hash(data.password).Some? && FindUserByUsername(old(db.users), data.username).None?
    ensures r != Done(Redirect("/")) ==> db.users == old(db.users) && session.authUser == old(session.authUser)
    ensures r == Done(Redirect("/")) ==>
      && db.users == old(db.users) + [User(Some(|old(db.users)|), data.name, data.username,
                                           hash(data.password).value, NormalizeTwitterURL(data.twitterURL))]
      && session.authUser == Some(|old(db.users)|)
  {
    var failures := Validate(data);
    if failures != [] {
      var location := FailureRedirect(encodeReason(failures));
      assert location[..9] == "/register";
      return Done(Redirect(location));
    }
    var password := hash(data.password);
    if password.None? {
      return Fail(Abort(StatusInternalServerError));
    }
    var twitterURL: Option<string> := None;
    if data.twitterURL.Some? && data.twitterURL.value != "" {
      twitterURL := data.twitterURL;
    }
    var saved := db.SaveNewUser(data.name, data.username, password.value, twitterURL);
    if saved.None? {
      return Fail(Abort(StatusInternalServerError));
    }
    session.Authenticate(saved.value.id.value);
    r := Done(Redirect("/"));
  }
}
