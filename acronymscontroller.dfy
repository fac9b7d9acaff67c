/** The acronym API under /api/acronyms: queries (fetch by id, search, first,
    sorted) and the handlers that create, update, delete acronyms and link or
    unlink categories. The handlers receive the user the token middleware
    authenticated, if any. */
module AcronymsApi {
  import opened Common
  import opened Entities
  import opened Store
  import opened Text
  import opened Auth

  /** The `short` and `long` fields of a request body. */
  datatype AcronymData = AcronymData(short: string, long: string)

  /** `req.parameters.next(Acronym.self)`: the row with the id in the path, or 404. */
  function FetchAcronym(acronyms: seq<Acronym>, id: AcronymId): (r: Outcome<Acronym>)
    ensures r.Done? <==> exists i :: 0 <= i < |acronyms| && acronyms[i].id == Some(id)
    ensures r.Done? ==> r.value in acronyms && r.value.id == Some(id)
    ensures r.Fail? ==> r.failure == Abort(StatusNotFound)
  {
    match FindAcronymById(acronyms, id)
    case Some(k) => Done(acronyms[k])
    case None => Fail(Abort(StatusNotFound))
  }

  /** `req.parameters.next(Category.self)`: the row with the id in the path, or 404. */
  function FetchCategory(categories: seq<Category>, id: CategoryId): (r: Outcome<Category>)
    ensures CategoriesIndexed(categories) ==> (r.Done? <==> id < |categories|)
    ensures r.Done? ==> r.value in categories && r.value.id == Some(id)
    ensures r.Fail? ==> r.failure == Abort(StatusNotFound)
  {
    match FindCategoryById(categories, id)
    case Some(k) => Done(categories[k])
    case None => Fail(Abort(StatusNotFound))
  }

  /** `searchHandler`: without a `term` query parameter, 400; otherwise the rows
      whose short or long form equals the term exactly, in table order. */
  function Search(acronyms: seq<Acronym>, term: Option<string>): (r: Outcome<seq<Acronym>>)
    ensures r.Fail? <==> term.None?
    ensures r.Fail? ==> r.failure == Abort(StatusBadRequest)
    ensures r.Done? ==> forall a :: a in r.value <==> a in acronyms && (a.short == term.value || a.long == term.value)
    ensures r.Done? ==> forall a {:trigger multiset(r.value)[a]} ::
      (multiset(r.value)[a] == if a.short == term.value || a.long == term.value then multiset(acronyms)[a] else 0)
  {
    match term
    case None => Fail(Abort(StatusBadRequest))
    case Some(t) => Done(Filter(acronyms, (a: Acronym) => a.short == t || a.long == t))
  }

  /** The search result keeps table order: a row appended to the table is
      appended to the result exactly when it matches. With the empty table's empty
      result, this fixes the result row by row. */
  lemma SearchSnoc(acronyms: seq<Acronym>, a: Acronym, term: string)
    ensures Search(acronyms + [a], Some(term)).value
         == Search(acronyms, Some(term)).value + (if a.short == term || a.long == term then [a] else [])
  {
    FilterSnoc(acronyms, a, (a: Acronym) => a.short == term || a.long == term);
  }

  /** `getFirstHandler`: the first row, or 404 on an empty table. */
  function GetFirst(acronyms: seq<Acronym>): (r: Outcome<Acronym>)
    ensures r.Done? <==> |acronyms| > 0
    ensures r.Done? ==> r.value == acronyms[0]
    ensures r.Fail? ==> r.failure == Abort(StatusNotFound)
  {
    if |acronyms| == 0 then Fail(Abort(StatusNotFound)) else Done(acronyms[0])
  }

  predicate SortedByShort(s: seq<Acronym>) {
    forall i, j :: 0 <= i < j < |s| ==> LexLe(s[i].short, s[j].short)
  }

  /** Puts `x` into a sorted list, before the first row whose short form it does
      not follow. */
  function Insert(x: Acronym, s: seq<Acronym>): (r: seq<Acronym>)
    ensures multiset(r) == multiset(s) + multiset{x}
    decreases |s|
  {
    if |s| == 0 then [x]
    else if LexLe(x.short, s[0].short) then [x] + s
    else
      assert s == [s[0]] + s[1..];
      [s[0]] + Insert(x, s[1..])
  }

  lemma {:induction false} InsertSorted(x: Acronym, s: seq<Acronym>)
    requires SortedByShort(s)
    ensures SortedByShort(Insert(x, s))
    decreases |s|
  {
    var r := Insert(x, s);
    if |s| > 0 {
      if LexLe(x.short, s[0].short) {
        forall i, j | 0 <= i < j < |r|
          ensures LexLe(r[i].short, r[j].short)
        {
          if i == 0 && j > 1 {
            LexLeTransitive(x.short, s[0].short, s[j - 1].short);
          }
        }
      } else {
        LexLeTotal(x.short, s[0].short);
        var rest := Insert(x, s[1..]);
        InsertSorted(x, s[1..]);
        forall j | 1 <= j < |r|
          ensures LexLe(s[0].short, r[j].short)
        {
          assert r[j] == rest[j - 1];
          assert r[j] in multiset(rest);
          if r[j] != x {
            assert r[j] in multiset(s[1..]);
            var k :| 0 <= k < |s[1..]| && s[1..][k] == r[j];
            assert s[k + 1] == r[j];
          }
        }
      }
    }
  }

  /** `sortedHandler`: every row, in ascending order of the short form. */
  function SortByShort(acronyms: seq<Acronym>): (r: seq<Acronym>)
    ensures SortedByShort(r)
    ensures multiset(r) == multiset(acronyms)
    decreases |acronyms|
  {
    if |acronyms| == 0 then []
    else
      var rest := SortByShort(acronyms[1..]);
      InsertSorted(acronyms[0], rest);
      assert acronyms == [acronyms[0]] + acronyms[1..];
      Insert(acronyms[0], rest)
  }

  /** `createHandler`: a new row with the body's fields, owned by the authenticated user. */
  method CreateHandler(db: Database, user: Option<User>, data: AcronymData) returns (r: Outcome<Acronym>)
    requires db.Valid()
    modifies db`acronyms, db`nextAcronymId
    ensures db.Valid()
    ensures user.None? ==> r == Fail(Abort(StatusUnauthorized))
    ensures r.Done? <==> user.Some? && user.value.id.Some?
    ensures r.Done? ==>
      && r.value == Acronym(Some(old(db.nextAcronymId)), data.short, data.long, user.value.id.value)
      && db.acronyms == old(db.acronyms) + [r.value]
    ensures r.Fail? ==> db.acronyms == old(db.acronyms) && db.nextAcronymId == old(db.nextAcronymId)
  {
    var authenticated := RequireAuthenticated(user);
    if authenticated.Fail? {
      return Fail(authenticated.failure);
    }
    var u := authenticated.value;
    if u.id.None? {
      return Fail(Abort(StatusInternalServerError));
    }
    var saved := db.SaveNewAcronym(data.short, data.long, u.id.value);
    r := Done(saved);
  }

  /** `updateHandler`: the row in the path takes the body's fields and the
      authenticated user as owner; its id stays. */
  method UpdateHandler(db: Database, user: Option<User>, id: AcronymId, data: AcronymData) returns (r: Outcome<Acronym>)
    requires db.Valid()
    modifies db`acronyms
    ensures db.Valid()
    ensures FetchAcronym(old(db.acronyms), id).Fail? ==> r == Fail(Abort(StatusNotFound))
    ensures FetchAcronym(old(db.acronyms), id).Done? && user.None? ==> r == Fail(Abort(StatusUnauthorized))
    ensures r.Done? <==> FetchAcronym(old(db.acronyms), id).Done? && user.Some? && user.value.id.Some?
    ensures r.Done? ==>
      && r.value == Acronym(Some(id), data.short, data.long, user.value.id.value)
      && db.acronyms == old(db.acronyms)[FindAcronymById(old(db.acronyms), id).value := r.value]
    ensures r.Fail? ==> db.acronyms == old(db.acronyms)
  {
    var fetched := FetchAcronym(db.acronyms, id);
    if fetched.Fail? {
      return Fail(fetched.failure);
    }
    var authenticated := RequireAuthenticated(user);
    if authenticated.Fail? {
      return Fail(authenticated.failure);
    }
    var u := authenticated.value;
    if u.id.None? {
      return Fail(Abort(StatusInternalServerError));
    }
    var updated := fetched.value.(short := data.short, long := data.long, userID := u.id.value);
    db.UpdateAcronym(updated);
    r := Done(updated);
  }

  /** `deleteHandler`: removes the row in the path and answers 204. */
  method DeleteHandler(db: Database, id: AcronymId) returns (r: Outcome<Response>)
    requires db.Valid()
    modifies db`acronyms
    ensures db.Valid()
    ensures r.Fail? <==> FetchAcronym(old(db.acronyms), id).Fail?
    ensures r.Fail? ==> r.failure == Abort(StatusNotFound) && db.acronyms == old(db.acronyms)
    ensures r.Done? ==>
      && r.value == Status(StatusNoContent)
      && var k := FindAcronymById(old(db.acronyms), id).value;
         db.acronyms == old(db.acronyms)[..k] + old(db.acronyms)[k + 1..]
  {
    var fetched := FetchAcronym(db.acronyms, id);
    if fetched.Fail? {
      return Fail(fetched.failure);
    }
    db.DeleteAcronym(id);
    r := Done(Status(StatusNoContent));
  }

  /** `addCategoriesHandler`: links the acronym and the category in the path
      and answers 201; an unknown id in the path is 404. */
  method AddCategoriesHandler(db: Database, acronym: AcronymId, category: CategoryId) returns (r: Outcome<Response>)
    requires db.Valid()
    modifies db`pivot
    ensures db.Valid()
    ensures r.Fail? <==> FetchAcronym(db.acronyms, acronym).Fail? || FetchCategory(db.categories, category).Fail?
    ensures r.Fail? ==> r.failure == Abort(StatusNotFound) && db.pivot == old(db.pivot)
    ensures r.Done? ==> r.value == Status(StatusCreated) && db.pivot == old(db.pivot) + {(acronym, category)}
  {
    var a := FetchAcronym(db.acronyms, acronym);
    var c := FetchCategory(db.categories, category);
    if a.Fail? || c.Fail? {
      return Fail(Abort(StatusNotFound));
    }
    db.Attach(acronym, category);
    r := Done(Status(StatusCreated));
  }

  /** `removeCategoriesHandler`: unlinks the acronym and the category in the path
      and answers 204; an unknown id in the path is 404. */
  method RemoveCategoriesHandler(db: Database, acronym: AcronymId, category: CategoryId) returns (r: Outcome<Response>)
    requires db.Valid()
    modifies db`pivot
    ensures db.Valid()
    ensures r.Fail? <==> FetchAcronym(db.acronyms, acronym).Fail? || FetchCategory(db.categories, category).Fail?
    ensures r.Fail? ==> r.failure == Abort(StatusNotFound) && db.pivot == old(db.pivot)
    ensures r.Done? ==> r.value == Status(StatusNoContent) && db.pivot == old(db.pivot) - {(acronym, category)}
  {
    var a := FetchAcronym(db.acronyms, acronym);
    var c := FetchCategory(db.categories, category);
    if a.Fail? || c.Fail? {
      return Fail(Abort(StatusNotFound));
    }
    db.Detach(acronym, category);
    r := Done(Status(StatusNoContent));
  }
}
