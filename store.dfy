/** The in-memory store standing in for the database (tables of users, tokens,
    categories and acronyms and the acronym/category pivot) and the per-request
    session. Rows are kept in insertion order, which is the order in which the
    queries below see them. */
module Store {
  import opened Common
  import opened Entities

  /** `filter(...).first()`: the index of the first row satisfying `p`. */
  function FirstMatch<T>(rows: seq<T>, p: T -> bool): (r: Option<nat>)
    ensures r.Some? ==> r.value < |rows| && p(rows[r.value])
    ensures r.Some? ==> forall j :: 0 <= j < r.value ==> !p(rows[j])
    ensures r.None? ==> forall j :: 0 <= j < |rows| ==> !p(rows[j])
    decreases |rows|
  {
    if |rows| == 0 then None
    else if p(rows[0]) then Some(0)
    else
      match FirstMatch(rows[1..], p)
      case None => None
      case Some(k) => Some(k + 1)
  }

  /** `filter(...).all()`: the rows satisfying `p`, in table order. */
  function Filter<T(!new)>(rows: seq<T>, p: T -> bool): (r: seq<T>)
    ensures forall x :: x in r <==> x in rows && p(x)
    ensures forall x {:trigger multiset(r)[x]} :: multiset(r)[x] == if p(x) then multiset(rows)[x] else 0
    ensures |r| <= |rows|
    decreases |rows|
  {
    if |rows| == 0 then []
    else
      assert rows == [rows[0]] + rows[1..];
      (if p(rows[0]) then [rows[0]] else []) + Filter(rows[1..], p)
  }

  /** Filtering a table with one more row at the end gives the old result, then
      that row if it satisfies `p`: the result keeps table order. Together with
      `Filter([], p) == []` this determines the result. */
  lemma {:induction false} FilterSnoc<T(!new)>(rows: seq<T>, x: T, p: T -> bool)
    ensures Filter(rows + [x], p) == Filter(rows, p) + (if p(x) then [x] else [])
    decreases |rows|
  {
    if |rows| == 0 {
      assert rows + [x] == [x];
      assert [x][1..] == [];
    } else {
      var head := if p(rows[0]) then [rows[0]] else [];
      var tail := if p(x) then [x] else [];
      assert (rows + [x])[0] == rows[0];
      assert (rows + [x])[1..] == rows[1..] + [x];
      FilterSnoc(rows[1..], x, p);
      assert Filter(rows, p) == head + Filter(rows[1..], p);
      calc {
        Filter(rows + [x], p);
        head + Filter(rows[1..] + [x], p);
        head + (Filter(rows[1..], p) + tail);
        (head + Filter(rows[1..], p)) + tail;
        Filter(rows, p) + tail;
      }
    }
  }

  /** The user row whose username is `username`, if any. */
  function FindUserByUsername(users: seq<User>, username: string): (r: Option<nat>)
    ensures r.Some? ==> r.value < |users| && users[r.value].username == username
    ensures r.None? <==> forall i :: 0 <= i < |users| ==> users[i].username != username
  {
    FirstMatch(users, (u: User) => u.username == username)
  }

  /** The user row with id `id`; in a well-formed table, the row at index `id`. */
  function FindUserById(users: seq<User>, id: UserId): (r: Option<nat>)
    ensures r.Some? ==> r.value < |users| && users[r.value].id == Some(id)
    ensures UsersIndexed(users) ==> r == if id < |users| then Some(id) else None
  {
    FirstMatch(users, (u: User) => u.id == Some(id))
  }

  /** The acronym row with id `id`, if any. */
  function FindAcronymById(acronyms: seq<Acronym>, id: AcronymId): (r: Option<nat>)
    ensures r.Some? ==> r.value < |acronyms| && acronyms[r.value].id == Some(id)
    ensures r.None? <==> forall i :: 0 <= i < |acronyms| ==> acronyms[i].id != Some(id)
  {
    FirstMatch(acronyms, (a: Acronym) => a.id == Some(id))
  }

  /** The category row with id `id`; in a well-formed table, the row at index `id`. */
  function FindCategoryById(categories: seq<Category>, id: CategoryId): (r: Option<nat>)
    ensures r.Some? ==> r.value < |categories| && categories[r.value].id == Some(id)
    ensures CategoriesIndexed(categories) ==> r == if id < |categories| then Some(id) else None
  {
    FirstMatch(categories, (c: Category) => c.id == Some(id))
  }

  /** Saved users carry their position as id. */
  ghost predicate UsersIndexed(users: seq<User>) {
    forall i :: 0 <= i < |users| ==> users[i].id == Some(i)
  }

  /** The unique constraint on the username column. */
  ghost predicate UniqueUsernames(users: seq<User>) {
    forall i, j :: 0 <= i < j < |users| ==> users[i].username != users[j].username
  }

  /** The foreign key from a token's userID to a user id. */
  ghost predicate TokensReferenceUsers(tokens: seq<Token>, users: seq<User>) {
    forall k :: 0 <= k < |tokens| ==> tokens[k].userID < |users|
  }

  ghost predicate CategoriesIndexed(categories: seq<Category>) {
    forall i :: 0 <= i < |categories| ==> categories[i].id == Some(i)
  }

  /** Every acronym row has an id below the next one to be handed out, and no two share one. */
  ghost predicate AcronymIdsUnique(acronyms: seq<Acronym>, nextId: nat) {
    && (forall i :: 0 <= i < |acronyms| ==> acronyms[i].id.Some? && acronyms[i].id.value < nextId)
    && (forall i, j :: 0 <= i < j < |acronyms| ==> acronyms[i].id != acronyms[j].id)
  }

  /** Pivot rows name an existing category row. */
  ghost predicate PivotCategoriesExist(pivot: set<PivotRow>, categories: seq<Category>) {
    forall p :: p in pivot ==> p.1 < |categories|
  }

  /** Pivot rows name an acronym id that has been handed out. */
  ghost predicate PivotAcronymsIssued(pivot: set<PivotRow>, nextId: nat) {
    forall p :: p in pivot ==> p.0 < nextId
  }

  /** `session[key] = value`: a `nil` value removes the key. */
  function Assign(data: map<string, string>, key: string, value: Option<string>): map<string, string> {
    match value
    case None => data - {key}
    case Some(v) => data[key := v]
  }

  /** The database: one field per table, updated in place by the methods below. */
  class Database {
    var users: seq<User>
    var tokens: seq<Token>
    var categories: seq<Category>
    var acronyms: seq<Acronym>
    var pivot: set<PivotRow>
    var nextAcronymId: nat

    ghost predicate Valid()
      reads this
    {
      && UsersIndexed(users)
      && UniqueUsernames(users)
      && TokensReferenceUsers(tokens, users)
      && CategoriesIndexed(categories)
      && AcronymIdsUnique(acronyms, nextAcronymId)
      && PivotCategoriesExist(pivot, categories)
      && PivotAcronymsIssued(pivot, nextAcronymId)
    }

    constructor ()
      ensures Valid()
      ensures users == [] && tokens == [] && categories == [] && acronyms == []
      ensures pivot == {} && nextAcronymId == 0
    {
      users, tokens, categories, acronyms := [], [], [], [];
      pivot, nextAcronymId := {}, 0;
    }

    /** Inserts a new user; the unique constraint rejects a username already present. */
    method SaveNewUser(name: string, username: string, password: string, twitterURL: Option<string>)
      returns (saved: Option<User>)
      requires Valid()
      modifies this`users
      ensures Valid()
      ensures saved.None? <==> FindUserByUsername(old(users), username).Some?
      ensures saved.Some? ==> saved.value == User(Some(|old(users)|), name, username, password, twitterURL)
      ensures users == if saved.Some? then old(users) + [saved.value] else old(users)
    {
      if FindUserByUsername(users, username).Some? {
        saved := None;
      } else {
        var u := User(Some(|users|), name, username, password, twitterURL);
        users := users + [u];
        saved := Some(u);
      }
    }

    /** Inserts a token; the foreign key rejects one whose userID names no user. */
    method SaveToken(t: Token) returns (ok: bool)
      requires Valid()
      modifies this`tokens
      ensures Valid()
      ensures ok <==> t.userID < |users|
      ensures tokens == if ok then old(tokens) + [t] else old(tokens)
    {
      ok := FindUserById(users, t.userID).Some?;
      if ok {
        tokens := tokens + [t];
      }
    }

    method SaveNewCategory(name: string) returns (saved: Category)
      requires Valid()
      modifies this`categories
      ensures Valid()
      ensures saved == Category(Some(|old(categories)|), name)
      ensures categories == old(categories) + [saved]
    {
      saved := Category(Some(|categories|), name);
      categories := categories + [saved];
    }

    method SaveNewAcronym(short: string, long: string, userID: UserId) returns (saved: Acronym)
      requires Valid()
      modifies this`acronyms, this`nextAcronymId
      ensures Valid()
      ensures saved == Acronym(Some(old(nextAcronymId)), short, long, userID)
      ensures acronyms == old(acronyms) + [saved]
      ensures nextAcronymId == old(nextAcronymId) + 1
    {
      saved := Acronym(Some(nextAcronymId), short, long, userID);
      acronyms := acronyms + [saved];
      nextAcronymId := nextAcronymId + 1;
    }

    /** Saves an acronym that already has an id: the row with that id takes its fields. */
    method UpdateAcronym(a: Acronym)
      requires Valid() && a.id.Some?
      modifies this`acronyms
      ensures Valid()
      ensures acronyms == match FindAcronymById(old(acronyms), a.id.value)
                          case Some(k) => old(acronyms)[k := a]
                          case None => old(acronyms)
    {
      var k := FindAcronymById(acronyms, a.id.value);
      if k.Some? {
        acronyms := acronyms[k.value := a];
      }
    }

    /** Deletes the acronym row with id `id`. Its pivot rows are left in place. */
    method DeleteAcronym(id: AcronymId)
      requires Valid()
      modifies this`acronyms
      ensures Valid()
      ensures acronyms == match FindAcronymById(old(acronyms), id)
                          case Some(k) => old(acronyms)[..k] + old(acronyms)[k + 1..]
                          case None => old(acronyms)
    {
      var k := FindAcronymById(acronyms, id);
      if k.Some? {
        ghost var before := acronyms;
        acronyms := acronyms[..k.value] + acronyms[k.value + 1..];
        assert forall i :: 0 <= i < |acronyms| ==>
          acronyms[i] == if i < k.value then before[i] else before[i + 1];
      }
    }

    method Attach(acronym: AcronymId, category: CategoryId)
      requires Valid() && acronym < nextAcronymId && category < |categories|
      modifies this`pivot
      ensures Valid()
      ensures pivot == old(pivot) + {(acronym, category)}
    {
      pivot := pivot + {(acronym, category)};
    }

    method Detach(acronym: AcronymId, category: CategoryId)
      requires Valid()
      modifies this`pivot
      ensures Valid()
      ensures pivot == old(pivot) - {(acronym, category)}
    {
      pivot := pivot - {(acronym, category)};
    }
  }

  /** The session of one browser: its key/value storage and the user it is
      authenticated as. */
  class Session {
    var data: map<string, string>
    var authUser: Option<UserId>

    constructor ()
      ensures data == map[] && authUser == None
    {
      data, authUser := map[], None;
    }

    function Get(key: string): (r: Option<string>)
      reads this
      ensures r.Some? <==> key in data
      ensures r.Some? ==> r.value == data[key]
    {
      if key in data then Some(data[key]) else None
    }

    method Set(key: string, value: Option<string>)
      modifies this`data
      ensures data == Assign(old(data), key, value)
    {
      data := Assign(data, key, value);
    }

    /** `authenticateSession`: later requests on this session resolve to `user`. */
    method Authenticate(user: UserId)
      modifies this`authUser
      ensures authUser == Some(user)
    {
      authUser := Some(user);
    }

    /** `unauthenticateSession`: later requests on this session resolve to no one. */
    method Unauthenticate()
      modifies this`authUser
      ensures authUser == None
    {
      authUser := None;
    }
  }
}
