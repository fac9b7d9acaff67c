/** Categories and their many-to-many link to acronyms: find-or-create-then-attach
    (`Category.addCategory`), the two sides of the siblings relation, and a pure
    description of what a sequence of add and detach operations does to the
    category table and the pivot. */
module CategoryModel {
  import opened Common
  import opened Entities
  import opened Store

  /** One pivot operation an edit can issue for an acronym: find-or-create a
      category by name and attach it, or detach a category row. */
  datatype CategoryOp = Add(name: string) | Detach(category: Category)

  /** `Category.query.filter(\.name == name).first()`: the first row with that name. */
  function FirstNamed(categories: seq<Category>, name: string): (r: Option<nat>)
    ensures r.Some? ==> r.value < |categories| && categories[r.value].name == name
    ensures r.Some? ==> forall j :: 0 <= j < r.value ==> categories[j].name != name
    ensures r.None? <==> forall i :: 0 <= i < |categories| ==> categories[i].name != name
  {
    FirstMatch(categories, (c: Category) => c.name == name)
  }

  /** The names occurring in a list of categories. */
  function NameSet(categories: seq<Category>): (r: set<string>)
    ensures forall n :: n in r <==> exists i :: 0 <= i < |categories| && categories[i].name == n
  {
    set i | 0 <= i < |categories| :: categories[i].name
  }

  /** `acronym.categories`: the category rows linked to acronym `acronym`, in table order. */
  function AttachedCategories(categories: seq<Category>, pivot: set<PivotRow>, acronym: AcronymId): (r: seq<Category>)
    ensures forall c :: c in r <==> c in categories && c.id.Some? && (acronym, c.id.value) in pivot
    ensures forall c {:trigger multiset(r)[c]} ::
      (multiset(r)[c] == if c.id.Some? && (acronym, c.id.value) in pivot then multiset(categories)[c] else 0)
  {
    Filter(categories, (c: Category) => c.id.Some? && (acronym, c.id.value) in pivot)
  }

  /** The attached categories keep table order: a row appended to the table is
      appended to the result exactly when it is linked. */
  lemma AttachedCategoriesSnoc(categories: seq<Category>, pivot: set<PivotRow>, acronym: AcronymId, c: Category)
    ensures AttachedCategories(categories + [c], pivot, acronym)
         == AttachedCategories(categories, pivot, acronym) + (if c.id.Some? && (acronym, c.id.value) in pivot then [c] else [])
  {
    FilterSnoc(categories, c, (c: Category) => c.id.Some? && (acronym, c.id.value) in pivot);
  }

  /** `category.acronyms`: the acronym rows linked to category `category`, in table order. */
  function CategoryAcronyms(acronyms: seq<Acronym>, pivot: set<PivotRow>, category: CategoryId): (r: seq<Acronym>)
    ensures forall a :: a in r <==> a in acronyms && a.id.Some? && (a.id.value, category) in pivot
    ensures forall a {:trigger multiset(r)[a]} ::
      (multiset(r)[a] == if a.id.Some? && (a.id.value, category) in pivot then multiset(acronyms)[a] else 0)
  {
    Filter(acronyms, (a: Acronym) => a.id.Some? && (a.id.value, category) in pivot)
  }

  /** The linked acronyms keep table order: a row appended to the table is
      appended to the result exactly when it is linked. */
  lemma CategoryAcronymsSnoc(acronyms: seq<Acronym>, pivot: set<PivotRow>, category: CategoryId, a: Acronym)
    ensures CategoryAcronyms(acronyms + [a], pivot, category)
         == CategoryAcronyms(acronyms, pivot, category) + (if a.id.Some? && (a.id.value, category) in pivot then [a] else [])
  {
    FilterSnoc(acronyms, a, (a: Acronym) => a.id.Some? && (a.id.value, category) in pivot);
  }

  /** The two directions of the siblings relation agree: category `c` lists
      acronym `a` exactly when `a`'s categories include `c`. */
  lemma SiblingsSymmetric(categories: seq<Category>, acronyms: seq<Acronym>, pivot: set<PivotRow>,
                          a: Acronym, c: Category)
    requires a in acronyms && a.id.Some? && c in categories && c.id.Some?
    ensures a in CategoryAcronyms(acronyms, pivot, c.id.value)
        <==> c in AttachedCategories(categories, pivot, a.id.value)
  {
  }

  /** The names of the categories attached to `acronym`. */
  function AttachedNames(categories: seq<Category>, pivot: set<PivotRow>, acronym: AcronymId): set<string> {
    set i | 0 <= i < |categories| && (acronym, i) in pivot :: categories[i].name
  }

  /** No two categories attached to `acronym` share a name. Category names carry no
      unique constraint, so this is a property of particular states, not of the table. */
  ghost predicate DistinctAttachedNames(categories: seq<Category>, pivot: set<PivotRow>, acronym: AcronymId) {
    forall i, j :: 0 <= i < j < |categories| && (acronym, i) in pivot && (acronym, j) in pivot
      ==> categories[i].name != categories[j].name
  }

  /** In a table whose ids are row positions, the names of the rows `acronym.categories`
      returns are the attached names. */
  lemma AttachedNamesOfQuery(categories: seq<Category>, pivot: set<PivotRow>, acronym: AcronymId)
    requires CategoriesIndexed(categories)
    ensures NameSet(AttachedCategories(categories, pivot, acronym)) == AttachedNames(categories, pivot, acronym)
  {
    var q := AttachedCategories(categories, pivot, acronym);
    forall n | n in AttachedNames(categories, pivot, acronym)
      ensures n in NameSet(q)
    {
      var i :| 0 <= i < |categories| && (acronym, i) in pivot && categories[i].name == n;
      assert categories[i] in q;
    }
    forall n | n in NameSet(q)
      ensures n in AttachedNames(categories, pivot, acronym)
    {
      var k :| 0 <= k < |q| && q[k].name == n;
      assert q[k] in q;
      var i :| 0 <= i < |categories| && categories[i] == q[k];
      assert (acronym, i) in pivot;
    }
  }

  /** The category table and the pivot after one operation for `acronym`. An add
      attaches the first category with that name, or saves a new one (its id is the
      next row position) and attaches it; a detach removes the pair of a saved row
      (`detach` of an unsaved row throws, and nothing is removed). */
  function ApplyOp(categories: seq<Category>, pivot: set<PivotRow>, acronym: AcronymId, op: CategoryOp)
    : (r: (seq<Category>, set<PivotRow>))
    ensures categories <= r.0 && |r.0| <= |categories| + 1
    ensures forall p: PivotRow :: p.0 != acronym ==> (p in r.1 <==> p in pivot)
  {
    match op
    case Add(name) =>
      (match FirstNamed(categories, name)
       case Some(i) =>
         (categories, if categories[i].id.Some? then pivot + {(acronym, categories[i].id.value)} else pivot)
       case None =>
         (categories + [Category(Some(|categories|), name)], pivot + {(acronym, |categories|)}))
    case Detach(c) =>
      (categories, if c.id.Some? then pivot - {(acronym, c.id.value)} else pivot)
  }

  /** The state after the operations of `ops`, run one after another. */
  function ApplyOps(categories: seq<Category>, pivot: set<PivotRow>, acronym: AcronymId, ops: seq<CategoryOp>)
    : (r: (seq<Category>, set<PivotRow>))
    ensures categories <= r.0
    ensures forall p: PivotRow :: p.0 != acronym ==> (p in r.1 <==> p in pivot)
    decreases |ops|
  {
    if |ops| == 0 then (categories, pivot)
    else
      var before := ApplyOps(categories, pivot, acronym, ops[..|ops| - 1]);
      ApplyOp(before.0, before.1, acronym, ops[|ops| - 1])
  }

  /** Running `xs` and then `ys` is running `xs + ys`. */
  lemma {:induction false} ApplyOpsConcat(categories: seq<Category>, pivot: set<PivotRow>, acronym: AcronymId,
                                          xs: seq<CategoryOp>, ys: seq<CategoryOp>)
    ensures ApplyOps(categories, pivot, acronym, xs + ys)
         == ApplyOps(ApplyOps(categories, pivot, acronym, xs).0, ApplyOps(categories, pivot, acronym, xs).1, acronym, ys)
    decreases |ys|
  {
    if |ys| > 0 {
      assert (xs + ys)[..|xs + ys| - 1] == xs + ys[..|ys| - 1];
      assert (xs + ys)[|xs + ys| - 1] == ys[|ys| - 1];
      ApplyOpsConcat(categories, pivot, acronym, xs, ys[..|ys| - 1]);
    } else {
      assert xs + ys == xs;
    }
  }

  /** Whatever the operations, the table invariants still hold afterwards: ids
      are row positions and every pivot row names an existing category. */
  lemma {:induction false} ApplyOpsLocal(categories: seq<Category>, pivot: set<PivotRow>, acronym: AcronymId,
                                         ops: seq<CategoryOp>)
    requires CategoriesIndexed(categories) && PivotCategoriesExist(pivot, categories)
    ensures var (cs, ps) := ApplyOps(categories, pivot, acronym, ops);
      CategoriesIndexed(cs) && PivotCategoriesExist(ps, cs)
    decreases |ops|
  {
    if |ops| > 0 {
      ApplyOpsLocal(categories, pivot, acronym, ops[..|ops| - 1]);
      var (bc, bp) := ApplyOps(categories, pivot, acronym, ops[..|ops| - 1]);
      if ops[|ops| - 1].Add? {
        AddExtendsNames(bc, bp, acronym, ops[|ops| - 1].name);
      }
    }
  }

  /** Adding a name that already has a row creates no row and attaches that row. */
  lemma AddReusesExisting(categories: seq<Category>, pivot: set<PivotRow>, acronym: AcronymId, name: string)
    requires CategoriesIndexed(categories)
    requires exists i :: 0 <= i < |categories| && categories[i].name == name
    ensures ApplyOp(categories, pivot, acronym, Add(name)).0 == categories
    ensures ApplyOp(categories, pivot, acronym, Add(name)).1
         == pivot + {(acronym, FirstNamed(categories, name).value)}
  {
  }

  /** Adding a name no row has saves exactly one row, with that name, and attaches it. */
  lemma AddCreatesOne(categories: seq<Category>, pivot: set<PivotRow>, acronym: AcronymId, name: string)
    requires forall i :: 0 <= i < |categories| ==> categories[i].name != name
    ensures ApplyOp(categories, pivot, acronym, Add(name)).0 == categories + [Category(Some(|categories|), name)]
    ensures ApplyOp(categories, pivot, acronym, Add(name)).1 == pivot + {(acronym, |categories|)}
  {
  }

  /** After an add, the acronym's attached names are the ones it had plus that
      name; the existing rows are unchanged, the table invariants still hold, and
      no other acronym gains or loses a category. */
  lemma AddExtendsNames(categories: seq<Category>, pivot: set<PivotRow>, acronym: AcronymId, name: string)
    requires CategoriesIndexed(categories) && PivotCategoriesExist(pivot, categories)
    ensures var (cs, ps) := ApplyOp(categories, pivot, acronym, Add(name));
      && AttachedNames(cs, ps, acronym) == AttachedNames(categories, pivot, acronym) + {name}
      && categories <= cs
      && CategoriesIndexed(cs) && PivotCategoriesExist(ps, cs)
      && pivot <= ps
      && (forall p :: p in ps && p !in pivot ==> p.0 == acronym)
  {
    var (cs, ps) := ApplyOp(categories, pivot, acronym, Add(name));
    var before := AttachedNames(categories, pivot, acronym);
    var k := match FirstNamed(categories, name) case Some(i) => i case None => |categories|;
    assert cs[k].name == name;
    assert ps == pivot + {(acronym, k)};
    assert forall i :: 0 <= i < |categories| ==> cs[i] == categories[i];
    forall n | n in AttachedNames(cs, ps, acronym)
      ensures n in before + {name}
    {
      var i :| 0 <= i < |cs| && (acronym, i) in ps && cs[i].name == n;
      if i != k {
        assert (acronym, i) in pivot && categories[i].name == n;
      }
    }
    assert (acronym, k) in ps;
    forall n | n in before
      ensures n in AttachedNames(cs, ps, acronym)
    {
      var i :| 0 <= i < |categories| && (acronym, i) in pivot && categories[i].name == n;
      assert (acronym, i) in ps && cs[i].name == n;
    }
  }

  /** `Category.addCategory(name, to: acronym)`: looks the name up, saves a new
      category when there is none, then inserts the pivot row. */
  method AddCategory(db: Database, name: string, acronym: AcronymId)
    requires db.Valid() && acronym < db.nextAcronymId
    modifies db`categories, db`pivot
    ensures db.Valid()
    ensures (db.categories, db.pivot) == ApplyOp(old(db.categories), old(db.pivot), acronym, Add(name))
  {
    var found := FirstNamed(db.categories, name);
    match found
    case Some(i) =>
      var existing := db.categories[i];
      db.Attach(acronym, existing.id.value);
    case None =>
      var saved := db.SaveNewCategory(name);
      db.Attach(acronym, saved.id.value);
  }
}
