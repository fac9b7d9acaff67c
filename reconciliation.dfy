/** The category reconciliation of the acronym edit form: the names to add are the
    submitted names the acronym does not have yet, the names to remove are the ones
    it has and were not submitted. Each added name goes through find-or-create-then-
    attach; each removed name detaches the first attached category with that name.
    The planned operations are then run one after another. */
module Reconciliation {
  import opened Common
  import opened Entities
  import opened Store
  import opened CategoryModel

  /** `Set(data.categories ?? [])`: a missing list counts as an empty one. */
  function SubmittedNames(submitted: Option<seq<string>>): (r: set<string>)
    ensures submitted.None? ==> r == {}
    ensures submitted.Some? ==> forall n :: n in r <==> n in submitted.value
  {
    match submitted
    case None => {}
    case Some(names) => set n | n in names
  }

  function OpName(op: CategoryOp): string {
    match op
    case Add(name) => name
    case Detach(c) => c.name
  }

  /** The names the plan finds-or-creates. */
  function AddedNames(ops: seq<CategoryOp>): set<string> {
    set i | 0 <= i < |ops| && ops[i].Add? :: ops[i].name
  }

  /** The names of the categories the plan detaches. */
  function DetachedNames(ops: seq<CategoryOp>): set<string> {
    set i | 0 <= i < |ops| && ops[i].Detach? :: ops[i].category.name
  }

  lemma NamesSnoc(ops: seq<CategoryOp>, op: CategoryOp)
    ensures AddedNames(ops + [op]) == AddedNames(ops) + (if op.Add? then {op.name} else {})
    ensures DetachedNames(ops + [op]) == DetachedNames(ops) + (if op.Detach? then {op.category.name} else {})
  {
    var xs := ops + [op];
    assert forall i :: 0 <= i < |ops| ==> xs[i] == ops[i];
    assert xs[|ops|] == op;
  }

  lemma NameOfOp(ops: seq<CategoryOp>, i: nat)
    requires i < |ops|
    ensures ops[i].Add? ==> ops[i].name in AddedNames(ops)
    ensures ops[i].Detach? ==> ops[i].category.name in DetachedNames(ops)
  {
  }

  /** The edit's plan for an acronym whose categories are `existing` and for the
      submitted names `desired`: one add for each name of `desired − existing`, one
      detach for each name of `existing − desired`, no name twice, all adds before
      all detaches, and each detached category the first of `existing` with its name. */
  ghost predicate IsReconciliationPlan(existing: seq<Category>, desired: set<string>, ops: seq<CategoryOp>) {
    && AddedNames(ops) == desired - NameSet(existing)
    && DetachedNames(ops) == NameSet(existing) - desired
    && (forall i, j :: 0 <= i < j < |ops| && ops[i].Detach? ==> ops[j].Detach?)
    && (forall i, j :: 0 <= i < j < |ops| ==> OpName(ops[i]) != OpName(ops[j]))
    && (forall i :: 0 <= i < |ops| && ops[i].Detach? ==> DetachesFirstNamed(existing, ops[i].category))
  }

  ghost predicate DetachesFirstNamed(existing: seq<Category>, c: Category) {
    match FirstNamed(existing, c.name)
    case Some(k) => existing[k] == c
    case None => false
  }

  /** A name both submitted and already attached gets no operation. */
  lemma SharedNamesUntouched(existing: seq<Category>, desired: set<string>, ops: seq<CategoryOp>, i: nat)
    requires IsReconciliationPlan(existing, desired, ops) && i < |ops|
    ensures OpName(ops[i]) !in desired * NameSet(existing)
  {
    NameOfOp(ops, i);
  }

  /** When the submitted names are the existing names, the plan is empty. */
  lemma EmptyPlan(existing: seq<Category>, desired: set<string>, ops: seq<CategoryOp>)
    requires IsReconciliationPlan(existing, desired, ops)
    requires NameSet(existing) == desired
    ensures ops == []
  {
    if |ops| > 0 {
      NameOfOp(ops, 0);
    }
  }

  /** Builds the operation list: the adds in the first loop, the detaches in the
      second; the sets are walked in an unspecified order. */
  method PlanReconciliation(existing: seq<Category>, submitted: Option<seq<string>>) returns (ops: seq<CategoryOp>)
    ensures IsReconciliationPlan(existing, SubmittedNames(submitted), ops)
    ensures submitted.None? ==> AddedNames(ops) == {} && DetachedNames(ops) == NameSet(existing)
    ensures NameSet(existing) == SubmittedNames(submitted) ==> ops == []
  {
    var existingSet := NameSet(existing);
    var newSet := SubmittedNames(submitted);
    var toAdd := newSet - existingSet;
    var toRemove := existingSet - newSet;
    ops := [];
    var pending := toAdd;
    while pending != {}
      invariant pending <= toAdd
      invariant AddedNames(ops) == toAdd - pending
      invariant DetachedNames(ops) == {}
      invariant forall i :: 0 <= i < |ops| ==> ops[i].Add?
      invariant forall i, j :: 0 <= i < j < |ops| ==> OpName(ops[i]) != OpName(ops[j])
      decreases pending
    {
      var name :| name in pending;
      forall i | 0 <= i < |ops|
        ensures OpName(ops[i]) != name
      {
        NameOfOp(ops, i);
      }
      NamesSnoc(ops, Add(name));
      ops := ops + [Add(name)];
      pending := pending - {name};
    }
    pending := toRemove;
    while pending != {}
      invariant pending <= toRemove
      invariant AddedNames(ops) == toAdd
      invariant DetachedNames(ops) == toRemove - pending
      invariant forall i, j :: 0 <= i < j < |ops| && ops[i].Detach? ==> ops[j].Detach?
      invariant forall i, j :: 0 <= i < j < |ops| ==> OpName(ops[i]) != OpName(ops[j])
      invariant forall i :: 0 <= i < |ops| && ops[i].Detach? ==> DetachesFirstNamed(existing, ops[i].category)
      decreases pending
    {
      var name :| name in pending;
      var found := FirstNamed(existing, name);
      if found.Some? {
        var c := existing[found.value];
        forall i | 0 <= i < |ops|
          ensures OpName(ops[i]) != name
        {
          NameOfOp(ops, i);
        }
        NamesSnoc(ops, Detach(c));
        ops := ops + [Detach(c)];
      }
      pending := pending - {name};
    }
    if NameSet(existing) == SubmittedNames(submitted) {
      EmptyPlan(existing, SubmittedNames(submitted), ops);
    }
  }

  /** Runs the planned operations against the store, in order. */
  method RunOps(db: Database, acronym: AcronymId, ops: seq<CategoryOp>)
    requires db.Valid() && acronym < db.nextAcronymId
    modifies db`categories, db`pivot
    ensures db.Valid()
    ensures (db.categories, db.pivot) == ApplyOps(old(db.categories), old(db.pivot), acronym, ops)
  {
    var k := 0;
    while k < |ops|
      invariant 0 <= k <= |ops|
      invariant db.Valid() && acronym < db.nextAcronymId
      invariant (db.categories, db.pivot) == ApplyOps(old(db.categories), old(db.pivot), acronym, ops[..k])
    {
      assert ops[..k + 1][..k] == ops[..k];
      var op := ops[k];
      if op.Add? {
        AddCategory(db, op.name, acronym);
      } else if op.category.id.Some? {
        db.Detach(acronym, op.category.id.value);
      }
      k := k + 1;
    }
    assert ops[..k] == ops;
  }

  /** One add of a name the acronym does not have: the attached names grow by that
      name and stay pairwise distinct. */
  lemma AddStep(categories: seq<Category>, pivot: set<PivotRow>, acronym: AcronymId, name: string)
    requires CategoriesIndexed(categories) && PivotCategoriesExist(pivot, categories)
    requires DistinctAttachedNames(categories, pivot, acronym)
    requires name !in AttachedNames(categories, pivot, acronym)
    ensures var (cs, ps) := ApplyOp(categories, pivot, acronym, Add(name));
      && CategoriesIndexed(cs) && PivotCategoriesExist(ps, cs)
      && categories <= cs && pivot <= ps
      && (forall p :: p in ps && p !in pivot ==> p.0 == acronym)
      && DistinctAttachedNames(cs, ps, acronym)
      && AttachedNames(cs, ps, acronym) == AttachedNames(categories, pivot, acronym) + {name}
  {
    AddExtendsNames(categories, pivot, acronym, name);
    var (cs, ps) := ApplyOp(categories, pivot, acronym, Add(name));
    var before := AttachedNames(categories, pivot, acronym);
    var k := match FirstNamed(categories, name) case Some(i) => i case None => |categories|;
    assert cs[k].name == name;
    assert ps == pivot + {(acronym, k)};
    assert forall i :: 0 <= i < |categories| ==> cs[i] == categories[i];
    assert (acronym, k) !in pivot;
    forall i, j | 0 <= i < j < |cs| && (acronym, i) in ps && (acronym, j) in ps
      ensures cs[i].name != cs[j].name
    {
      if i == k {
        assert (acronym, j) in pivot && categories[j].name in before;
      } else if j == k {
        assert (acronym, i) in pivot && categories[i].name in before;
      }
    }
  }

  /** When the ids of `categories` are row positions, `c` is the row at its id and it
      is attached to `acronym`. */
  ghost predicate Detachable(categories: seq<Category>, pivot: set<PivotRow>, acronym: AcronymId, c: Category) {
    c.id.Some? && c.id.value < |categories| && categories[c.id.value] == c && (acronym, c.id.value) in pivot
  }

  /** One detach of an attached category: its name leaves the attached names. */
  lemma DetachStep(categories: seq<Category>, pivot: set<PivotRow>, acronym: AcronymId, c: Category)
    requires PivotCategoriesExist(pivot, categories)
    requires DistinctAttachedNames(categories, pivot, acronym)
    requires Detachable(categories, pivot, acronym, c)
    ensures var (cs, ps) := ApplyOp(categories, pivot, acronym, Detach(c));
      && cs == categories && ps == pivot - {(acronym, c.id.value)}
      && PivotCategoriesExist(ps, cs)
      && DistinctAttachedNames(cs, ps, acronym)
      && AttachedNames(cs, ps, acronym) == AttachedNames(categories, pivot, acronym) - {c.name}
  {
    var (cs, ps) := ApplyOp(categories, pivot, acronym, Detach(c));
    var k := c.id.value;
    var before := AttachedNames(categories, pivot, acronym);
    forall n | n in before - {c.name}
      ensures n in AttachedNames(cs, ps, acronym)
    {
      var i :| 0 <= i < |categories| && (acronym, i) in pivot && categories[i].name == n;
      assert (acronym, i) in ps;
    }
    forall n | n in AttachedNames(cs, ps, acronym)
      ensures n in before - {c.name}
    {
      var i :| 0 <= i < |cs| && (acronym, i) in ps && cs[i].name == n;
      assert i != k && (acronym, i) in pivot;
      if i < k {
        assert categories[i].name != categories[k].name;
      } else {
        assert categories[k].name != categories[i].name;
      }
    }
  }

  /** The adds, run first, attach exactly the added names. */
  lemma {:induction false} AddsPhase(categories: seq<Category>, pivot: set<PivotRow>, acronym: AcronymId,
                                     ops: seq<CategoryOp>)
    requires CategoriesIndexed(categories) && PivotCategoriesExist(pivot, categories)
    requires DistinctAttachedNames(categories, pivot, acronym)
    requires forall i :: 0 <= i < |ops| ==> ops[i].Add? && ops[i].name !in AttachedNames(categories, pivot, acronym)
    requires forall i, j :: 0 <= i < j < |ops| ==> OpName(ops[i]) != OpName(ops[j])
    ensures var (cs, ps) := ApplyOps(categories, pivot, acronym, ops);
      && CategoriesIndexed(cs) && PivotCategoriesExist(ps, cs)
      && categories <= cs && pivot <= ps
      && (forall p :: p in ps && p !in pivot ==> p.0 == acronym)
      && DistinctAttachedNames(cs, ps, acronym)
      && AttachedNames(cs, ps, acronym) == AttachedNames(categories, pivot, acronym) + AddedNames(ops)
    decreases |ops|
  {
    if |ops| > 0 {
      var front := ops[..|ops| - 1];
      var last := ops[|ops| - 1];
      AddsPhase(categories, pivot, acronym, front);
      var (cs, ps) := ApplyOps(categories, pivot, acronym, front);
      forall i | 0 <= i < |front|
        ensures front[i].name != last.name
      {
        assert OpName(ops[i]) != OpName(ops[|ops| - 1]);
      }
      assert last.name !in AddedNames(front);
      AddStep(cs, ps, acronym, last.name);
      assert front + [last] == ops;
      NamesSnoc(front, last);
    }
  }

  /** The detaches, run after the adds, remove exactly the detached names. */
  lemma {:induction false} DetachPhase(categories: seq<Category>, pivot: set<PivotRow>, acronym: AcronymId,
                                       ops: seq<CategoryOp>)
    requires PivotCategoriesExist(pivot, categories)
    requires DistinctAttachedNames(categories, pivot, acronym)
    requires forall i :: 0 <= i < |ops| ==> ops[i].Detach? && Detachable(categories, pivot, acronym, ops[i].category)
    requires forall i, j :: 0 <= i < j < |ops| ==> OpName(ops[i]) != OpName(ops[j])
    ensures var (cs, ps) := ApplyOps(categories, pivot, acronym, ops);
      && cs == categories && ps <= pivot
      && (forall p :: p in pivot && p !in ps ==> p.0 == acronym && categories[p.1].name in DetachedNames(ops))
      && PivotCategoriesExist(ps, cs)
      && DistinctAttachedNames(cs, ps, acronym)
      && AttachedNames(cs, ps, acronym) == AttachedNames(categories, pivot, acronym) - DetachedNames(ops)
    decreases |ops|
  {
    if |ops| > 0 {
      var front := ops[..|ops| - 1];
      var last := ops[|ops| - 1];
      DetachPhase(categories, pivot, acronym, front);
      var (cs, ps) := ApplyOps(categories, pivot, acronym, front);
      var c := last.category;
      var k := c.id.value;
      forall i | 0 <= i < |front|
        ensures front[i].category.name != c.name
      {
        assert OpName(ops[i]) != OpName(ops[|ops| - 1]);
      }
      assert c.name !in DetachedNames(front);
      assert (acronym, k) in ps;
      DetachStep(cs, ps, acronym, c);
      assert front + [last] == ops;
      NamesSnoc(front, last);
    }
  }

  /** The adds come first: the length of the leading run of adds. */
  function AddPrefixLength(ops: seq<CategoryOp>): (m: nat)
    ensures m <= |ops|
    ensures forall i :: 0 <= i < m ==> ops[i].Add?
    ensures m < |ops| ==> ops[m].Detach?
    decreases |ops|
  {
    if |ops| == 0 || ops[0].Detach? then 0 else 1 + AddPrefixLength(ops[1..])
  }

  /** An operation list with all adds before all detaches splits into its leading
      adds and the detaches after them; each part keeps its kind's names. */
  lemma SplitAtDetaches(ops: seq<CategoryOp>)
    requires forall i, j :: 0 <= i < j < |ops| && ops[i].Detach? ==> ops[j].Detach?
    ensures var m := AddPrefixLength(ops);
      && ops == ops[..m] + ops[m..]
      && (forall i :: 0 <= i < |ops[m..]| ==> ops[m..][i].Detach?)
      && AddedNames(ops[..m]) == AddedNames(ops)
      && DetachedNames(ops[m..]) == DetachedNames(ops)
  {
    var m := AddPrefixLength(ops);
    var adds, detaches := ops[..m], ops[m..];
    assert ops == adds + detaches;
    forall i | m <= i < |ops|
      ensures ops[i].Detach?
    {
      if i > m {
        assert ops[m].Detach?;
      }
    }
    forall i | 0 <= i < |ops| && ops[i].Add?
      ensures ops[i].name in AddedNames(adds)
    {
      assert adds[i] == ops[i];
    }
    forall i | 0 <= i < |ops| && ops[i].Detach?
      ensures ops[i].category.name in DetachedNames(detaches)
    {
      assert detaches[i - m] == ops[i];
    }
  }

  /** Both parts of a split plan keep its one-operation-per-name rule, and the
      detach part keeps its first-with-that-name rule. */
  lemma SplitKeepsRules(existing: seq<Category>, ops: seq<CategoryOp>, m: nat)
    requires m <= |ops|
    requires forall i, j :: 0 <= i < j < |ops| ==> OpName(ops[i]) != OpName(ops[j])
    requires forall i :: 0 <= i < |ops| && ops[i].Detach? ==> DetachesFirstNamed(existing, ops[i].category)
    ensures forall i, j :: 0 <= i < j < |ops[..m]| ==> OpName(ops[..m][i]) != OpName(ops[..m][j])
    ensures forall i, j :: 0 <= i < j < |ops[m..]| ==> OpName(ops[m..][i]) != OpName(ops[m..][j])
    ensures forall i :: 0 <= i < |ops[m..]| && ops[m..][i].Detach? ==> DetachesFirstNamed(existing, ops[m..][i].category)
  {
    var detaches := ops[m..];
    forall i, j | 0 <= i < j < |detaches|
      ensures OpName(detaches[i]) != OpName(detaches[j])
    {
      assert detaches[i] == ops[m + i] && detaches[j] == ops[m + j];
    }
    forall i | 0 <= i < |detaches| && detaches[i].Detach?
      ensures DetachesFirstNamed(existing, detaches[i].category)
    {
      assert detaches[i] == ops[m + i];
    }
  }

  /** A category the plan detaches is attached, and it is still the row at its
      id once the adds have run. */
  lemma PlannedDetachIsDetachable(categories: seq<Category>, pivot: set<PivotRow>, acronym: AcronymId,
                                  cs: seq<Category>, ps: set<PivotRow>, c: Category)
    requires CategoriesIndexed(categories)
    requires categories <= cs && pivot <= ps
    requires DetachesFirstNamed(AttachedCategories(categories, pivot, acronym), c)
    ensures Detachable(cs, ps, acronym, c)
  {
    var existing := AttachedCategories(categories, pivot, acronym);
    var k := FirstNamed(existing, c.name).value;
    assert existing[k] == c;
    assert c in existing;
    var j :| 0 <= j < |categories| && categories[j] == c;
    assert cs[j] == c;
  }

  /** A plan run against the acronym's own categories leaves it with exactly the
      submitted names, provided the names attached before were pairwise distinct;
      no category row changes and no other acronym's pivot rows change. */
  lemma ReconcileMatchesSubmitted(categories: seq<Category>, pivot: set<PivotRow>, acronym: AcronymId,
                                  desired: set<string>, ops: seq<CategoryOp>)
    requires CategoriesIndexed(categories) && PivotCategoriesExist(pivot, categories)
    requires DistinctAttachedNames(categories, pivot, acronym)
    requires IsReconciliationPlan(AttachedCategories(categories, pivot, acronym), desired, ops)
    ensures var (cs, ps) := ApplyOps(categories, pivot, acronym, ops);
      && AttachedNames(cs, ps, acronym) == desired
      && NameSet(AttachedCategories(cs, ps, acronym)) == desired
      && DistinctAttachedNames(cs, ps, acronym)
      && CategoriesIndexed(cs) && PivotCategoriesExist(ps, cs)
      && categories <= cs
      && (forall p: PivotRow :: p.0 != acronym ==> (p in ps <==> p in pivot))
  {
    var existing := AttachedCategories(categories, pivot, acronym);
    AttachedNamesOfQuery(categories, pivot, acronym);
    SplitAtDetaches(ops);
    var m := AddPrefixLength(ops);
    SplitKeepsRules(existing, ops, m);
    var adds, detaches := ops[..m], ops[m..];
    forall i | 0 <= i < |adds|
      ensures adds[i].name !in AttachedNames(categories, pivot, acronym)
    {
      NameOfOp(adds, i);
    }
    AddsPhase(categories, pivot, acronym, adds);
    var (cs, ps) := ApplyOps(categories, pivot, acronym, adds);
    forall i | 0 <= i < |detaches|
      ensures Detachable(cs, ps, acronym, detaches[i].category)
    {
      PlannedDetachIsDetachable(categories, pivot, acronym, cs, ps, detaches[i].category);
    }
    DetachPhase(cs, ps, acronym, detaches);
    ApplyOpsConcat(categories, pivot, acronym, adds, detaches);
    var (cs', ps') := ApplyOps(categories, pivot, acronym, ops);
    AttachedNamesOfQuery(cs', ps', acronym);
  }

  /** Submitting the same names again right after an edit plans no operation. */
  lemma RerunPlansNothing(categories: seq<Category>, pivot: set<PivotRow>, acronym: AcronymId,
                          desired: set<string>, ops: seq<CategoryOp>, again: seq<CategoryOp>)
    requires CategoriesIndexed(categories) && PivotCategoriesExist(pivot, categories)
    requires DistinctAttachedNames(categories, pivot, acronym)
    requires IsReconciliationPlan(AttachedCategories(categories, pivot, acronym), desired, ops)
    requires var (cs, ps) := ApplyOps(categories, pivot, acronym, ops);
      IsReconciliationPlan(AttachedCategories(cs, ps, acronym), desired, again)
    ensures again == []
  {
    ReconcileMatchesSubmitted(categories, pivot, acronym, desired, ops);
    var (cs, ps) := ApplyOps(categories, pivot, acronym, ops);
    EmptyPlan(AttachedCategories(cs, ps, acronym), desired, again);
  }

  /** Without distinct names the promise fails: two attached categories both named
      "x", and an edit that submits no names. The plan detaches the first "x" only,
      and the name stays attached. */
  lemma DuplicateNameOutlivesRemoval()
    ensures var categories := [Category(Some(0), "x"), Category(Some(1), "x")];
      var pivot: set<PivotRow> := {(0, 0), (0, 1)};
      var ops := [Detach(Category(Some(0), "x"))];
      && CategoriesIndexed(categories) && PivotCategoriesExist(pivot, categories)
      && IsReconciliationPlan(AttachedCategories(categories, pivot, 0), {}, ops)
      && AttachedNames(ApplyOps(categories, pivot, 0, ops).0, ApplyOps(categories, pivot, 0, ops).1, 0) == {"x"}
  {
    var categories := [Category(Some(0), "x"), Category(Some(1), "x")];
    var pivot: set<PivotRow> := {(0, 0), (0, 1)};
    var ops := [Detach(Category(Some(0), "x"))];
    var existing := AttachedCategories(categories, pivot, 0);
    assert existing == categories by {
      assert categories[1..] == [categories[1]];
      assert categories[1..][1..] == [];
    }
    assert NameSet(existing) == {"x"} by {
      assert existing[0].name == "x";
    }
    assert FirstNamed(existing, "x") == Some(0);
    assert DetachedNames(ops) == {"x"} by {
      assert ops[0].Detach? && ops[0].category.name == "x";
    }
    assert AddedNames(ops) == {};
    var after := ApplyOps(categories, pivot, 0, ops);
    assert ops[..0] == [];
    assert after.1 == {(0, 1)};
    assert after.0[1].name == "x";
  }

  /** Without distinct names, running the same edit again is not idempotent: after
      the plan above, the second "x" is attached, and submitting no names again
      gives a plan that detaches it. */
  lemma DuplicateNameRerunPlansDetach()
    ensures var categories := [Category(Some(0), "x"), Category(Some(1), "x")];
      var pivot: set<PivotRow> := {(0, 1)};
      var again := [Detach(Category(Some(1), "x"))];
      && ApplyOps(categories, {(0, 0), (0, 1)}, 0, [Detach(Category(Some(0), "x"))]) == (categories, pivot)
      && IsReconciliationPlan(AttachedCategories(categories, pivot, 0), {}, again)
      && again != []
  {
    var categories := [Category(Some(0), "x"), Category(Some(1), "x")];
    var pivot: set<PivotRow> := {(0, 1)};
    var first := [Detach(Category(Some(0), "x"))];
    assert first[..0] == [];
    var p0: set<PivotRow> := {(0, 0), (0, 1)};
    assert ApplyOps(categories, p0, 0, first) == ApplyOp(categories, p0, 0, first[0]);
    assert p0 - {(0, 0)} == pivot;
    var again := [Detach(Category(Some(1), "x"))];
    var existing := AttachedCategories(categories, pivot, 0);
    assert existing == [categories[1]] by {
      assert categories[1..] == [categories[1]];
      assert categories[1..][1..] == [];
    }
    assert NameSet(existing) == {"x"} by {
      assert existing[0].name == "x";
    }
    assert FirstNamed(existing, "x") == Some(0);
    assert DetachedNames(again) == {"x"} by {
      assert again[0].Detach? && again[0].category.name == "x";
    }
    assert AddedNames(again) == {};
  }
}
