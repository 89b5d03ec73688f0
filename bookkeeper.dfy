/** `Bookkeeper`, the presenter of the application: it owns a category, an
    expense and a budget repository, keeps the lists last read from them,
    validates what the user enters and tells the view what to show.  The
    view is modelled by the sequence of calls made to it. */
module Bookkeeping {
  import opened Wrappers
  import opened PyStr
  import opened Records
  import opened SqliteRepository
  import opened Budgets
  import opened BookkeeperRules

  /** The rows a `get_all(where)` call selects. */
  function Selected(fields: seq<string>, rows: seq<Row>, where: Option<seq<(string, Value)>>): seq<Row>
  {
    match where
    case None => rows
    case Some(cond) => Matching(fields, rows, cond)
  }

  /** A `get_all` argument that does not raise: no condition, or a
      non-empty one on existing columns. */
  predicate Answerable(fields: seq<string>, where: Option<seq<(string, Value)>>)
  {
    where.None? || (|where.value| > 0 && UnknownColumn(fields, where.value).None?)
  }

  lemma SelectedSpec(fields: seq<string>, rows: seq<Row>, where: Option<seq<(string, Value)>>)
    requires UniqueRowids(rows)
    ensures forall r :: r in Selected(fields, rows, where) ==> r in rows
    ensures UniqueRowids(Selected(fields, rows, where))
  {
    if where.Some? {
      MatchingSpec(fields, rows, where.value);
      MatchingUnique(fields, rows, where.value);
    }
  }

  lemma RowIdsSnoc(rows: seq<Row>, i: nat)
    requires i < |rows|
    ensures RowIds(rows[..i + 1]) == RowIds(rows[..i]) + {rows[i].rowid}
  {
    assert rows[..i + 1] == rows[..i] + [rows[i]];
  }

  /** Updating the next selected record, with column `k` set to what `f`
      computes from it, extends the rewrite by that record's row. */
  lemma RewriteNext(fields: seq<string>, rows0: seq<Row>, sel: seq<Row>, i: nat, k: nat, f: Record -> Value)
    requires WellFormedTable(fields, rows0) && Distinct(fields) && k < |fields|
    requires UniqueRowids(sel) && (forall r :: r in sel ==> r in rows0) && i < |sel|
    ensures var obj := Hydrate(fields, sel[i]);
      UpdateSpec(fields, Rewrite(fields, rows0, RowIds(sel[..i]), k, f), Record(obj.attrs[fields[k] := f(obj)], obj.pk))
        == Success(Rewrite(fields, rows0, RowIds(sel[..i + 1]), k, f))
  {
    var obj := Hydrate(fields, sel[i]);
    var ids := RowIds(sel[..i]);
    var cur := Rewrite(fields, rows0, ids, k, f);
    assert sel[i] in sel;
    var j :| 0 <= j < |rows0| && rows0[j] == sel[i];
    assert sel[i].rowid !in ids by {
      forall r | r in sel[..i]
        ensures r.rowid != sel[i].rowid
      {
        var l :| 0 <= l < i && sel[..i][l] == r;
        assert sel[l] == r;
      }
    }
    SetFieldRoundTrip(fields, rows0[j], k, f(obj), obj.pk);
    RewriteWellFormed(fields, rows0, ids, k, f);
    assert sel[i].rowid in RowIds(rows0);
    WithRowidSpec(cur, sel[i].rowid);
    RewriteStep(fields, rows0, ids, k, f, j);
    RowIdsSnoc(sel, i);
  }

  /** The loop `for x in repo.get_all(where): x.<field k> = f(x);
      repo.update(x)`: the selected rows get column `k` rewritten. */
  method RewriteWhere(repo: Repository, where: Option<seq<(string, Value)>>, k: nat, f: Record -> Value)
    requires repo.Valid() && Answerable(repo.fields, where) && k < |repo.fields|
    modifies repo
    ensures repo.Valid()
    ensures repo.rows == Rewrite(repo.fields, old(repo.rows), RowIds(Selected(repo.fields, old(repo.rows), where)), k, f)
  {
    ghost var rows0 := repo.rows;
    ghost var sel := Selected(repo.fields, rows0, where);
    SelectedSpec(repo.fields, rows0, where);
    var objs := repo.GetAll(where);
    assert objs == Success(HydrateAll(repo.fields, sel));
    assert RowIds(sel[..0]) == {};
    assert Rewrite(repo.fields, rows0, {}, k, f) == rows0;
    var i := 0;
    while i < |objs.value|
      invariant 0 <= i <= |sel| && objs.value == HydrateAll(repo.fields, sel)
      invariant repo.Valid()
      invariant repo.rows == Rewrite(repo.fields, rows0, RowIds(sel[..i]), k, f)
    {
      var obj := objs.value[i];
      assert obj == Hydrate(repo.fields, sel[i]);
      var edited := Record(obj.attrs[repo.fields[k] := f(obj)], obj.pk);
      RewriteNext(repo.fields, rows0, sel, i, k, f);
      var res := repo.Update(edited);
      assert res.Pass?;
      i := i + 1;
    }
    assert sel[..i] == sel;
  }

  /** Deleting the next selected record by key extends the deletion by
      that record's row. */
  lemma DeleteNext(rows0: seq<Row>, sel: seq<Row>, i: nat)
    requires UniqueRowids(sel) && (forall r :: r in sel ==> r in rows0) && i < |sel|
    ensures DeleteSpec(WithoutRowids(rows0, RowIds(sel[..i])), sel[i].rowid) == Success(WithoutRowids(rows0, RowIds(sel[..i + 1])))
  {
    var ids := RowIds(sel[..i]);
    assert sel[i] in sel;
    assert sel[i].rowid !in ids by {
      forall r | r in sel[..i]
        ensures r.rowid != sel[i].rowid
      {
        var l :| 0 <= l < i && sel[..i][l] == r;
        assert sel[l] == r;
      }
    }
    WithoutRowidsSpec(rows0, ids);
    assert sel[i].rowid in RowIds(WithoutRowids(rows0, ids));
    WithRowidSpec(WithoutRowids(rows0, ids), sel[i].rowid);
    WithoutRowidsStep(rows0, ids, sel[i].rowid);
    RowIdsSnoc(sel, i);
  }

  /** The loop `for x in repo.get_all(where=cond): repo.delete(x.pk)`: the
      selected rows are removed. */
  method DeleteWhere(repo: Repository, cond: seq<(string, Value)>)
    requires repo.Valid() && Answerable(repo.fields, Some(cond))
    modifies repo
    ensures repo.Valid()
    ensures repo.rows == WithoutRowids(old(repo.rows), RowIds(Matching(repo.fields, old(repo.rows), cond)))
  {
    ghost var rows0 := repo.rows;
    ghost var sel := Matching(repo.fields, rows0, cond);
    SelectedSpec(repo.fields, rows0, Some(cond));
    var objs := repo.GetAll(Some(cond));
    assert objs == Success(HydrateAll(repo.fields, sel));
    WithoutRowidsNone(rows0);
    assert RowIds(sel[..0]) == {};
    var i := 0;
    while i < |objs.value|
      invariant 0 <= i <= |sel| && objs.value == HydrateAll(repo.fields, sel)
      invariant repo.Valid()
      invariant repo.rows == WithoutRowids(rows0, RowIds(sel[..i]))
    {
      var pk := objs.value[i].pk.value;
      DeleteNext(rows0, sel, i);
      var res := repo.Delete(pk);
      i := i + 1;
    }
    assert sel[..i] == sel;
  }

  /** Adding a fresh record built from `vals` appends one row, and the
      record with its key written back is what reading that row gives. */
  lemma AddedRecord(fields: seq<string>, rows: seq<Row>, vals: seq<Value>, id: int)
    requires Distinct(fields) && |vals| == |fields|
    ensures AddSpec(fields, rows, Record(ZipMap(fields, vals), Some(0)), id) == Success(rows + [Row(id, vals)])
    ensures HydrateAll(fields, rows + [Row(id, vals)]) == HydrateAll(fields, rows) + [Record(ZipMap(fields, vals), Some(id))]
  {
    HydrateRoundTrip(fields, Row(0, vals));
  }

  lemma Member(s: set<int>) returns (x: int)
    requires s != {}
    ensures x in s
  {
    if forall y :: y !in s {
      assert false;
    }
    x :| x in s;
  }

  /** Deleting one more key from a table that already lost the keys
      `gone` succeeds exactly when the key was stored and not yet gone. */
  lemma DeleteKeyStep(rows0: seq<Row>, gone: set<int>, pk: int)
    ensures pk in RowIds(rows0) && pk !in gone ==>
      DeleteSpec(WithoutRowids(rows0, gone), pk) == Success(WithoutRowids(rows0, gone + {pk}))
    ensures !(pk in RowIds(rows0) && pk !in gone) ==> DeleteSpec(WithoutRowids(rows0, gone), pk) == Failure(NotFound(pk))
  {
    WithoutRowidsSpec(rows0, gone);
    WithRowidSpec(WithoutRowids(rows0, gone), pk);
    WithoutRowidsStep(rows0, gone, pk);
  }

  /** The loop `for pk in pks: repo.delete(pk)`, in the set's iteration
      order: all keys deleted, or the first missing key met raises and the
      keys met before it stay deleted. */
  method DeleteKeys(repo: Repository, pks: set<int>) returns (res: Outcome<RepoError>, ghost gone: set<int>)
    requires repo.Valid()
    modifies repo
    ensures repo.Valid()
    ensures res.Pass? <==> pks <= RowIds(old(repo.rows))
    ensures gone <= pks && repo.rows == WithoutRowids(old(repo.rows), gone)
    ensures res.Pass? ==> gone == pks
    ensures res.Fail? ==> exists pk :: pk in pks && pk !in RowIds(old(repo.rows)) && res.error == NotFound(pk)
  {
    ghost var rows0 := repo.rows;
    WithoutRowidsNone(rows0);
    var remaining := pks;
    gone := {};
    while remaining != {}
      invariant remaining <= pks && gone == pks - remaining && gone <= RowIds(rows0)
      invariant repo.Valid()
      invariant repo.rows == WithoutRowids(rows0, gone)
      decreases |remaining|
    {
      ghost var some := Member(remaining);
      var pk :| pk in remaining;
      DeleteKeyStep(rows0, gone, pk);
      var r := repo.Delete(pk);
      if r.Fail? {
        return r, gone;
      }
      remaining := remaining - {pk};
      gone := gone + {pk};
    }
    res := Pass;
  }

  lemma {:induction false} WithoutRowidsNone(rows: seq<Row>)
    ensures WithoutRowids(rows, {}) == rows
    decreases |rows|
  {
    if |rows| > 0 {
      WithoutRowidsNone(rows[1..]);
      assert rows == [rows[0]] + rows[1..];
    }
  }

  class Bookkeeper {
    const categoryRepo: Repository
    const budgetRepo: Repository
    const expenseRepo: Repository
    /** `Budget.update_spent`: the amount spent that a budget records,
        computed from the budget and the stored expenses by code that is
        not part of this model. */
    const spentOf: (Record, seq<Record>) -> int
    /** `datetime.fromisoformat(s).isoformat(sep='\t', timespec='minutes')`,
        `None` where it raises `ValueError`. */
    const isoMinutes: string -> Option<string>

    /** `self.categories`, `self.expenses`, `self.budgets` */
    var categories: seq<Record>
    var expenses: seq<Record>
    var budgets: seq<Record>
    /** The calls made to the view so far, in order. */
    var events: seq<ViewEvent>

    /** Three distinct repositories over the three tables. */
    ghost predicate Repositories()
      reads this, categoryRepo, budgetRepo, expenseRepo
    {
      && categoryRepo != budgetRepo && categoryRepo != expenseRepo && budgetRepo != expenseRepo
      && categoryRepo.Valid() && budgetRepo.Valid() && expenseRepo.Valid()
      && categoryRepo.fields == CategoryFields
      && expenseRepo.fields == ExpenseFields
      && budgetRepo.fields == BudgetFields
    }

    /** The repositories, and the category and budget lists equal to what
        their tables hold. */
    ghost predicate Valid()
      reads this, categoryRepo, budgetRepo, expenseRepo
    {
      && Repositories()
      && categories == HydrateAll(CategoryFields, categoryRepo.rows)
      && budgets == HydrateAll(BudgetFields, budgetRepo.rows)
    }

    /** The expense list equals what the expense table holds. */
    ghost predicate ExpensesInSync()
      reads this, expenseRepo
    {
      expenses == HydrateAll(ExpenseFields, expenseRepo.rows)
    }

    /** The budget table after `update_budgets`, given the budget rows
        before it. */
    ghost function RefreshedBudgets(before: seq<Row>): seq<Row>
      reads this, expenseRepo
    {
      Refreshed(spentOf, before, HydrateAll(ExpenseFields, expenseRepo.rows))
    }

    /** `Bookkeeper(view, repository_factory)`; the factory's three
        repositories are passed in. */
    constructor(categoryRepo: Repository, budgetRepo: Repository, expenseRepo: Repository,
                spentOf: (Record, seq<Record>) -> int, isoMinutes: string -> Option<string>)
      requires categoryRepo != budgetRepo && categoryRepo != expenseRepo && budgetRepo != expenseRepo
      requires categoryRepo.Valid() && budgetRepo.Valid() && expenseRepo.Valid()
      requires categoryRepo.fields == CategoryFields && expenseRepo.fields == ExpenseFields && budgetRepo.fields == BudgetFields
      modifies budgetRepo
      ensures Valid() && ExpensesInSync()
      ensures this.categoryRepo == categoryRepo && this.budgetRepo == budgetRepo && this.expenseRepo == expenseRepo
      ensures this.spentOf == spentOf && this.isoMinutes == isoMinutes
      ensures categoryRepo.rows == old(categoryRepo.rows) && expenseRepo.rows == old(expenseRepo.rows)
      ensures budgetRepo.rows == RefreshedBudgets(old(budgetRepo.rows))
      ensures events == [CategoriesShown(categories), ExpensesShown(expenses), BudgetsShown(budgets)]
    {
      this.categoryRepo := categoryRepo;
      this.budgetRepo := budgetRepo;
      this.expenseRepo := expenseRepo;
      this.spentOf := spentOf;
      this.isoMinutes := isoMinutes;
      var cats := categoryRepo.GetAll(None);
      categories := cats.value;
      var bdgs := budgetRepo.GetAll(None);
      budgets := bdgs.value;
      expenses := [];
      events := [CategoriesShown(cats.value)];
      new;
      UpdateExpenses();
    }

    /** `cat_checker`: the name must be one of the listed categories. */
    method CatChecker(name: string) returns (res: Outcome<BkError>)
      ensures res.Pass? <==> NameListed(categories, name)
      ensures res.Fail? ==> res.error == UnknownCategory(name)
    {
      if NameListed(categories, name) {
        res := Pass;
      } else {
        res := Fail(UnknownCategory(name));
      }
    }

    /** `add_category(name, parent)`: refused when the name is listed or a
        given parent is not; otherwise stored with its parent's key. */
    method AddCategory(name: string, parent: Option<string>) returns (res: Outcome<BkError>)
      requires Valid()
      modifies this, categoryRepo
      ensures Valid()
      ensures res.Fail? <==> NameListed(old(categories), name) || (parent.Some? && !NameListed(old(categories), parent.value))
      ensures res.Fail? ==> res.error == if NameListed(old(categories), name) then CategoryExists(name) else UnknownCategory(parent.value)
      ensures res.Fail? ==> categoryRepo.rows == old(categoryRepo.rows) && events == old(events)
      ensures res.Pass? ==>
        && |Named(old(categoryRepo.rows), name)| == 0
        && (parent.Some? ==> |Named(old(categoryRepo.rows), parent.value)| > 0)
        && exists id :: (id > 0 && id !in RowIds(old(categoryRepo.rows)) &&
             categoryRepo.rows == old(categoryRepo.rows) + [Row(id, [Text(name),
               if parent.None? then Null else Int(NamedRow(old(categoryRepo.rows), parent.value).rowid)])])
      ensures res.Pass? ==> events == old(events) + [CategoriesShown(categories)]
      ensures expenses == old(expenses) && budgets == old(budgets)
    {
      CachedNameIsStored(categoryRepo.rows, name);
      if NameListed(categories, name) {
        return Fail(CategoryExists(name));
      }
      ghost var rows0 := categoryRepo.rows;
      var parentPk := Null;
      if parent.Some? {
        CachedNameIsStored(rows0, parent.value);
        if !NameListed(categories, parent.value) {
          return Fail(UnknownCategory(parent.value));
        }
        var key := CategoryKey(parent.value);
        parentPk := Int(key);
      }
      StoreCategory(name, parentPk);
      res := Pass;
    }

    /** The second half of `add_category`: the new category is appended to
        the list, stored, and the list shown. */
    method StoreCategory(name: string, parentPk: Value)
      requires Valid()
      modifies this, categoryRepo
      ensures Valid()
      ensures exists id :: (id > 0 && id !in RowIds(old(categoryRepo.rows)) &&
        categoryRepo.rows == old(categoryRepo.rows) + [Row(id, [Text(name), parentPk])])
      ensures events == old(events) + [CategoriesShown(categories)]
      ensures expenses == old(expenses) && budgets == old(budgets)
    {
      ghost var rows0 := categoryRepo.rows;
      ghost var vals := [Text(name), parentPk];
      var cat := NewCategory(name, parentPk);
      CategoryColumns();
      NewCategoryValues(name, parentPk);
      var added, saved := categoryRepo.Add(cat);
      ghost var id := added.value;
      AddedRecord(CategoryFields, rows0, vals, id);
      assert categoryRepo.rows == rows0 + [Row(id, vals)];
      categories := categories + [saved];
      events := events + [CategoriesShown(categories)];
    }

    /** `category_repo.get_all(where={'name': name})[0].pk` for a listed
        name. */
    method CategoryKey(name: string) returns (key: int)
      requires Valid() && |Named(categoryRepo.rows, name)| > 0
      ensures key == NamedRow(categoryRepo.rows, name).rowid
    {
      KnownConditions(name, 0);
      var found := categoryRepo.GetAll(Some(NameIs(name)));
      assert found.value == HydrateAll(CategoryFields, Named(categoryRepo.rows, name));
      key := found.value[0].pk.value;
    }

    /** `delete_category(name)`: the first category with that name is
        deleted, its children are moved to its parent, the category list is
        re-read and shown, the category's expenses are deleted and the
        expenses and budgets refreshed. */
    method DeleteCategory(name: string) returns (res: Outcome<BkError>)
      requires Valid()
      modifies this, categoryRepo, expenseRepo, budgetRepo
      ensures Valid()
      ensures res.Fail? ==> expenses == old(expenses)
      ensures res.Fail? <==> |Named(old(categoryRepo.rows), name)| == 0
      ensures res.Fail? ==> res.error == UnknownCategory(name)
      ensures res.Fail? ==> (categoryRepo.rows == old(categoryRepo.rows) && expenseRepo.rows == old(expenseRepo.rows)
        && budgetRepo.rows == old(budgetRepo.rows) && events == old(events))
      ensures res.Pass? ==> categoryRepo.rows == CategoryDeleted(old(categoryRepo.rows), NamedRow(old(categoryRepo.rows), name))
      ensures res.Pass? ==> expenseRepo.rows == ExpensesDropped(old(expenseRepo.rows), NamedRow(old(categoryRepo.rows), name).rowid)
      ensures res.Pass? ==> ExpensesInSync() && budgetRepo.rows == RefreshedBudgets(old(budgetRepo.rows))
      ensures res.Pass? ==> events == old(events) + [CategoriesShown(categories), ExpensesShown(expenses), BudgetsShown(budgets)]
    {
      KnownConditions(name, 0);
      var cats := categoryRepo.GetAll(Some(NameIs(name)));
      if |cats.value| == 0 {
        return Fail(UnknownCategory(name));
      }
      var cat := cats.value[0];
      ghost var c := NamedRow(categoryRepo.rows, name);
      assert cat == Hydrate(CategoryFields, c);
      DropCategory(cat, c);
      res := Pass;
    }

    /** `delete_category` once the record `cat` of row `c` has been found:
        remove the category, delete its expenses, refresh. */
    method DropCategory(cat: Record, ghost c: Row)
      requires Valid() && c in categoryRepo.rows && cat == Hydrate(CategoryFields, c)
      modifies this, categoryRepo, expenseRepo, budgetRepo
      ensures Valid()
      ensures categoryRepo.rows == CategoryDeleted(old(categoryRepo.rows), c)
      ensures expenseRepo.rows == ExpensesDropped(old(expenseRepo.rows), c.rowid)
      ensures ExpensesInSync() && budgetRepo.rows == RefreshedBudgets(old(budgetRepo.rows))
      ensures events == old(events) + [CategoriesShown(categories), ExpensesShown(expenses), BudgetsShown(budgets)]
    {
      var pk := RemoveCategory(cat, c);
      DropExpenses(pk);
    }

    /** The expense half of `delete_category`: delete the expenses of
        category `pk`, then refresh expenses and budgets. */
    method DropExpenses(pk: int)
      requires Valid()
      modifies this, expenseRepo, budgetRepo
      ensures Valid()
      ensures expenseRepo.rows == ExpensesDropped(old(expenseRepo.rows), pk)
      ensures ExpensesInSync() && budgetRepo.rows == RefreshedBudgets(old(budgetRepo.rows))
      ensures categories == old(categories)
      ensures events == old(events) + [ExpensesShown(expenses), BudgetsShown(budgets)]
    {
      ExpenseColumns();
      KnownConditions("", pk);
      DeleteWhere(expenseRepo, InCategory(pk));
      UpdateExpenses();
    }

    /** The category half of `delete_category`, given the record `cat`
        read from row `c`: delete it, re-parent its children, re-read and
        show the list. */
    method RemoveCategory(cat: Record, ghost c: Row) returns (pk: int)
      requires Valid() && c in categoryRepo.rows && cat == Hydrate(CategoryFields, c)
      modifies this, categoryRepo
      ensures Valid()
      ensures pk == c.rowid && categoryRepo.rows == CategoryDeleted(old(categoryRepo.rows), c)
      ensures expenses == old(expenses)
      ensures events == old(events) + [CategoriesShown(categories)]
    {
      pk := DeleteAndReparent(cat, c);
      var all := categoryRepo.GetAll(None);
      categories := all.value;
      events := events + [CategoriesShown(categories)];
    }

    /** `category_repo.delete(cat.pk)`, then every child of `cat` gets
        `cat.parent` as its parent. */
    method DeleteAndReparent(cat: Record, ghost c: Row) returns (pk: int)
      requires Repositories() && c in categoryRepo.rows && cat == Hydrate(CategoryFields, c)
      modifies categoryRepo
      ensures Repositories()
      ensures pk == c.rowid && categoryRepo.rows == CategoryDeleted(old(categoryRepo.rows), c)
    {
      ghost var rows0 := categoryRepo.rows;
      assert |c.values| == 2;
      HydrateAttrs(CategoryFields, c);
      assert cat.attrs["parent"] == c.values[1];
      pk := cat.pk.value;
      WithRowidSpec(rows0, pk);
      var gone := categoryRepo.Delete(pk);
      assert categoryRepo.rows == WithoutRowid(rows0, pk);
      KnownConditions("", pk);
      RewriteWhere(categoryRepo, Some(ChildOf(pk)), 1, ConstantValue(cat.attrs["parent"]));
    }

    /** `add_expense(amount, cat_name, comment)`: the amount must read as a
        positive integer and the lower-cased name must be a stored
        category; `now` is the date the new expense gets by default. */
    method AddExpense(amount: string, catName: string, comment: string, now: Value) returns (res: Outcome<BkError>)
      requires Valid()
      modifies this, expenseRepo, budgetRepo
      ensures Valid()
      ensures res.Fail? ==> expenses == old(expenses)
      ensures res.Pass? <==> ParseInt(amount).Some? && ParseInt(amount).value > 0 && |Named(categoryRepo.rows, Lower(catName))| > 0
      ensures ParseInt(amount).None? ==> res == Fail(NotAnInteger)
      ensures ParseInt(amount).Some? && ParseInt(amount).value <= 0 ==> res == Fail(NotPositive)
      ensures ParseInt(amount).Some? && ParseInt(amount).value > 0 && |Named(categoryRepo.rows, Lower(catName))| == 0 ==>
        res == Fail(UnknownCategory(catName))
      ensures res.Fail? ==> (expenseRepo.rows == old(expenseRepo.rows) && budgetRepo.rows == old(budgetRepo.rows) && events == old(events))
      ensures res.Pass? ==> exists id :: (id > 0 && id !in RowIds(old(expenseRepo.rows)) &&
        expenseRepo.rows == old(expenseRepo.rows) +
          [Row(id, [Int(ParseInt(amount).value), Int(NamedRow(categoryRepo.rows, Lower(catName)).rowid), now, Text(comment)])])
      ensures res.Pass? ==> ExpensesInSync() && budgetRepo.rows == RefreshedBudgets(old(budgetRepo.rows))
      ensures res.Pass? ==> (events == old(events) + [ExpensesShown(expenses), BudgetsShown(budgets)] +
        (if exists b :: b in budgets && OverBudget(b) then [OverBudgetShown] else []))
    {
      var n := ParseInt(amount);
      if n.None? {
        return Fail(NotAnInteger);
      }
      if n.value <= 0 {
        return Fail(NotPositive);
      }
      res := AddValidAmount(n.value, catName, comment, now);
    }

    /** `add_expense` once the amount has been read as a positive integer:
        look up the lower-cased category name, then record the expense. */
    method AddValidAmount(amount: int, catName: string, comment: string, now: Value) returns (res: Outcome<BkError>)
      requires Valid()
      modifies this, expenseRepo, budgetRepo
      ensures Valid()
      ensures res.Fail? ==> expenses == old(expenses)
      ensures res.Pass? <==> |Named(categoryRepo.rows, Lower(catName))| > 0
      ensures res.Fail? ==> (res.error == UnknownCategory(catName) &&
        expenseRepo.rows == old(expenseRepo.rows) && budgetRepo.rows == old(budgetRepo.rows) && events == old(events))
      ensures res.Pass? ==> exists id :: (id > 0 && id !in RowIds(old(expenseRepo.rows)) &&
        expenseRepo.rows == old(expenseRepo.rows) +
          [Row(id, [Int(amount), Int(NamedRow(categoryRepo.rows, Lower(catName)).rowid), now, Text(comment)])])
      ensures res.Pass? ==> ExpensesInSync() && budgetRepo.rows == RefreshedBudgets(old(budgetRepo.rows))
      ensures res.Pass? ==> (events == old(events) + [ExpensesShown(expenses), BudgetsShown(budgets)] +
        (if exists b :: b in budgets && OverBudget(b) then [OverBudgetShown] else []))
    {
      KnownConditions(Lower(catName), 0);
      var cats := categoryRepo.GetAll(Some(NameIs(Lower(catName))));
      if |cats.value| == 0 {
        return Fail(UnknownCategory(catName));
      }
      assert cats.value[0].pk.value == NamedRow(categoryRepo.rows, Lower(catName)).rowid;
      RecordExpense(amount, cats.value[0].pk.value, now, comment);
      res := Pass;
    }

    /** The second half of `add_expense`: store the expense, refresh, and
        check the budgets. */
    method RecordExpense(amount: int, category: int, now: Value, comment: string)
      requires Valid()
      modifies this, expenseRepo, budgetRepo
      ensures Valid()
      ensures exists id :: (id > 0 && id !in RowIds(old(expenseRepo.rows)) &&
        expenseRepo.rows == old(expenseRepo.rows) + [Row(id, [Int(amount), Int(category), now, Text(comment)])])
      ensures ExpensesInSync() && budgetRepo.rows == RefreshedBudgets(old(budgetRepo.rows))
      ensures events == old(events) + [ExpensesShown(expenses), BudgetsShown(budgets)] +
        (if exists b :: b in budgets && OverBudget(b) then [OverBudgetShown] else [])
    {
      StoreExpense(amount, category, now, comment);
      UpdateExpenses();
      WarnOverBudget();
    }

    /** `expense_repo.add(Expense(amount, category, comment=comment))` */
    method StoreExpense(amount: int, category: int, now: Value, comment: string)
      requires Repositories()
      modifies expenseRepo
      ensures Repositories()
      ensures exists id :: (id > 0 && id !in RowIds(old(expenseRepo.rows)) &&
        expenseRepo.rows == old(expenseRepo.rows) + [Row(id, [Int(amount), Int(category), now, Text(comment)])])
    {
      ghost var rows0 := expenseRepo.rows;
      ExpenseColumns();
      NewExpenseValues(amount, category, now, comment);
      var added, saved := expenseRepo.Add(NewExpense(amount, category, now, comment));
      ghost var id := added.value;
      assert expenseRepo.rows == rows0 + [Row(id, [Int(amount), Int(category), now, Text(comment)])];
    }

    /** The budget check closing `add_expense`: the over-budget message is
        shown once when some budget has spent more than its limit. */
    method WarnOverBudget()
      requires Valid()
      modifies this
      ensures Valid()
      ensures events == old(events) + (if exists b :: b in budgets && OverBudget(b) then [OverBudgetShown] else [])
      ensures categories == old(categories) && expenses == old(expenses) && budgets == old(budgets)
    {
      var i := 0;
      while i < |budgets|
        invariant 0 <= i <= |budgets|
        invariant forall j :: 0 <= j < i ==> !OverBudget(budgets[j])
      {
        if OverBudget(budgets[i]) {
          events := events + [OverBudgetShown];
          return;
        }
        i := i + 1;
      }
    }

    /** `delete_expenses(pks)`: the keys are deleted one at a time, in the
        set's iteration order; a key with no expense raises, leaving the
        keys deleted before it deleted and nothing refreshed. */
    method DeleteExpenses(pks: set<int>) returns (res: Outcome<BkError>)
      requires Valid()
      modifies this, expenseRepo, budgetRepo
      ensures Valid()
      ensures res.Pass? <==> pks <= RowIds(old(expenseRepo.rows))
      ensures res.Pass? ==> expenseRepo.rows == WithoutRowids(old(expenseRepo.rows), pks)
      ensures res.Pass? ==> ExpensesInSync() && budgetRepo.rows == RefreshedBudgets(old(budgetRepo.rows))
      ensures res.Pass? ==> events == old(events) + [ExpensesShown(expenses), BudgetsShown(budgets)]
      ensures res.Fail? ==> exists pk :: pk in pks && pk !in RowIds(old(expenseRepo.rows)) && res.error == Repo(NotFound(pk))
      ensures res.Fail? ==> exists gone :: gone <= pks && expenseRepo.rows == WithoutRowids(old(expenseRepo.rows), gone)
      ensures res.Fail? ==> (budgetRepo.rows == old(budgetRepo.rows) && expenses == old(expenses) && events == old(events))
    {
      var r, gone := DeleteKeys(expenseRepo, pks);
      if r.Fail? {
        return Fail(Repo(r.error));
      }
      UpdateExpenses();
      res := Pass;
    }

    /** `modify_expense(pk, attr, new_val)`: read the expense, apply the
        edit for `attr`, write it back, refresh. */
    method ModifyExpense(pk: int, attr: string, newVal: string) returns (res: Outcome<BkError>)
      requires Valid()
      modifies this, expenseRepo, budgetRepo
      ensures Valid()
      ensures res.Fail? ==> expenses == old(expenses)
      ensures pk !in RowIds(old(expenseRepo.rows)) ==> res == Fail(ExpenseNotFound(pk))
      ensures pk in RowIds(old(expenseRepo.rows)) && ExpenseEdit(categoryRepo.rows, attr, newVal, isoMinutes).Failure? ==>
        res == Fail(ExpenseEdit(categoryRepo.rows, attr, newVal, isoMinutes).error)
      ensures res.Pass? <==> pk in RowIds(old(expenseRepo.rows)) && ExpenseEdit(categoryRepo.rows, attr, newVal, isoMinutes).Success?
      ensures res.Fail? ==> (expenseRepo.rows == old(expenseRepo.rows) && budgetRepo.rows == old(budgetRepo.rows) && events == old(events))
      ensures res.Pass? ==> (expenseRepo.rows ==
        match ExpenseEdit(categoryRepo.rows, attr, newVal, isoMinutes).value
        case None => old(expenseRepo.rows)
        case Some(edit) => Edited(ExpenseFields, old(expenseRepo.rows), pk, edit.0, edit.1))
      ensures res.Pass? ==> ExpensesInSync() && budgetRepo.rows == RefreshedBudgets(old(budgetRepo.rows))
      ensures res.Pass? ==> events == old(events) + [ExpensesShown(expenses), BudgetsShown(budgets)]
    {
      ghost var rows0 := expenseRepo.rows;
      var got := expenseRepo.Get(pk);
      GetNeverSeveral(ExpenseFields, rows0, pk);
      if got.value.None? {
        return Fail(ExpenseNotFound(pk));
      }
      WithRowidSpec(rows0, pk);
      res := EditFetched(pk, got.value.value, attr, newVal);
    }

    /** `modify_expense` once the expense `pk` has been fetched as `exp`. */
    method EditFetched(pk: int, exp: Record, attr: string, newVal: string) returns (res: Outcome<BkError>)
      requires Valid() && |WithRowid(expenseRepo.rows, pk)| == 1
      requires exp == Hydrate(ExpenseFields, WithRowid(expenseRepo.rows, pk)[0])
      modifies this, expenseRepo, budgetRepo
      ensures Valid()
      ensures res.Fail? ==> expenses == old(expenses)
      ensures res.Pass? <==> ExpenseEdit(categoryRepo.rows, attr, newVal, isoMinutes).Success?
      ensures res.Fail? ==> (res.error == ExpenseEdit(categoryRepo.rows, attr, newVal, isoMinutes).error
        && expenseRepo.rows == old(expenseRepo.rows) && budgetRepo.rows == old(budgetRepo.rows) && events == old(events))
      ensures res.Pass? ==> (expenseRepo.rows ==
        match ExpenseEdit(categoryRepo.rows, attr, newVal, isoMinutes).value
        case None => old(expenseRepo.rows)
        case Some(edit) => Edited(ExpenseFields, old(expenseRepo.rows), pk, edit.0, edit.1))
      ensures res.Pass? ==> ExpensesInSync() && budgetRepo.rows == RefreshedBudgets(old(budgetRepo.rows))
      ensures res.Pass? ==> events == old(events) + [ExpensesShown(expenses), BudgetsShown(budgets)]
    {
      var edited := ApplyEdit(exp, attr, newVal);
      if edited.Failure? {
        return Fail(edited.error);
      }
      ExpenseEditSpec(categoryRepo.rows, attr, newVal, isoMinutes);
      WriteExpense(pk, edited.value, ExpenseEdit(categoryRepo.rows, attr, newVal, isoMinutes).value);
      UpdateExpenses();
      res := Pass;
    }

    /** `expense_repo.update(exp)` for the expense `pk`, fetched and then
        given value `edit.1` in column `edit.0`, or left as fetched. */
    method WriteExpense(pk: int, exp: Record, ghost edit: Option<(nat, Value)>)
      requires Repositories() && |WithRowid(expenseRepo.rows, pk)| == 1
      requires edit.Some? ==> edit.value.0 < |ExpenseFields|
      requires (var h := Hydrate(ExpenseFields, WithRowid(expenseRepo.rows, pk)[0]);
        exp == match edit case None => h case Some(e) => Record(h.attrs[ExpenseFields[e.0] := e.1], h.pk))
      modifies expenseRepo
      ensures Repositories()
      ensures expenseRepo.rows == match edit
        case None => old(expenseRepo.rows)
        case Some(e) => Edited(ExpenseFields, old(expenseRepo.rows), pk, e.0, e.1)
    {
      ExpenseColumns();
      assert WithRowid(expenseRepo.rows, pk)[0] in WithRowid(expenseRepo.rows, pk);
      WithRowidSpec(expenseRepo.rows, pk);
      if edit.Some? {
        UpdateOneColumn(ExpenseFields, expenseRepo.rows, pk, edit.value.0, edit.value.1);
      } else {
        UpdateUnchanged(ExpenseFields, expenseRepo.rows, pk);
      }
      var u := expenseRepo.Update(exp);
    }

    /** The per-attribute half of `modify_expense`: check `newVal` for
        `attr` and set it on the fetched expense `exp`; an attribute with no
        rule leaves the expense as it was. */
    method ApplyEdit(exp: Record, attr: string, newVal: string) returns (res: Result<Record, BkError>)
      requires Valid()
      ensures res.Success? <==> ExpenseEdit(categoryRepo.rows, attr, newVal, isoMinutes).Success?
      ensures res.Failure? ==> res.error == ExpenseEdit(categoryRepo.rows, attr, newVal, isoMinutes).error
      ensures res.Success? ==> (res.value ==
        match ExpenseEdit(categoryRepo.rows, attr, newVal, isoMinutes).value
        case None => exp
        case Some(edit) => Record(exp.attrs[attr := edit.1], exp.pk))
    {
      var r := exp;
      if attr == "category" {
        var catName := Lower(newVal);
        CachedNameIsStored(categoryRepo.rows, catName);
        if !NameListed(categories, catName) {
          return Failure(UnknownCategory(catName));
        }
        var key := CategoryKey(catName);
        r := r.(attrs := r.attrs["category" := Int(key)]);
      }
      if attr == "amount" {
        var n := ParseInt(newVal);
        if n.None? {
          return Failure(NotAnInteger);
        }
        if n.value <= 0 {
          return Failure(NotPositive);
        }
        r := r.(attrs := r.attrs["amount" := Int(n.value)]);
      }
      if attr == "expense_date" {
        var t := isoMinutes(newVal);
        if t.None? {
          return Failure(BadDate);
        }
        r := r.(attrs := r.attrs[attr := Text(t.value)]);
      }
      res := Success(r);
    }

    /** `modify_budget(pk, new_limit, period)`: an empty limit deletes the
        budget `pk` (if given); otherwise the limit must read as a
        non-negative integer and is stored in a new budget (no `pk`) or in
        budget `pk`.  The budgets are refreshed except when a given key has
        no budget. */
    method ModifyBudget(pk: Option<int>, newLimit: string, period: string) returns (res: Outcome<BkError>)
      requires Valid()
      modifies this, budgetRepo
      ensures Valid()
      ensures expenses == old(expenses)
      ensures newLimit == "" ==> (res.Pass? <==> pk.None? || pk.value in RowIds(old(budgetRepo.rows)))
      ensures newLimit == "" && res.Pass? ==> (budgetRepo.rows ==
        RefreshedBudgets(if pk.None? then old(budgetRepo.rows) else WithoutRowid(old(budgetRepo.rows), pk.value)))
      ensures newLimit == "" && res.Fail? ==>
        (res.error == Repo(NotFound(pk.value)) && budgetRepo.rows == old(budgetRepo.rows) && events == old(events))
      ensures newLimit != "" && ParseInt(newLimit).None? ==> res == Fail(NotAnInteger)
      ensures newLimit != "" && ParseInt(newLimit).Some? && ParseInt(newLimit).value < 0 ==> res == Fail(NegativeLimit)
      ensures newLimit != "" && (ParseInt(newLimit).None? || ParseInt(newLimit).value < 0) ==>
        budgetRepo.rows == RefreshedBudgets(old(budgetRepo.rows))
      ensures newLimit != "" && ParseInt(newLimit).Some? && ParseInt(newLimit).value >= 0 && pk.None? ==>
        (res.Pass? && exists id :: (id > 0 && id !in RowIds(old(budgetRepo.rows)) && budgetRepo.rows ==
          RefreshedBudgets(old(budgetRepo.rows) + [Row(id, [Int(ParseInt(newLimit).value), Text(period), Int(0)])])))
      ensures newLimit != "" && ParseInt(newLimit).Some? && ParseInt(newLimit).value >= 0 && pk.Some? && pk.value !in RowIds(old(budgetRepo.rows)) ==>
        (res == Fail(BudgetNotFound(pk.value)) && budgetRepo.rows == old(budgetRepo.rows) && events == old(events))
      ensures newLimit != "" && ParseInt(newLimit).Some? && ParseInt(newLimit).value >= 0 && pk.Some? && pk.value in RowIds(old(budgetRepo.rows)) ==>
        (res.Pass? && budgetRepo.rows == RefreshedBudgets(Edited(BudgetFields, old(budgetRepo.rows), pk.value, 0, Int(ParseInt(newLimit).value))))
      ensures res.Pass? || res.error == NotAnInteger || res.error == NegativeLimit ==> events == old(events) + [BudgetsShown(budgets)]
    {
      if newLimit == "" {
        if pk.Some? {
          WithRowidSpec(budgetRepo.rows, pk.value);
          var r := budgetRepo.Delete(pk.value);
          if r.Fail? {
            return Fail(Repo(r.error));
          }
        }
        UpdateBudgets();
        return Pass;
      }
      var n := ParseInt(newLimit);
      if n.None? {
        UpdateBudgets();
        return Fail(NotAnInteger);
      }
      if n.value < 0 {
        UpdateBudgets();
        return Fail(NegativeLimit);
      }
      if pk.None? {
        StoreBudget(n.value, period);
      } else {
        var found := SetLimit(pk.value, n.value);
        if !found {
          return Fail(BudgetNotFound(pk.value));
        }
      }
      UpdateBudgets();
      res := Pass;
    }

    /** `budget_repo.add(Budget(limitation=limit, period=period))`, with the
        budget shape the coordinator works with. */
    method StoreBudget(limit: int, period: string)
      requires Repositories()
      modifies budgetRepo
      ensures Repositories()
      ensures exists id :: (id > 0 && id !in RowIds(old(budgetRepo.rows)) &&
        budgetRepo.rows == old(budgetRepo.rows) + [Row(id, [Int(limit), Text(period), Int(0)])])
    {
      ghost var rows0 := budgetRepo.rows;
      var added, saved := budgetRepo.Add(PlannedBudget(limit, period));
      ghost var id := added.value;
      assert budgetRepo.rows == rows0 + [Row(id, [Int(limit), Text(period), Int(0)])];
    }

    /** `budget_repo.get(pk)`, then its `limitation` set and written back
        with `update`; `found` is false when there is no such budget. */
    method SetLimit(pk: int, limit: int) returns (found: bool)
      requires Repositories()
      modifies budgetRepo
      ensures Repositories()
      ensures found <==> pk in RowIds(old(budgetRepo.rows))
      ensures found ==> budgetRepo.rows == Edited(BudgetFields, old(budgetRepo.rows), pk, 0, Int(limit))
      ensures !found ==> budgetRepo.rows == old(budgetRepo.rows)
    {
      ghost var rows0 := budgetRepo.rows;
      var got := budgetRepo.Get(pk);
      GetNeverSeveral(BudgetFields, rows0, pk);
      if got.value.None? {
        return false;
      }
      var b := got.value.value;
      BudgetColumns();
      assert BudgetFields[0] == "limitation";
      UpdateOneColumn(BudgetFields, rows0, pk, 0, Int(limit));
      var u := budgetRepo.Update(Record(b.attrs["limitation" := Int(limit)], b.pk));
      found := true;
    }

    /** `update_expenses`: re-read the expenses, show them, refresh the
        budgets. */
    method UpdateExpenses()
      requires Repositories() && categories == HydrateAll(CategoryFields, categoryRepo.rows)
      modifies this, budgetRepo
      ensures Valid() && ExpensesInSync()
      ensures budgetRepo.rows == RefreshedBudgets(old(budgetRepo.rows))
      ensures categories == old(categories)
      ensures events == old(events) + [ExpensesShown(expenses), BudgetsShown(budgets)]
    {
      var exps := expenseRepo.GetAll(None);
      expenses := exps.value;
      events := events + [ExpensesShown(expenses)];
      UpdateBudgets();
    }

    /** `update_budgets`: every budget's `spent` recomputed and stored, then
        the budgets re-read and shown. */
    method UpdateBudgets()
      requires Repositories() && categories == HydrateAll(CategoryFields, categoryRepo.rows)
      modifies this, budgetRepo
      ensures Valid()
      ensures budgetRepo.rows == RefreshedBudgets(old(budgetRepo.rows))
      ensures categories == old(categories) && expenses == old(expenses)
      ensures events == old(events) + [BudgetsShown(budgets)]
    {
      BudgetColumns();
      RewriteWhere(budgetRepo, None, 2, SpentUpdate(spentOf, HydrateAll(ExpenseFields, expenseRepo.rows)));
      var bdgs := budgetRepo.GetAll(None);
      budgets := bdgs.value;
      events := events + [BudgetsShown(budgets)];
    }
  }
}
