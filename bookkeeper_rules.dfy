/** The coordinator's domain rules stated on the three tables: the stored
    shapes of categories, expenses and budgets, what deleting a category
    does to the other categories and to the expenses, and the category
    hierarchy invariant those operations keep. */
module BookkeeperRules {
  import opened Wrappers
  import opened PyStr
  import opened Records
  import opened Budgets

  /** The stored fields of `Category(name, parent)`. */
  const CategoryFields: seq<string> := ["name", "parent"]
  /** The stored fields of `Expense(amount, category, expense_date, comment)`. */
  const ExpenseFields: seq<string> := ["amount", "category", "expense_date", "comment"]
  /** The stored fields of the budget the coordinator works with. */
  const BudgetFields: seq<string> := PlannedFields

  /** The `ValueError`s the coordinator raises to the view. */
  datatype BkError =
    | CategoryExists(name: string)
    | UnknownCategory(name: string)
    | NotAnInteger
    | NotPositive
    | ExpenseNotFound(pk: int)
    | BadDate
    | NegativeLimit
    | BudgetNotFound(pk: int)
    | Repo(error: RepoError)

  /** The view callbacks the coordinator makes, in order. */
  datatype ViewEvent =
    | CategoriesShown(categories: seq<Record>)
    | ExpensesShown(expenses: seq<Record>)
    | BudgetsShown(budgets: seq<Record>)
    | OverBudgetShown

  lemma CategoryColumns()
    ensures Distinct(CategoryFields)
    ensures ColumnIndex(CategoryFields, "name") == Some(0)
    ensures ColumnIndex(CategoryFields, "parent") == Some(1)
  {
    assert "name"[0] != "parent"[0];
    ColumnIndexOf(CategoryFields, 0);
    ColumnIndexOf(CategoryFields, 1);
  }

  lemma ExpenseColumns()
    ensures Distinct(ExpenseFields)
    ensures ColumnIndex(ExpenseFields, "amount") == Some(0)
    ensures ColumnIndex(ExpenseFields, "category") == Some(1)
    ensures ColumnIndex(ExpenseFields, "expense_date") == Some(2)
  {
    assert "amount"[0] != "category"[0] && "amount"[0] != "expense_date"[0] && "amount"[0] != "comment"[0];
    assert "category"[0] != "expense_date"[0] && "category"[1] != "comment"[1] && "expense_date"[0] != "comment"[0];
    ColumnIndexOf(ExpenseFields, 0);
    ColumnIndexOf(ExpenseFields, 1);
    ColumnIndexOf(ExpenseFields, 2);
  }

  lemma BudgetColumns()
    ensures Distinct(BudgetFields)
    ensures ColumnIndex(BudgetFields, "limitation") == Some(0)
    ensures ColumnIndex(BudgetFields, "spent") == Some(2)
  {
    assert "limitation"[0] != "period"[0] && "limitation"[0] != "spent"[0] && "period"[0] != "spent"[0];
    ColumnIndexOf(BudgetFields, 0);
    ColumnIndexOf(BudgetFields, 2);
  }

  // ---------------------------------------------------------------------
  // Looking categories up

  /** `name in [c.name for c in cats]` */
  predicate NameListed(cats: seq<Record>, name: string)
  {
    exists i :: 0 <= i < |cats| && "name" in cats[i].attrs && cats[i].attrs["name"] == Text(name)
  }

  function NameIs(name: string): seq<(string, Value)> { [("name", Text(name))] }
  function ChildOf(pk: int): seq<(string, Value)> { [("parent", Int(pk))] }
  function InCategory(pk: int): seq<(string, Value)> { [("category", Int(pk))] }

  /** `category_repo.get_all(where={'name': name})`, as rows. */
  function Named(rows: seq<Row>, name: string): seq<Row>
  {
    Matching(CategoryFields, rows, NameIs(name))
  }

  /** The conditions the coordinator passes to `get_all` name existing
      columns, so the lookups never raise. */
  lemma KnownConditions(name: string, pk: int)
    ensures UnknownColumn(CategoryFields, NameIs(name)).None?
    ensures UnknownColumn(CategoryFields, ChildOf(pk)).None?
    ensures UnknownColumn(ExpenseFields, InCategory(pk)).None?
  {
    CategoryColumns();
    ExpenseColumns();
    assert NameIs(name)[1..] == [] && ChildOf(pk)[1..] == [] && InCategory(pk)[1..] == [];
  }

  /** `category_repo.get_all(where={'name': name})[0]`: the first stored
      category with that name. */
  function NamedRow(rows: seq<Row>, name: string): (c: Row)
    requires WellFormedTable(CategoryFields, rows) && |Named(rows, name)| > 0
    ensures c in rows && |c.values| == 2 && c.values[0] == Text(name)
  {
    CachedNameIsStored(rows, name);
    Named(rows, name)[0]
  }

  /** No two stored categories share a name. */
  ghost predicate UniqueNames(rows: seq<Row>)
  {
    forall r, s :: r in rows && s in rows && |r.values| > 0 && |s.values| > 0 && r.values[0] == s.values[0] ==> r.rowid == s.rowid
  }

  /** A name `add_category` accepts is carried by no stored category. */
  lemma UnlistedNameAbsent(rows: seq<Row>, name: string, r: Row)
    requires WellFormedTable(CategoryFields, rows) && |Named(rows, name)| == 0 && r in rows
    ensures r.values[0] != Text(name)
  {
    CategoryColumns();
    OneColumnMatch(CategoryFields, rows, "name", 0, Text(name), r);
  }

  /** Adding a category under a name not yet listed keeps the names
      unique. */
  lemma AddCategoryKeepsNamesUnique(rows: seq<Row>, id: int, name: string, parent: Value)
    requires WellFormedTable(CategoryFields, rows) && UniqueNames(rows)
    requires |Named(rows, name)| == 0 && id !in RowIds(rows)
    ensures UniqueNames(rows + [Row(id, [Text(name), parent])])
  {
    var rows' := rows + [Row(id, [Text(name), parent])];
    forall r, s | r in rows' && s in rows' && |r.values| > 0 && |s.values| > 0 && r.values[0] == s.values[0]
      ensures r.rowid == s.rowid
    {
      if r in rows && s !in rows {
        UnlistedNameAbsent(rows, name, r);
      } else if s in rows && r !in rows {
        UnlistedNameAbsent(rows, name, s);
      }
    }
  }

  /** A category list read from the table names `name` exactly when the
      table holds a row with that name; the first such row is stored and
      carries the name. */
  lemma CachedNameIsStored(rows: seq<Row>, name: string)
    requires WellFormedTable(CategoryFields, rows)
    ensures NameListed(HydrateAll(CategoryFields, rows), name) <==> |Named(rows, name)| > 0
    ensures |Named(rows, name)| > 0 ==> Named(rows, name)[0] in rows && Named(rows, name)[0].values[0] == Text(name)
  {
    CategoryColumns();
    MatchingSpec(CategoryFields, rows, NameIs(name));
    var cats := HydrateAll(CategoryFields, rows);
    var m := Named(rows, name);
    if NameListed(cats, name) {
      var i :| 0 <= i < |cats| && "name" in cats[i].attrs && cats[i].attrs["name"] == Text(name);
      HydrateAttrs(CategoryFields, rows[i]);
      assert cats[i].attrs[CategoryFields[0]] == rows[i].values[0];
      assert Satisfies(CategoryFields, rows[i], NameIs(name));
      assert rows[i] in rows;
      assert rows[i] in m;
    }
    if |m| > 0 {
      assert m[0] in m;
      var i :| 0 <= i < |rows| && rows[i] == m[0];
      assert Satisfies(CategoryFields, rows[i], NameIs(name));
      assert NameIs(name)[0] == ("name", Text(name));
      assert ColumnValue(CategoryFields, rows[i], "name") == Some(rows[i].values[0]);
      assert rows[i].values[0] == Text(name);
      HydrateAttrs(CategoryFields, rows[i]);
      assert cats[i] == Hydrate(CategoryFields, rows[i]);
      assert cats[i].attrs[CategoryFields[0]] == rows[i].values[0];
      assert "name" in cats[i].attrs && cats[i].attrs["name"] == Text(name);
    }
  }

  // ---------------------------------------------------------------------
  // Records the coordinator creates

  /** `Category(name, parent_pk)`, a fresh record with `pk` 0. */
  function NewCategory(name: string, parent: Value): Record
  {
    Record(ZipMap(CategoryFields, [Text(name), parent]), Some(0))
  }

  /** `Expense(amount, category_pk, comment=comment)`; `date` is the
      default expense date the class supplies. */
  function NewExpense(amount: int, category: int, date: Value, comment: string): Record
  {
    Record(ZipMap(ExpenseFields, [Int(amount), Int(category), date, Text(comment)]), Some(0))
  }

  lemma NewCategoryValues(name: string, parent: Value)
    ensures FieldValues(CategoryFields, NewCategory(name, parent)) == Success([Text(name), parent])
  {
    CategoryColumns();
    HydrateRoundTrip(CategoryFields, Row(0, [Text(name), parent]));
  }

  lemma NewExpenseValues(amount: int, category: int, date: Value, comment: string)
    ensures FieldValues(ExpenseFields, NewExpense(amount, category, date, comment))
      == Success([Int(amount), Int(category), date, Text(comment)])
  {
    ExpenseColumns();
    HydrateRoundTrip(ExpenseFields, Row(0, [Int(amount), Int(category), date, Text(comment)]));
  }

  // ---------------------------------------------------------------------
  // Deleting a category

  function ConstantValue(v: Value): Record -> Value
  {
    _ => v
  }

  /** The category table after `delete_category` removed row `c`: the row
      is gone, and the categories that had it as parent now have its
      parent. */
  function CategoryDeleted(rows: seq<Row>, c: Row): seq<Row>
    requires |c.values| == 2
  {
    var rest := WithoutRowid(rows, c.rowid);
    Rewrite(CategoryFields, rest, RowIds(Matching(CategoryFields, rest, ChildOf(c.rowid))), 1, ConstantValue(c.values[1]))
  }

  /** The expense table after `delete_category` removed category `pk`. */
  function ExpensesDropped(rows: seq<Row>, pk: int): seq<Row>
  {
    WithoutRowids(rows, RowIds(Matching(ExpenseFields, rows, InCategory(pk))))
  }

  /** Among well-formed category rows, the children of `pk` are exactly
      the rows whose parent column is `pk`. */
  lemma ChildrenSpec(rows: seq<Row>, pk: int, r: Row)
    requires WellFormedTable(CategoryFields, rows) && r in rows
    ensures r.rowid in RowIds(Matching(CategoryFields, rows, ChildOf(pk))) <==> r.values[1] == Int(pk)
  {
    CategoryColumns();
    OneColumnMatch(CategoryFields, rows, "parent", 1, Int(pk), r);
  }

  /** The expenses of category `pk` are the rows whose category column is
      `pk`. */
  lemma ExpensesOfSpec(rows: seq<Row>, pk: int, r: Row)
    requires WellFormedTable(ExpenseFields, rows) && r in rows
    ensures r.rowid in RowIds(Matching(ExpenseFields, rows, InCategory(pk))) <==> r.values[1] == Int(pk)
  {
    ExpenseColumns();
    OneColumnMatch(ExpenseFields, rows, "category", 1, Int(pk), r);
  }

  lemma RewriteAt(fields: seq<string>, rows: seq<Row>, ids: set<int>, k: nat, f: Record -> Value, i: nat)
    requires i < |rows|
    ensures Rewrite(fields, rows, ids, k, f)[i] ==
      if rows[i].rowid in ids then Row(rows[i].rowid, SetAt(rows[i].values, k, f(Hydrate(fields, rows[i])))) else rows[i]
  {
  }

  /** Row `j` of the category table after deleting `c`, in terms of the
      row it came from. */
  lemma CategoryDeletedAt(rows: seq<Row>, c: Row, j: nat)
    requires WellFormedTable(CategoryFields, rows) && c in rows
    requires j < |WithoutRowid(rows, c.rowid)|
    ensures |c.values| == 2
    ensures var r := WithoutRowid(rows, c.rowid)[j];
      && r in rows && r.rowid != c.rowid && |r.values| == 2
      && |CategoryDeleted(rows, c)| == |WithoutRowid(rows, c.rowid)|
      && CategoryDeleted(rows, c)[j] == if r.values[1] == Int(c.rowid) then Row(r.rowid, [r.values[0], c.values[1]]) else r
  {
    var rest := WithoutRowid(rows, c.rowid);
    WithoutRowidWellFormed(CategoryFields, rows, c.rowid);
    WithoutRowidSpec(rows, c.rowid);
    var r := rest[j];
    assert r in rest;
    var kids := RowIds(Matching(CategoryFields, rest, ChildOf(c.rowid)));
    ChildrenSpec(rest, c.rowid, r);
    RewriteAt(CategoryFields, rest, kids, 1, ConstantValue(c.values[1]), j);
    if r.values[1] == Int(c.rowid) {
      assert SetAt(r.values, 1, c.values[1]) == [r.values[0], c.values[1]];
    }
  }

  lemma CategoryDeletedTable(rows: seq<Row>, c: Row)
    requires WellFormedTable(CategoryFields, rows) && c in rows
    ensures |c.values| == 2
    ensures WellFormedTable(CategoryFields, CategoryDeleted(rows, c))
    ensures RowIds(CategoryDeleted(rows, c)) == RowIds(rows) - {c.rowid}
  {
    var rest := WithoutRowid(rows, c.rowid);
    WithoutRowidWellFormed(CategoryFields, rows, c.rowid);
    WithoutRowidSpec(rows, c.rowid);
    var kids := RowIds(Matching(CategoryFields, rest, ChildOf(c.rowid)));
    RewriteWellFormed(CategoryFields, rest, kids, 1, ConstantValue(c.values[1]));
  }

  /** What `delete_category` does to the category table: the deleted row
      is gone, its former children point at its parent, every other row is
      kept as it was, and nothing is left pointing at the deleted key
      unless the category was its own parent. */
  lemma CategoryDeletedSpec(rows: seq<Row>, c: Row)
    requires WellFormedTable(CategoryFields, rows) && c in rows
    ensures |c.values| == 2
    ensures WellFormedTable(CategoryFields, CategoryDeleted(rows, c))
    ensures RowIds(CategoryDeleted(rows, c)) == RowIds(rows) - {c.rowid}
    ensures forall r :: r in rows && r.rowid != c.rowid && r.values[1] == Int(c.rowid) ==>
      Row(r.rowid, [r.values[0], c.values[1]]) in CategoryDeleted(rows, c)
    ensures forall r :: r in rows && r.rowid != c.rowid && r.values[1] != Int(c.rowid) ==>
      r in CategoryDeleted(rows, c)
    ensures c.values[1] != Int(c.rowid) ==>
      forall r :: r in CategoryDeleted(rows, c) ==> r.values[1] != Int(c.rowid)
  {
    CategoryDeletedTable(rows, c);
    var rest := WithoutRowid(rows, c.rowid);
    WithoutRowidSpec(rows, c.rowid);
    var res := CategoryDeleted(rows, c);
    forall r | r in rows && r.rowid != c.rowid
      ensures r.values[1] == Int(c.rowid) ==> Row(r.rowid, [r.values[0], c.values[1]]) in res
      ensures r.values[1] != Int(c.rowid) ==> r in res
    {
      assert r in rest;
      var j :| 0 <= j < |rest| && rest[j] == r;
      CategoryDeletedAt(rows, c, j);
      assert res[j] in res;
    }
    if c.values[1] != Int(c.rowid) {
      forall r | r in res
        ensures r.values[1] != Int(c.rowid)
      {
        var j :| 0 <= j < |res| && res[j] == r;
        CategoryDeletedAt(rows, c, j);
      }
    }
  }

  /** What `delete_category` does to the expense table: no expense of the
      deleted category is left, and every other expense is kept. */
  lemma ExpensesDroppedSpec(rows: seq<Row>, pk: int)
    requires WellFormedTable(ExpenseFields, rows)
    ensures WellFormedTable(ExpenseFields, ExpensesDropped(rows, pk))
    ensures forall r :: r in ExpensesDropped(rows, pk) ==> r in rows && r.values[1] != Int(pk)
    ensures forall r :: r in rows && r.values[1] != Int(pk) ==> r in ExpensesDropped(rows, pk)
  {
    var ids := RowIds(Matching(ExpenseFields, rows, InCategory(pk)));
    WithoutRowidsSpec(rows, ids);
    WithoutRowidsWellFormed(ExpenseFields, rows, ids);
    forall r | r in rows
      ensures r.rowid in ids <==> r.values[1] == Int(pk)
    {
      ExpensesOfSpec(rows, pk, r);
    }
  }

  // ---------------------------------------------------------------------
  // The category hierarchy

  /** Every category's parent is NULL or a stored category of strictly
      lower rank: parents resolve and the parent links have no cycle. */
  ghost predicate Ranked(rows: seq<Row>, rank: map<int, nat>)
  {
    forall r :: r in rows ==>
      && r.rowid in rank
      && |r.values| == 2
      && (r.values[1] == Null ||
          (r.values[1].Int? && r.values[1].i in RowIds(rows) && r.values[1].i in rank && rank[r.values[1].i] < rank[r.rowid]))
  }

  /** The rank a new category gets under its parent. */
  ghost function RankUnder(rank: map<int, nat>, parent: Value): nat
  {
    if parent.Int? && parent.i in rank then rank[parent.i] + 1 else 0
  }

  /** `add_category` keeps the hierarchy: a new category under no parent
      or under a stored one. */
  lemma AddCategoryKeepsHierarchy(rows: seq<Row>, rank: map<int, nat>, id: int, name: string, parent: Value)
    requires Ranked(rows, rank) && id !in RowIds(rows)
    requires parent == Null || (parent.Int? && parent.i in RowIds(rows))
    ensures Ranked(rows + [Row(id, [Text(name), parent])], rank[id := RankUnder(rank, parent)])
  {
    var rows' := rows + [Row(id, [Text(name), parent])];
    var rank' := rank[id := RankUnder(rank, parent)];
    if parent.Int? {
      var p :| p in rows && p.rowid == parent.i;
    }
    forall r | r in rows'
      ensures r.rowid in rank' && |r.values| == 2
      ensures r.values[1] == Null ||
          (r.values[1].Int? && r.values[1].i in RowIds(rows') && r.values[1].i in rank' && rank'[r.values[1].i] < rank'[r.rowid])
    {
      if r in rows {
        assert r.rowid != id;
        if r.values[1].Int? {
          var q :| q in rows && q.rowid == r.values[1].i;
          assert q in rows';
        }
      } else {
        assert r == Row(id, [Text(name), parent]);
        if parent.Int? {
          var q :| q in rows && q.rowid == parent.i;
          assert q in rows';
        }
      }
    }
  }

  /** `delete_category` keeps the hierarchy: re-parenting the children to
      the deleted category's parent leaves no dangling parent and no
      cycle. */
  lemma DeleteCategoryKeepsHierarchy(rows: seq<Row>, rank: map<int, nat>, c: Row)
    requires WellFormedTable(CategoryFields, rows) && Ranked(rows, rank) && c in rows
    ensures Ranked(CategoryDeleted(rows, c), rank)
  {
    CategoryDeletedTable(rows, c);
    var res := CategoryDeleted(rows, c);
    forall r' | r' in res
      ensures r'.rowid in rank && |r'.values| == 2
      ensures r'.values[1] == Null ||
          (r'.values[1].Int? && r'.values[1].i in RowIds(res) && r'.values[1].i in rank && rank[r'.values[1].i] < rank[r'.rowid])
    {
      var j :| 0 <= j < |res| && res[j] == r';
      CategoryDeletedAt(rows, c, j);
      var r := WithoutRowid(rows, c.rowid)[j];
      if r.values[1] == Int(c.rowid) {
        if c.values[1].Int? {
          var q :| q in rows && q.rowid == c.values[1].i;
          assert q.rowid in RowIds(rows) - {c.rowid};
        }
      } else if r.values[1].Int? {
        var q :| q in rows && q.rowid == r.values[1].i;
        assert q.rowid in RowIds(rows) - {c.rowid};
      }
    }
  }

  /** Deleting a category renames nothing, so names stay unique. */
  lemma DeleteCategoryKeepsNamesUnique(rows: seq<Row>, c: Row)
    requires WellFormedTable(CategoryFields, rows) && UniqueNames(rows) && c in rows
    ensures UniqueNames(CategoryDeleted(rows, c))
  {
    CategoryDeletedTable(rows, c);
    var res := CategoryDeleted(rows, c);
    var rest := WithoutRowid(rows, c.rowid);
    forall r, s | r in res && s in res && |r.values| > 0 && |s.values| > 0 && r.values[0] == s.values[0]
      ensures r.rowid == s.rowid
    {
      var j :| 0 <= j < |res| && res[j] == r;
      var l :| 0 <= l < |res| && res[l] == s;
      CategoryDeletedAt(rows, c, j);
      CategoryDeletedAt(rows, c, l);
      assert rest[j].rowid == r.rowid && rest[j].values[0] == r.values[0];
      assert rest[l].rowid == s.rowid && rest[l].values[0] == s.values[0];
    }
  }

  // ---------------------------------------------------------------------
  // Editing one stored record

  /** The table after the row with key `pk` has column `k` set to `v`. */
  function Edited(fields: seq<string>, rows: seq<Row>, pk: int, k: nat, v: Value): seq<Row>
  {
    Rewrite(fields, rows, {pk}, k, ConstantValue(v))
  }

  /** Only the row with key `pk` changes, and only in column `k`. */
  lemma EditedSpec(fields: seq<string>, rows: seq<Row>, pk: int, k: nat, v: Value)
    requires WellFormedTable(fields, rows) && k < |fields|
    ensures WellFormedTable(fields, Edited(fields, rows, pk, k, v))
    ensures |Edited(fields, rows, pk, k, v)| == |rows|
    ensures forall i :: 0 <= i < |rows| ==>
      && Edited(fields, rows, pk, k, v)[i].rowid == rows[i].rowid
      && Edited(fields, rows, pk, k, v)[i].values == if rows[i].rowid == pk then rows[i].values[k := v] else rows[i].values
  {
    RewriteWellFormed(fields, rows, {pk}, k, ConstantValue(v));
    forall i | 0 <= i < |rows|
      ensures Edited(fields, rows, pk, k, v)[i].values == if rows[i].rowid == pk then rows[i].values[k := v] else rows[i].values
    {
      assert rows[i] in rows;
      RewriteAt(fields, rows, {pk}, k, ConstantValue(v), i);
    }
  }

  /** Reading the record with key `pk`, setting attribute `fields[k]` and
      writing it back with `update` gives the edited table. */
  lemma UpdateOneColumn(fields: seq<string>, rows: seq<Row>, pk: int, k: nat, v: Value)
    requires WellFormedTable(fields, rows) && Distinct(fields) && k < |fields| && pk in RowIds(rows)
    ensures |WithRowid(rows, pk)| == 1
    ensures var h := Hydrate(fields, WithRowid(rows, pk)[0]);
      UpdateSpec(fields, rows, Record(h.attrs[fields[k] := v], h.pk)) == Success(Edited(fields, rows, pk, k, v))
  {
    var r :| r in rows && r.rowid == pk;
    var i :| 0 <= i < |rows| && rows[i] == r;
    WithRowidUnique(rows, i);
    SetFieldRoundTrip(fields, rows[i], k, v, Some(pk));
    RewriteStep(fields, rows, {}, k, ConstantValue(v), i);
    assert Rewrite(fields, rows, {}, k, ConstantValue(v)) == rows;
    assert {} + {pk} == {pk};
  }

  /** Writing back the record with key `pk` unchanged changes nothing. */
  lemma UpdateUnchanged(fields: seq<string>, rows: seq<Row>, pk: int)
    requires WellFormedTable(fields, rows) && Distinct(fields) && pk in RowIds(rows)
    ensures |WithRowid(rows, pk)| == 1
    ensures UpdateSpec(fields, rows, Hydrate(fields, WithRowid(rows, pk)[0])) == Success(rows)
  {
    var r :| r in rows && r.rowid == pk;
    var i :| 0 <= i < |rows| && rows[i] == r;
    WithRowidUnique(rows, i);
    HydrateRoundTrip(fields, rows[i]);
    ReplaceSame(rows, i);
  }

  // ---------------------------------------------------------------------
  // Editing an expense

  /** The edit `modify_expense` makes for `attr`: the column it rewrites
      and the new value, `None` for an attribute it does not handle, or
      the error it raises. */
  function ExpenseEdit(categoryRows: seq<Row>, attr: string, newVal: string, isoMinutes: string -> Option<string>): Result<Option<(nat, Value)>, BkError>
    requires WellFormedTable(CategoryFields, categoryRows)
  {
    if attr == "category" then
      if |Named(categoryRows, Lower(newVal))| == 0 then Failure(UnknownCategory(Lower(newVal)))
      else Success(Some((1, Int(NamedRow(categoryRows, Lower(newVal)).rowid))))
    else if attr == "amount" then
      match ParseInt(newVal)
      case None => Failure(NotAnInteger)
      case Some(n) => if n <= 0 then Failure(NotPositive) else Success(Some((0, Int(n))))
    else if attr == "expense_date" then
      match isoMinutes(newVal)
      case None => Failure(BadDate)
      case Some(t) => Success(Some((2, Text(t))))
    else Success(None)
  }

  /** An accepted edit rewrites the column named `attr`: the category
      column gets the key of a stored category with the lower-cased name,
      the amount a positive integer read from the text, the date the
      normalised date text. */
  lemma ExpenseEditSpec(categoryRows: seq<Row>, attr: string, newVal: string, isoMinutes: string -> Option<string>)
    requires WellFormedTable(CategoryFields, categoryRows)
    ensures var e := ExpenseEdit(categoryRows, attr, newVal, isoMinutes);
      e.Success? && e.value.Some? ==>
        && e.value.value.0 < |ExpenseFields| && ExpenseFields[e.value.value.0] == attr
        && ColumnIndex(ExpenseFields, attr) == Some(e.value.value.0)
    ensures var e := ExpenseEdit(categoryRows, attr, newVal, isoMinutes);
      e.Success? && e.value.None? <==> attr != "category" && attr != "amount" && attr != "expense_date"
    ensures var e := ExpenseEdit(categoryRows, attr, newVal, isoMinutes);
      attr == "category" && e.Success? ==>
        exists r :: r in categoryRows && r.values[0] == Text(Lower(newVal)) && e.value == Some((1, Int(r.rowid)))
    ensures var e := ExpenseEdit(categoryRows, attr, newVal, isoMinutes);
      attr == "amount" ==> (e.Success? <==> ParseInt(newVal).Some? && ParseInt(newVal).value > 0)
    ensures var e := ExpenseEdit(categoryRows, attr, newVal, isoMinutes);
      attr == "amount" && e.Success? ==> e.value == Some((0, Int(ParseInt(newVal).value)))
    ensures var e := ExpenseEdit(categoryRows, attr, newVal, isoMinutes);
      attr == "category" ==>
        (e.Success? <==> exists r :: r in categoryRows && r.values[0] == Text(Lower(newVal)))
    ensures var e := ExpenseEdit(categoryRows, attr, newVal, isoMinutes);
      attr == "category" && e.Failure? ==> e.error == UnknownCategory(Lower(newVal))
    ensures attr == "amount" && ParseInt(newVal).None? ==>
      ExpenseEdit(categoryRows, attr, newVal, isoMinutes) == Failure(NotAnInteger)
    ensures attr == "amount" && ParseInt(newVal).Some? && ParseInt(newVal).value <= 0 ==>
      ExpenseEdit(categoryRows, attr, newVal, isoMinutes) == Failure(NotPositive)
    ensures var e := ExpenseEdit(categoryRows, attr, newVal, isoMinutes);
      attr == "expense_date" ==> (e.Success? <==> isoMinutes(newVal).Some?)
    ensures attr == "expense_date" && isoMinutes(newVal).None? ==>
      ExpenseEdit(categoryRows, attr, newVal, isoMinutes) == Failure(BadDate)
    ensures attr == "expense_date" && isoMinutes(newVal).Some? ==>
      ExpenseEdit(categoryRows, attr, newVal, isoMinutes) == Success(Some((2, Text(isoMinutes(newVal).value))))
  {
    ExpenseColumns();
    assert ExpenseFields[0] == "amount" && ExpenseFields[1] == "category" && ExpenseFields[2] == "expense_date";
    var e := ExpenseEdit(categoryRows, attr, newVal, isoMinutes);
    if attr == "category" {
      CategoryNameStored(categoryRows, Lower(newVal));
      if e.Success? {
        var r := NamedRow(categoryRows, Lower(newVal));
        assert r in categoryRows && r.values[0] == Text(Lower(newVal));
      }
    }
  }

  /** `get_all(where={'name': name})` finds something exactly when some
      stored category has that name. */
  lemma CategoryNameStored(rows: seq<Row>, name: string)
    requires WellFormedTable(CategoryFields, rows)
    ensures |Named(rows, name)| > 0 <==> exists r :: r in rows && r.values[0] == Text(name)
  {
    CategoryColumns();
    CachedNameIsStored(rows, name);
    if r :| r in rows && r.values[0] == Text(name) {
      OneColumnMatch(CategoryFields, rows, "name", 0, Text(name), r);
    }
  }

  // ---------------------------------------------------------------------
  // Budgets

  /** `budget.update_spent(expense_repo)`: the new `spent` value, computed
      by code that is not part of this model from the budget and the
      stored expenses. */
  function SpentUpdate(spentOf: (Record, seq<Record>) -> int, expenses: seq<Record>): Record -> Value
  {
    b => Int(spentOf(b, expenses))
  }

  /** The budget table after `update_budgets`: every budget's `spent`
      recomputed, nothing else changed. */
  function Refreshed(spentOf: (Record, seq<Record>) -> int, rows: seq<Row>, expenses: seq<Record>): seq<Row>
  {
    Rewrite(BudgetFields, rows, RowIds(rows), 2, SpentUpdate(spentOf, expenses))
  }

  lemma RefreshedSpec(spentOf: (Record, seq<Record>) -> int, rows: seq<Row>, expenses: seq<Record>)
    requires WellFormedTable(BudgetFields, rows)
    ensures WellFormedTable(BudgetFields, Refreshed(spentOf, rows, expenses))
    ensures |Refreshed(spentOf, rows, expenses)| == |rows|
    ensures forall i :: 0 <= i < |rows| ==>
      && Refreshed(spentOf, rows, expenses)[i].rowid == rows[i].rowid
      && Refreshed(spentOf, rows, expenses)[i].values == [rows[i].values[0], rows[i].values[1], Int(spentOf(Hydrate(BudgetFields, rows[i]), expenses))]
  {
    RewriteWellFormed(BudgetFields, rows, RowIds(rows), 2, SpentUpdate(spentOf, expenses));
    forall i | 0 <= i < |rows|
      ensures Refreshed(spentOf, rows, expenses)[i].values == [rows[i].values[0], rows[i].values[1], Int(spentOf(Hydrate(BudgetFields, rows[i]), expenses))]
    {
      assert rows[i] in rows;
      assert rows[i].rowid in RowIds(rows);
      RewriteAt(BudgetFields, rows, RowIds(rows), 2, SpentUpdate(spentOf, expenses), i);
      assert |rows[i].values| == 3;
    }
  }

  /** The over-budget test of `add_expense`: `budget.spent > budget.limitation`. */
  predicate OverBudget(b: Record)
  {
    "spent" in b.attrs && "limitation" in b.attrs && b.attrs["spent"].Int? && b.attrs["limitation"].Int?
    && b.attrs["spent"].i > b.attrs["limitation"].i
  }
}
