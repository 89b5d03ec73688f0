# bookkeeper — a Dafny model of the repository and the coordinator

`bookkeeper` is a small personal-finance application. It records expenses in
categories and keeps budgets, with an MVP split:

- a generic record repository (`SQLiteRepository`) stores each model class
  in one SQLite table;
- the `Bookkeeper` coordinator enforces the domain rules over three such
  repositories (categories, expenses, budgets);
- a Qt view shows the results, including a category editor that draws the
  category hierarchy as a tree.

This project models that core in Dafny and proves what the code promises
about it.

| file | module | models |
|---|---|---|
| `wrappers.dfy` | `Wrappers` | `None` and raised errors, as `Option`, `Result` and `Outcome` |
| `pystr.dfy` | `PyStr` | `str.join`, `str.lower`, `int(str)`, `str(int)` |
| `sql_queries.dfy` | `SqlQueries` | the statements `SQLiteRepository.__init__` pregenerates, and the `WHERE` clause of `get_all` |
| `records.dfy` | `Records` | rows, records, and the table semantics of `get`, `get_all`, `add`, `update` and `delete` |
| `sqlite_repository.dfy` | `SqliteRepository` | the `SQLiteRepository` class; each method is proved against the table semantics |
| `abstract_repository.dfy` | `RepositoryContract` | the interface's documented promises, and `repository_factory` |
| `budget.dfy` | `Budgets` | `Period`, the `Budget` dataclass with Python's argument binding, and the budget shape the coordinator uses |
| `bookkeeper_rules.dfy` | `BookkeeperRules` | the coordinator's rules stated on the three tables |
| `bookkeeper.dfy` | `Bookkeeping` | the `Bookkeeper` class; every method is proved against those rules |
| `category_edit_window.dfy` | `CategoryTree` | `find_children`, the name lists of `update_categories`, and the editor window's state |
| `view.dfy` | `MainView` | `category_pk_to_name`, and `set_categories` forwarding to the editor |

A table is a sequence of rows in storage order. Each row is a ROWID plus one
value per stored field, and a value is `NULL`, an integer or a text. A
Python model object is a `Record`: its attributes by name, plus its `pk`.

The repository is a class whose `rows` field `add`, `update` and `delete`
reassign. Its invariant `Valid()` keeps the ROWIDs positive and distinct, and
gives every row one value per field. Every method's `ensures` ties the
result and the new table to a function of the old table (`GetSpec`,
`GetAllSpec`, `AddSpec`, `UpdateSpec`, `DeleteSpec`). The lemmas of
`Records` prove what those functions promise: a get after an add, an update
or a delete; that no two rows share a ROWID; that a failed call changes
nothing.

The coordinator is a class holding the three repositories and its cached
lists. Its methods' contracts state every error case and the exact new
contents of every table. They also state the view callbacks made, as a
trace of `ViewEvent`s. The lemmas of `BookkeeperRules` prove what those
contents mean:

- every child of a deleted category moves to the deleted category's parent;
- no expense points at a deleted category;
- category names stay unique;
- the parent links stay acyclic;
- an expense edit changes one column of one row.

## Model

| member | source | states |
|---|---|---|
| PyStr.CountJoin | bookkeeper/repository/sqlite_repository.py:43-45 | `", ".join` adds no `?` beyond those in the joined parts |
| PyStr.LowerIdempotent | bookkeeper/repository/sqlite_repository.py:36 | lower-casing keeps the length and lower-casing again changes nothing |
| PyStr.ParseIntOfDecimal | bookkeeper/bookkeeper.py:175-178 | `int(str(i)) == i` for every integer: every printed amount is accepted back |
| PyStr.ParseIntNeedsDigit | bookkeeper/bookkeeper.py:175-178 | `int()` rejects every string that holds no decimal digit |
| SqlQueries.InsertPlaceholders | bookkeeper/repository/sqlite_repository.py:43-50 | the insert statement holds exactly one `?` per stored field |
| SqlQueries.UpdatePlaceholders | bookkeeper/repository/sqlite_repository.py:45-53 | the update statement holds one `f=?` per field plus the `ROWID = ?`: field count + 1 marks, matching the values-plus-pk list of line 151 |
| SqlQueries.KeyedPlaceholders | bookkeeper/repository/sqlite_repository.py:49-54 | `get` and `delete` bind exactly one value (the pk), `create` and the plain `get_all` none |
| SqlQueries.WherePlaceholders | bookkeeper/repository/sqlite_repository.py:128-132 | a conditioned `get_all` holds one `?` per condition, matching the values bound in the same order |
| SqlQueries.TableNameCanonical | bookkeeper/repository/sqlite_repository.py:36 | the table name is the lower-cased class name, of the same length and already lower-case |
| SqlQueries.LowerIdentifier | bookkeeper/repository/sqlite_repository.py:36 | lower-casing an identifier class name gives an identifier table name |
| Records.FieldValuesSpec | bookkeeper/repository/sqlite_repository.py:89 | the values bound are the object's attributes in declared field order; the call raises exactly when an attribute is missing |
| Records.HydrateAttrs | bookkeeper/repository/sqlite_repository.py:63-81 | the rebuilt object has exactly the stored fields, each holding its column's value, and `pk` is the ROWID |
| Records.HydrateRoundTrip | bookkeeper/repository/sqlite_repository.py:70-79 | reading the field values of a rebuilt object gives back the stored row |
| Records.WithRowidSpec | bookkeeper/repository/sqlite_repository.py:104-108 | `WHERE ROWID = pk` selects exactly the rows with that ROWID and is empty iff the pk is absent |
| Records.GetNeverSeveral | bookkeeper/repository/sqlite_repository.py:112-119 | on a table with unique ROWIDs `get` never raises, and finds a record iff the pk is stored |
| Records.GetAbsent | bookkeeper/repository/sqlite_repository.py:113-114 | a pk that is not stored gives `None`, not an error |
| Records.AddThenGet | bookkeeper/repository/sqlite_repository.py:83-119 | after a successful add, `get` of the returned id finds a record with that pk and the added object's field values |
| Records.AppendWellFormed | bookkeeper/repository/sqlite_repository.py:91-97 | appending a row with a fresh positive ROWID keeps the table well formed and adds exactly that ROWID |
| Records.FreshRowidExists | bookkeeper/repository/sqlite_repository.py:99-100 | a positive ROWID not yet in the table always exists |
| Records.UpdateThenGet | bookkeeper/repository/sqlite_repository.py:147-164 | after a successful update, `get` of its pk returns the new field values and every other pk reads as before |
| Records.ReplaceWellFormed | bookkeeper/repository/sqlite_repository.py:151-161 | rewriting one row's values keeps the table well formed and its ROWIDs unchanged |
| Records.DeleteThenGet | bookkeeper/repository/sqlite_repository.py:167-174 | after a delete, `get` of that pk gives `None` and a second delete of it raises |
| Records.WithoutRowidSpec | bookkeeper/repository/sqlite_repository.py:167-174 | delete removes exactly the row with that ROWID and keeps the others |
| Records.GetAllExact | bookkeeper/repository/sqlite_repository.py:121-137 | `get_all(where)` returns exactly the records of the rows on which every named field equals its value |
| Records.MatchingSpec | bookkeeper/repository/sqlite_repository.py:128-132 | the `WHERE ... AND ...` selection holds exactly the rows satisfying every condition, and no more rows than the table |
| Records.MatchingConcat | bookkeeper/repository/sqlite_repository.py:128-132 | the selection keeps storage order: selecting from `a + b` gives the selection from `a` followed by the selection from `b` |
| Records.OneColumnMatch | bookkeeper/repository/sqlite_repository.py:129-132 | a one-condition selection keeps a row iff its column equals the value; a `NULL` value matches nothing |
| Records.ContainingSpecRows | bookkeeper/repository/abstract_repository.py:55-64 | the documented pattern lookup keeps exactly the rows whose fields contain each pattern string |
| Records.SetFieldRoundTrip | bookkeeper/bookkeeper.py:323-324 | setting one attribute of a fetched record changes only that column of the values written back |
| Records.WithoutRowidsSpec | bookkeeper/bookkeeper.py:208-209 | deleting a set of pks removes exactly the rows with those ROWIDs |
| Records.RewriteWellFormed | bookkeeper/bookkeeper.py:279-281 | rewriting one column of selected rows keeps the table well formed and its ROWIDs unchanged |
| SqliteRepository.WithoutSpec | bookkeeper/repository/sqlite_repository.py:38-39 | popping `pk` from the annotations keeps exactly the other fields, each once, and keeps them identifiers |
| SqliteRepository.WithoutConcat | bookkeeper/repository/sqlite_repository.py:38-39 | popping `pk` keeps the annotation order: removing it from `a + b` gives `a` without it followed by `b` without it |
| SqliteRepository.Configure | bookkeeper/repository/sqlite_repository.py:36-55 | `__init__` fails iff the class has no `pk` annotation; otherwise the table name is the lower-cased class name, the fields are the other annotations in annotation order (`Without(annotations, "pk")`), and the statements are the pregenerated ones |
| SqliteRepository.Repository.constructor | bookkeeper/repository/sqlite_repository.py:27-61 | the repository starts valid, on the table the file already holds, with the fields in annotation order without `pk` (the order the `zip` of line 70 pairs with the columns) |
| SqliteRepository.Repository.GenerateObject | bookkeeper/repository/sqlite_repository.py:63-81 | the loop fills the keyword dictionary field by field; the object built is the row's record with `pk` set to the ROWID |
| SqliteRepository.Repository.Get | bookkeeper/repository/sqlite_repository.py:104-119 | equals the get semantics: `None` for an absent pk, never the several-rows error on a valid table, else the stored record with `pk` equal to the key |
| SqliteRepository.Repository.GetAll | bookkeeper/repository/sqlite_repository.py:121-137 | equals the get-all semantics: every row without a condition; the matching rows in storage order with one; an error for an empty dictionary or an unknown column |
| SqliteRepository.Repository.GetAllByPattern | bookkeeper/repository/sqlite_repository.py:139-145 | equals `get_all` with each value replaced by `"%" + v + "%"`, the keys unchanged |
| SqliteRepository.Repository.GetAllContaining | bookkeeper/repository/abstract_repository.py:55-64 | the documented lookup: the records whose fields contain each pattern string |
| SqliteRepository.Repository.Add | bookkeeper/repository/sqlite_repository.py:83-102 | fails iff `pk` is not 0 (a missing `pk` included) or a field is missing, leaving the table and the object unchanged; else appends the field values in field order under a fresh positive ROWID, writes it into `pk` and returns it |
| SqliteRepository.Repository.Update | bookkeeper/repository/sqlite_repository.py:147-165 | fails with no change when `pk` is missing or not stored; else replaces every field of that row and leaves all other rows unchanged |
| SqliteRepository.Repository.Delete | bookkeeper/repository/sqlite_repository.py:167-175 | removes exactly the row with that ROWID, or fails with no change when there is none |
| RepositoryContract.PatternIsExactMatch | bookkeeper/repository/sqlite_repository.py:139-145 | as written, pattern lookup returns exactly the rows whose fields literally equal `%v%` |
| RepositoryContract.PatternMissesPlainText | bookkeeper/repository/sqlite_repository.py:139-145 | as written, on a table with no `%` in its texts every pattern lookup returns nothing |
| RepositoryContract.PatternCounterexample | bookkeeper/repository/abstract_repository.py:55-64 | on one row named "food", pattern "oo" finds nothing as written but finds the row under the documented meaning |
| RepositoryContract.ContainingExact | bookkeeper/repository/abstract_repository.py:55-64 | the documented lookup returns exactly the records of the rows whose fields contain each pattern |
| RepositoryContract.ShorterPatternFindsMore | bookkeeper/repository/abstract_repository.py:59-63 | under the documented meaning, a row matching a pattern also matches any substring of it |
| RepositoryContract.FactoryCalls | bookkeeper/repository/abstract_repository.py:75-91 | the generator passes `cls=model` always and `db_file` only when one was given; without a file the SQLite constructor is missing its argument, with one it yields a table named after the lower-cased class |
| Budgets.PeriodValues | bookkeeper/models/budget.py:9-15 | `Period` has exactly the three values DAY=0, WEEK=1, MONTH=2, and value lookup inverts `.value` |
| Budgets.PositionalConstruction | bookkeeper/models/budget.py:26-29 | positional construction binds `amount, category_id, period, pk` in that order |
| Budgets.KeywordEqualsPositional | tests/test_models/test_budget.py:12-24 | keyword construction gives the same budget as positional construction |
| Budgets.PkDefaultsToZero | bookkeeper/models/budget.py:29 | a budget built without `pk` has `pk` 0, which the repository's add accepts |
| Budgets.PositionalArity | bookkeeper/models/budget.py:26-29 | positional construction succeeds iff given three or four arguments |
| Budgets.CoordinatorCallRejected | bookkeeper/bookkeeper.py:315 | `Budget(limitation=..., period=...)` is rejected: the dataclass has no `limitation` parameter |
| Budgets.PlannedBudget | bookkeeper/bookkeeper.py:315 | the budget the coordinator means to create has `pk` 0 and stores its limit, period and 0 spent |
| BookkeeperRules.NamedRow | bookkeeper/bookkeeper.py:105 | `get_all(where={'name': n})[0]` is a stored category row with that name |
| BookkeeperRules.CachedNameIsStored | bookkeeper/bookkeeper.py:98-105 | a name is in the cached category list iff a stored category has it |
| BookkeeperRules.AddCategoryKeepsNamesUnique | bookkeeper/bookkeeper.py:97-117 | adding a category whose name is not stored keeps names unique |
| BookkeeperRules.NewCategoryValues | bookkeeper/bookkeeper.py:110 | `Category(name, parent_pk)` stores the name then the parent |
| BookkeeperRules.NewExpenseValues | bookkeeper/bookkeeper.py:192 | `Expense(amount, cat.pk, comment=...)` stores amount, category, date, comment in that order |
| BookkeeperRules.ChildrenSpec | bookkeeper/bookkeeper.py:137 | `get_all(where={'parent': pk})` selects a category iff its parent is that pk |
| BookkeeperRules.ExpensesOfSpec | bookkeeper/bookkeeper.py:148 | `get_all(where={'category': pk})` selects an expense iff its category is that pk |
| BookkeeperRules.CategoryDeletedSpec | bookkeeper/bookkeeper.py:133-139 | after deletion the category's ROWID is gone; each former child holds the deleted category's parent; every other category is kept; unless the deleted category was its own parent, no category points at it |
| BookkeeperRules.ExpensesDroppedSpec | bookkeeper/bookkeeper.py:148-149 | after dropping, no expense has the deleted category, and every other expense is kept |
| BookkeeperRules.AddCategoryKeepsHierarchy | bookkeeper/bookkeeper.py:101-117 | a new category under no parent or under a stored one keeps the parent links acyclic |
| BookkeeperRules.DeleteCategoryKeepsHierarchy | bookkeeper/bookkeeper.py:133-139 | re-parenting the children to the grandparent keeps the parent links acyclic |
| BookkeeperRules.DeleteCategoryKeepsNamesUnique | bookkeeper/bookkeeper.py:133-139 | deleting a category and re-parenting its children keeps names unique |
| BookkeeperRules.EditedSpec | bookkeeper/bookkeeper.py:262-263 | a one-attribute edit changes only that column of the row with that pk |
| BookkeeperRules.UpdateOneColumn | bookkeeper/bookkeeper.py:218-263 | fetching a stored record, setting one attribute and updating it changes exactly that column of that row |
| BookkeeperRules.UpdateUnchanged | bookkeeper/bookkeeper.py:262-263 | writing back an unmodified fetched record leaves the table as it was |
| BookkeeperRules.ExpenseEditSpec | bookkeeper/bookkeeper.py:222-260 | `category` succeeds iff a stored category has the lowered name, storing its pk in column 1, else `UnknownCategory(lowered name)`; `amount` fails with `NotAnInteger` when `int()` rejects, `NotPositive` for a value <= 0, else stores the number in column 0; `expense_date` fails with `BadDate` iff the date does not parse, else stores the reformatted date in column 2; any other attribute changes nothing |
| BookkeeperRules.CategoryNameStored | bookkeeper/bookkeeper.py:229-230 | `get_all(where={'name': n})` is non-empty iff some stored category has the name `n` |
| BookkeeperRules.RefreshedSpec | bookkeeper/bookkeeper.py:279-281 | refreshing budgets keeps every row and its limit and period, and sets its `spent` from `update_spent` |
| Bookkeeping.RewriteWhere | bookkeeper/bookkeeper.py:279-281 | the fetch-modify-update loop rewrites exactly the selected rows' column and nothing else |
| Bookkeeping.DeleteWhere | bookkeeper/bookkeeper.py:148-149 | the fetch-and-delete loop removes exactly the matching rows |
| Bookkeeping.AddedRecord | bookkeeper/bookkeeper.py:116-117 | adding a new record appends its row, and reading the table back extends the cached list by that record with its pk |
| Bookkeeping.DeleteKeys | bookkeeper/bookkeeper.py:208-209 | deletes succeed iff every pk is stored; the rows removed are those deleted before the first missing pk, which is the one reported |
| Bookkeeping.Bookkeeper.constructor | bookkeeper/bookkeeper.py:29-72 | caches the categories, then refreshes expenses and budgets, and shows all three |
| Bookkeeping.Bookkeeper.CatChecker | bookkeeper/bookkeeper.py:84-89 | passes iff the name is in the cached category list; else it raises the unknown-category error |
| Bookkeeping.Bookkeeper.AddCategory | bookkeeper/bookkeeper.py:91-118 | rejects a listed name, then an unlisted parent, with no repository change; else appends one row whose parent is the pk of the stored category named `parent`, or `NULL` |
| Bookkeeping.Bookkeeper.StoreCategory | bookkeeper/bookkeeper.py:110-118 | stores the new category under a fresh ROWID, re-syncs the cache and shows it |
| Bookkeeping.Bookkeeper.CategoryKey | bookkeeper/bookkeeper.py:105 | the key found is the ROWID of the first stored category with that name |
| Bookkeeping.Bookkeeper.DeleteCategory | bookkeeper/bookkeeper.py:120-152 | raises with nothing changed iff no stored category has the name; else the category table is the category-deleted table, its expenses are dropped, and expenses and budgets are refreshed |
| Bookkeeping.Bookkeeper.RemoveCategory | bookkeeper/bookkeeper.py:133-145 | deletes the row, re-parents its children, then re-reads and shows the categories |
| Bookkeeping.Bookkeeper.DeleteAndReparent | bookkeeper/bookkeeper.py:133-139 | removes the category row, and every row whose parent was it now holds the removed category's parent: the table is the category-deleted table |
| Bookkeeping.Bookkeeper.DropCategory | bookkeeper/bookkeeper.py:133-152 | for a found category: the category table becomes the category-deleted table, its expenses are dropped, and categories, expenses and budgets are shown in that order |
| Bookkeeping.Bookkeeper.DropExpenses | bookkeeper/bookkeeper.py:148-152 | exactly the expenses of that category are deleted, then expenses and budgets are refreshed; the category list is untouched |
| Bookkeeping.Bookkeeper.AddExpense | bookkeeper/bookkeeper.py:169-201 | raises with no change for a non-integer amount, an amount <= 0 or an unknown lowercased category, in that order; else adds exactly one expense linked to that category's pk, then refreshes |
| Bookkeeping.Bookkeeper.AddValidAmount | bookkeeper/bookkeeper.py:185-201 | for a positive amount: raises with no change iff no stored category has the lower-cased name; else adds one expense row linked to that category's pk under a fresh ROWID, refreshes, and signals over-budget when some budget is over |
| Bookkeeping.Bookkeeper.RecordExpense | bookkeeper/bookkeeper.py:192-201 | stores the expense, refreshes expenses and budgets, and signals over-budget at most once |
| Bookkeeping.Bookkeeper.StoreExpense | bookkeeper/bookkeeper.py:192-194 | appends exactly one expense row under a fresh ROWID |
| Bookkeeping.Bookkeeper.WarnOverBudget | bookkeeper/bookkeeper.py:197-201 | the over-budget signal is sent once iff some budget has spent more than its limitation, else not at all |
| Bookkeeping.Bookkeeper.DeleteExpenses | bookkeeper/bookkeeper.py:203-210 | succeeds iff every pk is stored, removing exactly those rows and refreshing; else it reports a missing pk after a partial delete, without refreshing |
| Bookkeeping.Bookkeeper.ModifyExpense | bookkeeper/bookkeeper.py:212-266 | raises for an unknown pk or a rejected new value, with no change; else edits exactly the named column of that expense (no change for other attributes) and refreshes |
| Bookkeeping.Bookkeeper.EditFetched | bookkeeper/bookkeeper.py:222-266 | for a fetched expense: fails with no change iff the edit for `attr` is rejected; else the expense table gets exactly that column edit (none for other attributes) and is refreshed |
| Bookkeeping.Bookkeeper.ApplyEdit | bookkeeper/bookkeeper.py:222-260 | changes nothing; succeeds iff the edit for `attr` is accepted, and then the record has `attr` set to the new value, or is unchanged for an attribute with no rule |
| Bookkeeping.Bookkeeper.WriteExpense | bookkeeper/bookkeeper.py:263 | writing back the fetched expense edits exactly one column of that row, or leaves the table unchanged when nothing was edited |
| Bookkeeping.Bookkeeper.ModifyBudget | bookkeeper/bookkeeper.py:287-327 | an empty limit deletes the budget (if a pk is given); a non-integer or negative limit refreshes and raises with no add, update or delete; no pk adds the corrected budget of the Findings row for line 315 (where the code as written raises `TypeError`); a pk updates only `limitation`, raising when it is missing |
| Bookkeeping.Bookkeeper.StoreBudget | bookkeeper/bookkeeper.py:313-316 | the corrected line 315 (see Findings): appends one budget row holding the limit, the period and 0 spent, where the code as written raises `TypeError` |
| Bookkeeping.Bookkeeper.SetLimit | bookkeeper/bookkeeper.py:318-324 | finds the budget iff it is stored, and then changes only its `limitation` |
| Bookkeeping.Bookkeeper.UpdateExpenses | bookkeeper/bookkeeper.py:158-167 | re-reads the expenses, shows them, and refreshes the budgets |
| Bookkeeping.Bookkeeper.UpdateBudgets | bookkeeper/bookkeeper.py:272-285 | sets every budget's `spent` via `update_spent`, re-reads the budgets and shows them |
| CategoryTree.CatNames | bookkeeper/view/category_edit_window.py:95 | the category names in list order |
| CategoryTree.ChildrenMembers | bookkeeper/view/category_edit_window.py:151 | the comprehension keeps exactly the categories with that parent |
| CategoryTree.ChildrenConcat | bookkeeper/view/category_edit_window.py:151 | the comprehension keeps list order |
| CategoryTree.ItemsAt | bookkeeper/view/category_edit_window.py:152-159 | the loop makes one item per child, in order, named after it and holding that child's own subtree |
| CategoryTree.FindChildrenIsHierarchy | bookkeeper/view/category_edit_window.py:145-161 | the tree is the hierarchy: the top level is the parentless categories in list order, and below each item are the categories whose parent is its pk, in list order, recursively |
| CategoryTree.HierarchyUnique | bookkeeper/view/category_edit_window.py:145-161 | the hierarchy below a parent is unique |
| CategoryTree.HeightIrrelevant | bookkeeper/view/category_edit_window.py:155-157 | the tree does not depend on the termination bound it was built with |
| CategoryTree.UniquePksTerminate | bookkeeper/view/category_edit_window.py:155-157 | when no two categories share a pk, the walk from the top ends within one level per category, whatever the parent links |
| CategoryTree.CycleUnbounded | bookkeeper/view/category_edit_window.py:155-157 | once the walk reaches a pk on a cycle of parent links it never ends |
| CategoryTree.SharedPkHangs | bookkeeper/view/category_edit_window.py:155-157 | a cycle is reached from the top through a shared pk: with a top-level category and its own pk-sharing child, no depth bounds the walk of `find_children()`, which CPython ends by raising `RecursionError` |
| CategoryTree.SampleHierarchy | tests/test_view/test_category_edit_window.py:29-45 | the test data gives cat1 and cat2 on top, cat11 and cat12 under cat1, cat121 under cat12 |
| CategoryTree.CategoryEditWindow.constructor | bookkeeper/view/category_edit_window.py:86-88 | the window stores the list, then builds its name lists and tree |
| CategoryTree.CategoryEditWindow.SetCategories | bookkeeper/view/category_edit_window.py:107-108 | stores the list only; the name lists and the tree are left as they were |
| CategoryTree.CategoryEditWindow.UpdateCategories | bookkeeper/view/category_edit_window.py:90-105 | names in list order, the hierarchy from the top, the names as deletion choices, and the no-parent entry followed by the names as parent choices |
| MainView.ShownCategoriesTerminate | bookkeeper/bookkeeper.py:142-145 | the categories the coordinator shows have distinct pks, so the editor's walk over them terminates |
| MainView.NamesWithPkHead | bookkeeper/view/view.py:148 | the comprehension is empty iff no category has the pk, and else starts with the first match's name |
| MainView.PkToName | bookkeeper/view/view.py:147-151 | the name of the first category in list order whose pk equals the key, or `""` when none does |
| MainView.PkToNameUnique | bookkeeper/view/view.py:148-150 | with distinct pks the lookup gives the name of the category with that pk |
| MainView.SampleLookups | tests/test_view/test_view.py:31-37 | pk 1 gives "cat1" and pk 3 gives `""` on the test data |
| MainView.View.constructor | bookkeeper/view/view.py:78-84 | the view starts with no categories and an editor built on the empty list |
| MainView.View.CategoryPkToName | bookkeeper/view/view.py:147-151 | the lookup on the view's current list |
| MainView.View.SetCategories | bookkeeper/view/view.py:153-156 | stores the list unchanged and hands the same list to the editor, whose lists and tree stay as they were |

## Left out

- Connections, cursors, `PRAGMA foreign_keys` and the debug `print`s are not modelled. The SQLite file is the repository's `rows` field, and the constructor takes what the table already holds.
- SQLite's ROWID policy is not modelled. `add` picks any positive ROWID not in the table.
- SQLite type affinity is not modelled. Columns are declared without types, so an integer never equals a text. `NULL` equals nothing.
- Column names are compared exactly. SQLite's case-insensitive column names are not modelled.
- Records.GetAllSpec: only literal column names are modelled as condition keys. The keys are pasted into the SQL text, so SQLite also accepts the ROWID aliases `rowid`, `oid` and `_rowid_` (and other SQL expressions); the model reports them as `NoSuchColumn`.
- SqliteRepository.Repository.GetAll: inherits the key restriction of `Records.GetAllSpec`: a ROWID alias as key fails in the model where SQLite selects by ROWID.
- SqliteRepository.Repository.Add: integers are unbounded. Python's sqlite3 binds an `int` as a 64-bit INTEGER and raises `OverflowError` (rolling back) for a value outside [-2^63, 2^63-1]; the model stores any integer.
- SqliteRepository.Repository.Update: integers are unbounded; the `OverflowError` of binding a value outside 64 bits is not modelled.
- Bookkeeping.Bookkeeper.AddExpense: integers are unbounded; an amount outside 64 bits passes in the model, while sqlite3 raises `OverflowError` (not caught as a `ValueError`) and adds no row. CPython's 4300-digit limit on `int()` is not modelled either.
- Bookkeeping.Bookkeeper.AddValidAmount: integers are unbounded; the 64-bit `OverflowError` of the add is not modelled.
- Bookkeeping.Bookkeeper.RecordExpense: integers are unbounded; the 64-bit `OverflowError` of the add is not modelled.
- Bookkeeping.Bookkeeper.StoreExpense: integers are unbounded; the 64-bit `OverflowError` of the add is not modelled.
- Bookkeeping.Bookkeeper.ModifyExpense: integers are unbounded; an amount outside 64 bits is written in the model, while the update raises `OverflowError`. The 4300-digit `int()` limit is not modelled.
- Bookkeeping.Bookkeeper.EditFetched: integers are unbounded; the 64-bit `OverflowError` of the update is not modelled.
- Bookkeeping.Bookkeeper.WriteExpense: integers are unbounded; the 64-bit `OverflowError` of the update is not modelled.
- Bookkeeping.Bookkeeper.ModifyBudget: integers are unbounded; a limit outside 64 bits is stored in the model, while the add or update raises `OverflowError`. The 4300-digit `int()` limit is not modelled.
- Bookkeeping.Bookkeeper.StoreBudget: integers are unbounded; the 64-bit `OverflowError` of the add is not modelled.
- Bookkeeping.Bookkeeper.SetLimit: integers are unbounded; the 64-bit `OverflowError` of the update is not modelled.
- PyStr.ParseIntOfDecimal: holds for every integer in the model; CPython 3.11+ (and 3.10.7+) refuses `str()` and `int()` of integers with more than 4300 digits, so the round trip there holds only below that size.
- PyStr.ParseInt: does not model CPython's 4300-digit limit, under which `int()` of a longer digit string raises `ValueError` (the not-an-integer path).
- `get_annotations` is not modelled. A model class is its name plus the list of its annotation names. Field types and the `datetime` re-parsing of `generate_object` are dropped, so dates stay the stored text.
- The repositories are passed to the coordinator's constructor. `repository_factory` is modelled on its own.
- The Category and Expense model files and `MemoryRepository` are not part of this model. Their shapes come from how the coordinator uses them.
- `Bookkeeping.Bookkeeper.AddExpense`: the clock that gives a new expense its date is the `now` parameter.
- `Bookkeeping.Bookkeeper.ModifyExpense`: `datetime.fromisoformat(...).isoformat(...)` is the `isoMinutes` parameter. Any other attribute is written back unchanged, as in the code.
- Bookkeeping.Bookkeeper.ModifyBudget: the no-pk branch stores the corrected budget (`Budgets.PlannedBudget`, see Findings), where `Budget(limitation=..., period=...)` at bookkeeper.py:315 raises `TypeError` against the dataclass of budget.py; the `TypeError` path of the code as written is shown only by `Budgets.CoordinatorCallRejected`.
- Bookkeeping.Bookkeeper.StoreBudget: appends the corrected budget row (limitation, period, 0 spent) instead of raising `TypeError` as line 315 does.
- Bookkeeping.Bookkeeper.constructor: requires the budget repository to have the columns the coordinator reads (`limitation`, `period`, `spent`), not the columns of budget.py (`amount`, `category_id`, `period`); the whole budget side of the coordinator is modelled on that corrected shape.
- `Bookkeeping.Bookkeeper.UpdateBudgets`: `Budget.update_spent` is not part of the source, so the `spentOf` parameter stands for it. Spent totals are not proved.
- `BookkeeperRules.OverBudget` compares only integer `spent` and `limitation` values. Python comparisons of other types are not modelled.
- `PyStr.ParseInt` covers ASCII digits only. Python's `int()` also accepts other Unicode decimal digits.
- `PyStr.Lower` covers ASCII, Latin-1 and basic Cyrillic capitals. Other scripts are not lower-cased.
- Error message texts are dropped. Each `ValueError` is a distinct constructor of an error datatype.
- The set of pks that `delete_expenses` iterates over has no fixed order. The model deletes in an unspecified order, and its contract holds for every order.
- Record objects are values, so the aliasing of `self.categories.append(cat)` followed by `add(cat)` is not modelled. The cache is stated to equal the table read back, which is what that aliasing produces.
- The view's `Category` is a plain datatype. `MainView.CategoryOf` reads a stored record into it. A name that is not text reads as `""`, and a parent that is not an integer reads as `None`.
- `CategoryTree.FindChildren` carries a ghost height bound. It is defined exactly on the inputs where the recursion terminates (`Bounded`). The non-termination itself is shown by lemmas, not modelled.
- `CategoryTree.FindChildren` does not model CPython's recursion limit (about 1000 frames by default). An acyclic chain of parent links that deep is `Bounded` and gets a tree in the model, while the program raises `RecursionError`; an unbounded walk also ends in `RecursionError` there rather than running forever.
- `int(c.pk) == int(pk)` in `category_pk_to_name` is modelled on integer keys. `int()` of a text key is not modelled.
- All Qt code is not modelled: widgets, layouts, message boxes, `try_for_widget`, the tables, `NewExpense` and the main window. The editor's button handlers are left out too; in `add_category` they refer to an undefined `parent_name`. Forwarding the category list to `NewExpense` in `set_categories` is left out.
- The coordinator's view calls are recorded as a trace of `ViewEvent`s. The view's handler wiring is not modelled.

## Findings

| source | as written | input that shows it | evidently intended | confidence | as-written member | corrected member |
|---|---|---|---|---|---|---|
| bookkeeper/repository/sqlite_repository.py:139-145 | each value is wrapped in `%...%` and handed to `get_all`, which compares with `=`, so only fields literally equal to `%v%` match | one category named "food" and pattern `{"name": "oo"}`: nothing is found | the interface's documented lookup, where each pattern string must be contained, exactly and case-sensitively, in the field value | not executed | RepositoryContract.PatternCounterexample | SqliteRepository.Repository.GetAllContaining |
| bookkeeper/bookkeeper.py:315 | `Budget(limitation=..., period=...)` against the dataclass with fields `amount, category_id, period, pk` | any call of `modify_budget` with a non-negative limit and no pk: the keyword `limitation` raises `TypeError` | a budget record with `limitation`, `period` and `spent` (0 at creation), the shape `update_budgets` and `add_expense` read | not executed | Budgets.CoordinatorCallRejected | Budgets.PlannedBudget |
