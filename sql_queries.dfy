/** The SQL statements `SQLiteRepository.__init__` pregenerates from the
    table name and the field names, and the WHERE clause `get_all` adds.
    Field names are joined into the text; every value is passed as a bound
    `?` parameter, so the property that matters is that the number of `?`
    marks equals the number of values bound to the statement. */
module SqlQueries {
  import opened PyStr

  /** A Python identifier (ASCII part): what a class name or an annotated
      field name can be. */
  predicate IsIdentifier(s: string)
  {
    && |s| > 0
    && !IsDigit(s[0])
    && forall i :: 0 <= i < |s| ==> IsDigit(s[i]) || 'a' <= s[i] <= 'z' || 'A' <= s[i] <= 'Z' || s[i] == '_'
  }

  datatype Queries = Queries(
    foreignKeys: string,
    create: string,
    add: string,
    get: string,
    getAll: string,
    update: string,
    delete: string)

  /** The table name is the lower-cased class name. */
  function TableName(className: string): string
  {
    Lower(className)
  }

  /** `"?" * n`, one mark per character, as `", ".join` sees it */
  function Marks(n: nat): seq<string>
    decreases n
  {
    if n == 0 then [] else ["?"] + Marks(n - 1)
  }

  /** `[f"{field}=?" for field in fields]` */
  function Assignments(fields: seq<string>): seq<string>
    decreases |fields|
  {
    if |fields| == 0 then [] else [fields[0] + "=?"] + Assignments(fields[1..])
  }

  /** `[f"{field} = ?" for field in where.keys()]` */
  function Conditions(keys: seq<string>): seq<string>
    decreases |keys|
  {
    if |keys| == 0 then [] else [keys[0] + " = ?"] + Conditions(keys[1..])
  }

  function BuildQueries(table: string, fields: seq<string>): Queries
  {
    var names := Join(", ", fields);
    var pholder := Join(", ", Marks(|fields|));
    var phUpd := Join(", ", Assignments(fields));
    Queries(
      "PRAGMA foreign_keys = ON",
      "CREATE TABLE IF NOT EXISTS " + table + " (" + names + ")",
      "INSERT INTO " + table + " (" + names + ") VALUES (" + pholder + ")",
      "SELECT ROWID, * FROM " + table + " WHERE ROWID = ?",
      "SELECT ROWID, * FROM " + table,
      "UPDATE " + table + " SET " + phUpd + " WHERE ROWID = ?",
      "DELETE FROM " + table + " WHERE ROWID = ?")
  }

  /** The query `get_all` runs for a non-empty condition dictionary. */
  function WhereQuery(q: Queries, keys: seq<string>): string
  {
    q.getAll + " WHERE " + Join(" AND ", Conditions(keys))
  }

  // ---------------------------------------------------------------------
  // Placeholder counts

  lemma NoMark(s: string)
    requires '?' !in s
    ensures Count('?', s) == 0
  {
  }

  // The fixed pieces of the statements, one fact each.
  lemma CommaHasNoMark() ensures Count('?', ", ") == 0 { NoMark(", "); }
  lemma AndHasNoMark() ensures Count('?', " AND ") == 0 { NoMark(" AND "); }
  lemma WhereHasNoMark() ensures Count('?', " WHERE ") == 0 { NoMark(" WHERE "); }
  lemma OpenHasNoMark() ensures Count('?', " (") == 0 { NoMark(" ("); }
  lemma CloseHasNoMark() ensures Count('?', ")") == 0 { NoMark(")"); }
  lemma ValuesHasNoMark() ensures Count('?', ") VALUES (") == 0 { NoMark(") VALUES ("); }
  lemma InsertHasNoMark() ensures Count('?', "INSERT INTO ") == 0 { NoMark("INSERT INTO "); }
  lemma UpdateHasNoMark() ensures Count('?', "UPDATE ") == 0 { NoMark("UPDATE "); }
  lemma SetHasNoMark() ensures Count('?', " SET ") == 0 { NoMark(" SET "); }
  lemma SelectHasNoMark() ensures Count('?', "SELECT ROWID, * FROM ") == 0 { NoMark("SELECT ROWID, * FROM "); }
  lemma DeleteHasNoMark() ensures Count('?', "DELETE FROM ") == 0 { NoMark("DELETE FROM "); }
  lemma CreateHasNoMark() ensures Count('?', "CREATE TABLE IF NOT EXISTS ") == 0 { NoMark("CREATE TABLE IF NOT EXISTS "); }
  lemma AssignHasOneMark() ensures Count('?', "=?") == 1 { assert "=?" == "=" + "?"; CountConcat('?', "=", "?"); }
  lemma EqualsHasOneMark() ensures Count('?', " = ?") == 1 { assert " = ?" == " = " + "?"; NoMark(" = "); CountConcat('?', " = ", "?"); }

  /** The `WHERE ROWID = ?` suffix binds one value. */
  lemma KeyConditionCount()
    ensures Count('?', " WHERE ROWID = ?") == 1
  {
    var s := " WHERE ROWID = ?";
    assert s == s[..15] + [s[15]];
    assert '?' !in s[..15];
    assert multiset(s) == multiset(s[..15]) + multiset{s[15]};
  }

  lemma IdentifierHasNoMark(s: string)
    requires IsIdentifier(s)
    ensures Count('?', s) == 0
  {
    assert forall i :: 0 <= i < |s| ==> s[i] != '?';
    NoMark(s);
  }

  predicate AllIdentifiers(names: seq<string>)
  {
    forall i :: 0 <= i < |names| ==> IsIdentifier(names[i])
  }

  lemma {:induction false} MarksCount(n: nat)
    ensures CountAll('?', Marks(n)) == n
    decreases n
  {
    if n > 0 {
      MarksCount(n - 1);
      assert Marks(n)[1..] == Marks(n - 1);
    }
  }

  lemma {:induction false} NamesHaveNoMark(names: seq<string>)
    requires AllIdentifiers(names)
    ensures CountAll('?', names) == 0
    decreases |names|
  {
    if |names| > 0 {
      IdentifierHasNoMark(names[0]);
      NamesHaveNoMark(names[1..]);
    }
  }

  lemma {:induction false} AssignmentsCount(fields: seq<string>)
    requires AllIdentifiers(fields)
    ensures CountAll('?', Assignments(fields)) == |fields|
    decreases |fields|
  {
    if |fields| > 0 {
      AssignmentsCount(fields[1..]);
      IdentifierHasNoMark(fields[0]);
      AssignHasOneMark();
      CountConcat('?', fields[0], "=?");
      assert Assignments(fields)[1..] == Assignments(fields[1..]);
    }
  }

  lemma {:induction false} ConditionsCount(keys: seq<string>)
    requires AllIdentifiers(keys)
    ensures CountAll('?', Conditions(keys)) == |keys|
    decreases |keys|
  {
    if |keys| > 0 {
      ConditionsCount(keys[1..]);
      IdentifierHasNoMark(keys[0]);
      EqualsHasOneMark();
      CountConcat('?', keys[0], " = ?");
      assert Conditions(keys)[1..] == Conditions(keys[1..]);
    }
  }

  lemma CountFive(c: char, a: string, b: string, d: string, e: string, f: string)
    ensures Count(c, a + b + d + e + f) == Count(c, a) + Count(c, b) + Count(c, d) + Count(c, e) + Count(c, f)
  {
    CountConcat(c, a, b);
    CountConcat(c, a + b, d);
    CountConcat(c, a + b + d, e);
    CountConcat(c, a + b + d + e, f);
  }

  lemma JoinedNamesHaveNoMark(fields: seq<string>)
    requires AllIdentifiers(fields)
    ensures Count('?', Join(", ", fields)) == 0
  {
    CommaHasNoMark();
    CountJoin('?', ", ", fields);
    NamesHaveNoMark(fields);
  }

  /** The insert statement carries exactly one `?` per field, matching the
      field values `add` binds to it. */
  lemma InsertPlaceholders(table: string, fields: seq<string>)
    requires IsIdentifier(table) && AllIdentifiers(fields)
    ensures Count('?', BuildQueries(table, fields).add) == |fields|
  {
    var names := Join(", ", fields);
    var pholder := Join(", ", Marks(|fields|));
    JoinedNamesHaveNoMark(fields);
    CommaHasNoMark();
    CountJoin('?', ", ", Marks(|fields|));
    MarksCount(|fields|);
    IdentifierHasNoMark(table);
    InsertHasNoMark();
    OpenHasNoMark();
    ValuesHasNoMark();
    CloseHasNoMark();
    CountConcat('?', "INSERT INTO ", table);
    CountFive('?', "INSERT INTO " + table, " (", names, ") VALUES (", pholder);
    CountConcat('?', "INSERT INTO " + table + " (" + names + ") VALUES (" + pholder, ")");
  }

  /** The update statement carries one `f=?` per field and one more `?` for
      the ROWID, matching the field values followed by the pk. */
  lemma UpdatePlaceholders(table: string, fields: seq<string>)
    requires IsIdentifier(table) && AllIdentifiers(fields)
    ensures Count('?', BuildQueries(table, fields).update) == |fields| + 1
  {
    var phUpd := Join(", ", Assignments(fields));
    CommaHasNoMark();
    CountJoin('?', ", ", Assignments(fields));
    AssignmentsCount(fields);
    IdentifierHasNoMark(table);
    UpdateHasNoMark();
    SetHasNoMark();
    KeyConditionCount();
    CountFive('?', "UPDATE ", table, " SET ", phUpd, " WHERE ROWID = ?");
  }

  /** `get` and `delete` bind exactly one value, the pk; `create` and the
      unconditioned `get_all` bind none. */
  lemma KeyedPlaceholders(table: string, fields: seq<string>)
    requires IsIdentifier(table) && AllIdentifiers(fields)
    ensures Count('?', BuildQueries(table, fields).get) == 1
    ensures Count('?', BuildQueries(table, fields).delete) == 1
    ensures Count('?', BuildQueries(table, fields).getAll) == 0
    ensures Count('?', BuildQueries(table, fields).create) == 0
  {
    var names := Join(", ", fields);
    JoinedNamesHaveNoMark(fields);
    IdentifierHasNoMark(table);
    KeyConditionCount();
    SelectHasNoMark();
    CountConcat('?', "SELECT ROWID, * FROM ", table);
    CountConcat('?', "SELECT ROWID, * FROM " + table, " WHERE ROWID = ?");
    DeleteHasNoMark();
    CountConcat('?', "DELETE FROM ", table);
    CountConcat('?', "DELETE FROM " + table, " WHERE ROWID = ?");
    CreateHasNoMark();
    OpenHasNoMark();
    CloseHasNoMark();
    CountFive('?', "CREATE TABLE IF NOT EXISTS ", table, " (", names, ")");
  }

  /** A conditioned `get_all` carries one `?` per condition, matching the
      condition values it binds in the same order. */
  lemma WherePlaceholders(table: string, fields: seq<string>, keys: seq<string>)
    requires IsIdentifier(table) && AllIdentifiers(fields) && AllIdentifiers(keys)
    ensures Count('?', WhereQuery(BuildQueries(table, fields), keys)) == |keys|
  {
    var q := BuildQueries(table, fields);
    KeyedPlaceholders(table, fields);
    var conds := Join(" AND ", Conditions(keys));
    AndHasNoMark();
    CountJoin('?', " AND ", Conditions(keys));
    ConditionsCount(keys);
    WhereHasNoMark();
    CountConcat('?', q.getAll, " WHERE ");
    CountConcat('?', q.getAll + " WHERE ", conds);
  }

  /** Lower-casing a class name gives a table name that lower-casing
      leaves alone. */
  lemma TableNameCanonical(className: string)
    ensures |TableName(className)| == |className|
    ensures TableName(TableName(className)) == TableName(className)
  {
    LowerIdempotent(className);
  }

  /** Lower-casing keeps an (ASCII) identifier an identifier, so the table
      name is one. */
  lemma LowerIdentifier(s: string)
    requires IsIdentifier(s)
    ensures IsIdentifier(Lower(s))
  {
    var t := Lower(s);
    forall i | 0 <= i < |t|
      ensures IsDigit(t[i]) || 'a' <= t[i] <= 'z' || 'A' <= t[i] <= 'Z' || t[i] == '_'
    {
      assert t[i] == LowerChar(s[i]);
    }
  }
}
