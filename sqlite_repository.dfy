/** `SQLiteRepository`: a repository of one model class stored in one SQLite
    table. The table is modelled by its rows (`Records.Row`), the SQL engine
    by the table semantics of module `Records`, and the pregenerated
    statements by module `SqlQueries`. */
module SqliteRepository {
  import opened Wrappers
  import opened PyStr
  import opened SqlQueries
  import opened Records

  /** A model class as the repository sees it: its name and the names of its
      annotated attributes, in declaration order. */
  datatype ModelClass = ModelClass(name: string, annotations: seq<string>)

  /** Python guarantees that a class name and attribute names are
      identifiers and that the annotation dictionary has no repeated key. */
  predicate WellFormedClass(cls: ModelClass)
  {
    IsIdentifier(cls.name) && AllIdentifiers(cls.annotations) && Distinct(cls.annotations)
  }

  /** What `__init__` derives from the class before touching the file. */
  datatype RepoConfig = RepoConfig(tableName: string, fields: seq<string>, queries: Queries)

  /** `__init__` raises `KeyError` when the class has no `pk` annotation. */
  datatype InitError = NoPkAnnotation

  /** The names with `key` removed, order kept (`dict.pop`). */
  function Without(names: seq<string>, key: string): seq<string>
    decreases |names|
  {
    if |names| == 0 then []
    else (if names[0] == key then [] else [names[0]]) + Without(names[1..], key)
  }

  /** `pop` keeps the annotation order: removing the key from a
      concatenation concatenates the parts with the key removed. */
  lemma {:induction false} WithoutConcat(a: seq<string>, b: seq<string>, key: string)
    ensures Without(a + b, key) == Without(a, key) + Without(b, key)
    decreases |a|
  {
    if |a| == 0 {
      assert a + b == b;
    } else {
      var head := if a[0] == key then [] else [a[0]];
      assert (a + b)[0] == a[0] && (a + b)[1..] == a[1..] + b;
      assert Without(a + b, key) == head + Without(a[1..] + b, key);
      WithoutConcat(a[1..], b, key);
      assert Without(a, key) == head + Without(a[1..], key);
    }
  }

  lemma {:induction false} WithoutSpec(names: seq<string>, key: string)
    ensures forall f :: f in Without(names, key) <==> f in names && f != key
    ensures AllIdentifiers(names) ==> AllIdentifiers(Without(names, key))
    ensures Distinct(names) ==> Distinct(Without(names, key))
    decreases |names|
  {
    if |names| > 0 {
      WithoutSpec(names[1..], key);
      assert names == [names[0]] + names[1..];
      var rest := Without(names[1..], key);
      var w := Without(names, key);
      if AllIdentifiers(names) {
        assert AllIdentifiers(names[1..]);
        forall i | 0 <= i < |w|
          ensures IsIdentifier(w[i])
        {
          if names[0] != key && i == 0 {
          } else {
            var j := if names[0] == key then i else i - 1;
            assert w[i] == rest[j];
          }
        }
      }
      if Distinct(names) {
        assert Distinct(names[1..]) by {
          forall i, j | 0 <= i < j < |names[1..]|
            ensures names[1..][i] != names[1..][j]
          {
            assert names[1..][i] == names[i + 1] && names[1..][j] == names[j + 1];
          }
        }
        if names[0] != key {
          assert names[0] !in names[1..] by {
            forall j | 0 <= j < |names[1..]|
              ensures names[1..][j] != names[0]
            {
              assert names[1..][j] == names[j + 1];
            }
          }
          assert names[0] !in rest;
          forall i, j | 0 <= i < j < |w|
            ensures w[i] != w[j]
          {
            assert w[j] == rest[j - 1];
            if i == 0 {
              assert rest[j - 1] in rest;
            } else {
              assert w[i] == rest[i - 1];
            }
          }
        }
      }
    }
  }

  /** The table name, stored fields and statements `__init__` sets up. */
  function Configure(cls: ModelClass): (r: Result<RepoConfig, InitError>)
    ensures r.Success? <==> "pk" in cls.annotations
    ensures r.Success? ==>
      && r.value.tableName == TableName(cls.name)
      && (forall f :: f in r.value.fields <==> f in cls.annotations && f != "pk")
      && r.value.fields == Without(cls.annotations, "pk")
      && r.value.queries == BuildQueries(r.value.tableName, r.value.fields)
    ensures r.Success? && WellFormedClass(cls) ==>
      IsIdentifier(r.value.tableName) && AllIdentifiers(r.value.fields) && Distinct(r.value.fields)
  {
    if "pk" !in cls.annotations then Failure(NoPkAnnotation)
    else
      var fields := Without(cls.annotations, "pk");
      WithoutSpec(cls.annotations, "pk");
      if IsIdentifier(cls.name) then
        LowerIdentifier(cls.name);
        Success(RepoConfig(TableName(cls.name), fields, BuildQueries(TableName(cls.name), fields)))
      else
        Success(RepoConfig(TableName(cls.name), fields, BuildQueries(TableName(cls.name), fields)))
  }

  class Repository {
    const dbFile: string
    const tableName: string
    const fields: seq<string>
    const queries: Queries
    /** The rows of the table in the database file, in storage order. */
    var rows: seq<Row>

    ghost predicate Valid()
      reads this
    {
      && IsIdentifier(tableName)
      && AllIdentifiers(fields)
      && Distinct(fields)
      && "pk" !in fields
      && queries == BuildQueries(tableName, fields)
      && WellFormedTable(fields, rows)
    }

    /** `SQLiteRepository(db_file, cls)` for a class with a `pk` annotation;
        `existing` is what the file's table already holds (`CREATE TABLE IF
        NOT EXISTS` leaves it alone). */
    constructor(dbFile: string, cls: ModelClass, existing: seq<Row>)
      requires WellFormedClass(cls) && Configure(cls).Success?
      requires WellFormedTable(Configure(cls).value.fields, existing)
      ensures Valid()
      ensures this.dbFile == dbFile
      ensures tableName == TableName(cls.name)
      ensures forall f :: f in fields <==> f in cls.annotations && f != "pk"
      ensures fields == Without(cls.annotations, "pk")
      ensures rows == existing
    {
      var cfg := Configure(cls).value;
      this.dbFile := dbFile;
      tableName := cfg.tableName;
      fields := cfg.fields;
      queries := cfg.queries;
      rows := existing;
    }

    /** `generate_object`: the field values are collected into a keyword
        dictionary in field order, then `pk` is set to the ROWID. */
    method GenerateObject(row: Row) returns (obj: Record)
      ensures obj == Hydrate(fields, row)
    {
      var args: map<string, Value> := map[];
      var n := Min(|fields|, |row.values|);
      var i := 0;
      while i < n
        invariant 0 <= i <= n
        invariant args == ZipN(fields, row.values, i)
      {
        args := args[fields[i] := row.values[i]];
        i := i + 1;
      }
      obj := Record(args, Some(row.rowid));
    }

    method Get(pk: int) returns (res: Result<Option<Record>, RepoError>)
      requires Valid()
      ensures res == GetSpec(fields, rows, pk)
      ensures res.Success?
      ensures res.value.Some? ==> res.value.value.pk == Some(pk)
    {
      var found := WithRowid(rows, pk);
      GetNeverSeveral(fields, rows, pk);
      WithRowidSpec(rows, pk);
      if |found| == 0 {
        res := Success(None);
      } else if |found| > 1 {
        res := Failure(SeveralEntries(pk));
      } else {
        assert found[0] in found;
        var obj := GenerateObject(found[0]);
        res := Success(Some(obj));
      }
    }

    /** `get_all(where)`; `None` stands for no condition dictionary. */
    method GetAll(where: Option<seq<(string, Value)>>) returns (res: Result<seq<Record>, RepoError>)
      ensures res == GetAllSpec(fields, rows, where)
    {
      var selected: seq<Row>;
      match where {
        case None =>
          selected := rows;
        case Some(cond) =>
          if |cond| == 0 {
            return Failure(EmptyCondition);
          }
          var unknown := UnknownColumn(fields, cond);
          if unknown.Some? {
            return Failure(NoSuchColumn(unknown.value));
          }
          selected := Matching(fields, rows, cond);
      }
      var objs: seq<Record> := [];
      var i := 0;
      while i < |selected|
        invariant 0 <= i <= |selected|
        invariant objs == HydrateAll(fields, selected[..i])
      {
        var obj := GenerateObject(selected[i]);
        objs := objs + [obj];
        i := i + 1;
      }
      assert selected[..i] == selected;
      res := Success(objs);
    }

    /** `get_all_by_pattern`: every value wrapped in `%`, then `get_all`. */
    method GetAllByPattern(patterns: seq<(string, string)>) returns (res: Result<seq<Record>, RepoError>)
      ensures res == GetAllSpec(fields, rows, Some(PercentWrap(patterns)))
    {
      var wrapped: seq<(string, Value)> := [];
      var i := 0;
      while i < |patterns|
        invariant 0 <= i <= |patterns|
        invariant wrapped == PercentWrap(patterns[..i])
      {
        wrapped := wrapped + [(patterns[i].0, Text("%" + patterns[i].1 + "%"))];
        i := i + 1;
      }
      assert patterns[..i] == patterns;
      res := GetAll(Some(wrapped));
    }

    /** Pattern lookup as the repository interface describes it: a row
        matches when each pattern string occurs, exactly and with case
        respected, in the text of its field. */
    method GetAllContaining(patterns: seq<(string, string)>) returns (res: Result<seq<Record>, RepoError>)
      ensures res == ContainingSpec(fields, rows, patterns)
    {
      if |patterns| == 0 {
        return Failure(EmptyCondition);
      }
      var unknown := UnknownColumn(fields, PercentWrap(patterns));
      if unknown.Some? {
        return Failure(NoSuchColumn(unknown.value));
      }
      var selected := Containing(fields, rows, patterns);
      var objs: seq<Record> := [];
      var i := 0;
      while i < |selected|
        invariant 0 <= i <= |selected|
        invariant objs == HydrateAll(fields, selected[..i])
      {
        var obj := GenerateObject(selected[i]);
        objs := objs + [obj];
        i := i + 1;
      }
      assert selected[..i] == selected;
      res := Success(objs);
    }

    /** `add(obj)`: on success the new row's ROWID is returned and written
        into the record, returned as `added`. */
    method Add(obj: Record) returns (res: Result<int, RepoError>, added: Record)
      requires Valid()
      modifies this
      ensures Valid()
      ensures res.Failure? <==> obj.pk != Some(0) || FieldValues(fields, obj).Failure?
      ensures res.Failure? ==> rows == old(rows) && added == obj
      ensures res.Failure? && obj.pk != Some(0) ==> res.error == PkAlreadySet
      ensures res.Success? ==>
        && res.value > 0 && res.value !in RowIds(old(rows))
        && AddSpec(fields, old(rows), obj, res.value) == Success(rows)
        && added == obj.(pk := Some(res.value))
    {
      if obj.pk != Some(0) {
        return Failure(PkAlreadySet), obj;
      }
      var vals := FieldValues(fields, obj);
      if vals.Failure? {
        return Failure(vals.error), obj;
      }
      FieldValuesSpec(fields, obj);
      MaxRowidBound(rows);
      var id :| 0 < id <= MaxRowid(rows) + 1 && id !in RowIds(rows);
      AppendWellFormed(fields, rows, id, vals.value);
      rows := rows + [Row(id, vals.value)];
      res := Success(id);
      added := obj.(pk := Some(id));
    }

    method Update(obj: Record) returns (res: Outcome<RepoError>)
      requires Valid()
      modifies this
      ensures Valid()
      ensures res.Pass? ==> UpdateSpec(fields, old(rows), obj) == Success(rows)
      ensures res.Fail? ==> UpdateSpec(fields, old(rows), obj) == Failure(res.error) && rows == old(rows)
    {
      if obj.pk.None? {
        return Fail(PkMissing);
      }
      var vals := FieldValues(fields, obj);
      if vals.Failure? {
        return Fail(vals.error);
      }
      var pk := obj.pk.value;
      if |WithRowid(rows, pk)| == 0 {
        return Fail(NotFound(pk));
      }
      FieldValuesSpec(fields, obj);
      ReplaceWellFormed(fields, rows, pk, vals.value);
      rows := Replace(rows, pk, vals.value);
      res := Pass;
    }

    method Delete(pk: int) returns (res: Outcome<RepoError>)
      requires Valid()
      modifies this
      ensures Valid()
      ensures res.Pass? ==> DeleteSpec(old(rows), pk) == Success(rows)
      ensures res.Fail? ==> DeleteSpec(old(rows), pk) == Failure(res.error) && rows == old(rows)
    {
      if |WithRowid(rows, pk)| == 0 {
        return Fail(NotFound(pk));
      }
      WithoutRowidWellFormed(fields, rows, pk);
      rows := WithoutRowid(rows, pk);
      res := Pass;
    }
  }
}
