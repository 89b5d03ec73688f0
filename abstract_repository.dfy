/** `bookkeeper/repository/abstract_repository.py`: the promises the
    repository interface makes in its documentation, checked against the
    SQLite repository's table semantics, and `repository_factory`. */
module RepositoryContract {
  import opened Wrappers
  import opened PyStr
  import opened Records
  import opened SqliteRepository

  // ---------------------------------------------------------------------
  // get_all_by_pattern

  /** As written, `get_all_by_pattern` returns exactly the rows whose
      fields are literally `%v%`: the percent signs are compared, not
      interpreted. */
  lemma PatternIsExactMatch(fields: seq<string>, rows: seq<Row>, patterns: seq<(string, string)>)
    requires |patterns| > 0 && UnknownColumn(fields, PercentWrap(patterns)).None?
    ensures GetAllSpec(fields, rows, Some(PercentWrap(patterns))).Success?
    ensures forall rec :: rec in GetAllSpec(fields, rows, Some(PercentWrap(patterns))).value <==>
      exists r :: r in rows && rec == Hydrate(fields, r) &&
        forall k :: 0 <= k < |patterns| ==> ColumnValue(fields, r, patterns[k].0) == Some(Text("%" + patterns[k].1 + "%"))
  {
    var cond := PercentWrap(patterns);
    GetAllExact(fields, rows, cond);
    forall r
      ensures Satisfies(fields, r, cond) <==>
        forall k :: 0 <= k < |patterns| ==> ColumnValue(fields, r, patterns[k].0) == Some(Text("%" + patterns[k].1 + "%"))
    {
      assert forall k :: 0 <= k < |patterns| ==> cond[k] == (patterns[k].0, Text("%" + patterns[k].1 + "%"));
    }
  }

  /** A stored text without a percent sign is never found by the
      as-written lookup, whatever the pattern. */
  lemma PatternMissesPlainText(fields: seq<string>, rows: seq<Row>, patterns: seq<(string, string)>)
    requires |patterns| > 0 && UnknownColumn(fields, PercentWrap(patterns)).None?
    requires forall r, k :: r in rows && 0 <= k < |r.values| && r.values[k].Text? ==> '%' !in r.values[k].s
    ensures GetAllSpec(fields, rows, Some(PercentWrap(patterns))) == Success([])
  {
    var cond := PercentWrap(patterns);
    MatchingSpec(fields, rows, cond);
    assert cond[0] == (patterns[0].0, Text("%" + patterns[0].1 + "%"));
    assert ("%" + patterns[0].1 + "%")[0] == '%';
    forall r | r in rows
      ensures !Satisfies(fields, r, cond)
    {
      var v := ColumnValue(fields, r, patterns[0].0);
      if v.Some? && v.value.Text? {
        var j := ColumnIndex(fields, patterns[0].0).value;
        assert v.value == r.values[j];
        assert '%' !in v.value.s;
        assert !SqlEquals(v.value, cond[0].1);
      }
    }
    MatchingNone(fields, rows, cond);
    assert HydrateAll(fields, []) == [];
  }

  /** The stored category "food" and the pattern "oo": the documented
      lookup finds it, the as-written one does not. */
  lemma PatternCounterexample()
    ensures GetAllSpec(["name"], [Row(1, [Text("food")])], Some(PercentWrap([("name", "oo")]))) == Success([])
    ensures ContainingSpec(["name"], [Row(1, [Text("food")])], [("name", "oo")]) == Success([Hydrate(["name"], Row(1, [Text("food")]))])
  {
    var fields := ["name"];
    var row := Row(1, [Text("food")]);
    var p := [("name", "oo")];
    assert ColumnIndex(fields, "name") == Some(0);
    assert "%" + "oo" + "%" == "%oo%";
    assert PercentWrap(p) == [("name", Text("%oo%"))];
    assert ColumnValue(fields, row, "name") == Some(Text("food"));
    var cond := PercentWrap(p);
    assert cond[0] == ("name", Text("%oo%"));
    assert "food"[0] != "%oo%"[0];
    assert !SqlEquals(Text("food"), cond[0].1);
    assert !Satisfies(fields, row, cond);
    assert Matching(fields, [row], PercentWrap(p)) == [];
    assert OccursAt("food", "oo", 1);
    assert HoldsPatterns(fields, row, p);
    assert Containing(fields, [row], p) == [row];
    assert UnknownColumn(fields, cond) == None;
    assert HydrateAll(fields, []) == [];
    assert HydrateAll(fields, [row]) == [Hydrate(fields, row)];
  }

  /** The documented lookup returns exactly the stored rows in which every
      pattern value occurs in its field. */
  lemma ContainingExact(fields: seq<string>, rows: seq<Row>, patterns: seq<(string, string)>)
    requires |patterns| > 0 && UnknownColumn(fields, PercentWrap(patterns)).None?
    ensures ContainingSpec(fields, rows, patterns).Success?
    ensures forall rec :: rec in ContainingSpec(fields, rows, patterns).value <==>
      exists r :: r in rows && HoldsPatterns(fields, r, patterns) && rec == Hydrate(fields, r)
  {
    ContainingSpecRows(fields, rows, patterns);
    var m := Containing(fields, rows, patterns);
    var objs := ContainingSpec(fields, rows, patterns).value;
    forall rec
      ensures rec in objs <==> exists r :: r in rows && HoldsPatterns(fields, r, patterns) && rec == Hydrate(fields, r)
    {
      if rec in objs {
        var i :| 0 <= i < |objs| && objs[i] == rec;
        assert m[i] in m;
      }
      if exists r :: r in rows && HoldsPatterns(fields, r, patterns) && rec == Hydrate(fields, r) {
        var r :| r in rows && HoldsPatterns(fields, r, patterns) && rec == Hydrate(fields, r);
        var i :| 0 <= i < |m| && m[i] == r;
        assert objs[i] == rec;
      }
    }
  }

  lemma ContainsTransitive(a: string, b: string, c: string)
    requires Contains(a, b) && Contains(b, c)
    ensures Contains(a, c)
  {
    var i :| 0 <= i <= |a| - |b| && OccursAt(a, b, i);
    var j :| 0 <= j <= |b| - |c| && OccursAt(b, c, j);
    assert OccursAt(a, c, i + j) by {
      forall t | 0 <= t < |c|
        ensures a[i + j + t] == c[t]
      {
        assert a[i..i + |b|][j + t] == b[j + t];
        assert b[j..j + |c|][t] == c[t];
      }
    }
  }

  /** Shortening a pattern to a piece of itself can only find more rows. */
  lemma ShorterPatternFindsMore(fields: seq<string>, r: Row, patterns: seq<(string, string)>, k: nat, shorter: string)
    requires k < |patterns| && Contains(patterns[k].1, shorter)
    requires HoldsPatterns(fields, r, patterns)
    ensures HoldsPatterns(fields, r, patterns[k := (patterns[k].0, shorter)])
  {
    var col := TextOf(ColumnValue(fields, r, patterns[k].0).value).value;
    ContainsTransitive(col, patterns[k].1, shorter);
  }

  // ---------------------------------------------------------------------
  // repository_factory

  /** The repository classes a factory can be given. The in-memory
      repository is not part of this model; only the call it receives is. */
  datatype RepoType = SqliteType | MemoryType

  /** A constructor call the factory's generator makes: `cls=model`, plus
      `db_file` when one was given. */
  datatype ConstructorCall = ConstructorCall(repoType: RepoType, dbFile: Option<string>, cls: ModelClass)

  /** `repository_factory(repo_type, db_file)`: the generator it returns. */
  function RepositoryFactory(repoType: RepoType, dbFile: Option<string>): ModelClass -> ConstructorCall
  {
    model => ConstructorCall(repoType, dbFile, model)
  }

  datatype OpenError = MissingDbFile | NoPk

  /** What an SQLite repository constructor call yields: `db_file` is a
      required argument, and the class must annotate `pk`. */
  function OpenSqlite(call: ConstructorCall): Result<RepoConfig, OpenError>
    requires call.repoType == SqliteType
  {
    if call.dbFile.None? then Failure(MissingDbFile)
    else match Configure(call.cls)
      case Success(cfg) => Success(cfg)
      case Failure(_) => Failure(NoPk)
  }

  /** Every generator passes the model class, the given file (or its
      absence) and the repository type through; one made with a file
      opens an SQLite table named after the class, one made without a file
      cannot build an SQLite repository. */
  lemma FactoryCalls(dbFile: Option<string>, model: ModelClass)
    ensures RepositoryFactory(SqliteType, dbFile)(model).cls == model
    ensures RepositoryFactory(MemoryType, dbFile)(model).cls == model
    ensures RepositoryFactory(SqliteType, dbFile)(model).dbFile == dbFile
    ensures RepositoryFactory(MemoryType, dbFile)(model).dbFile == dbFile
    ensures RepositoryFactory(SqliteType, dbFile)(model).repoType == SqliteType
    ensures RepositoryFactory(MemoryType, dbFile)(model).repoType == MemoryType
    ensures dbFile.None? ==> OpenSqlite(RepositoryFactory(SqliteType, dbFile)(model)) == Failure(MissingDbFile)
    ensures dbFile.Some? && "pk" in model.annotations ==>
      && OpenSqlite(RepositoryFactory(SqliteType, dbFile)(model)).Success?
      && OpenSqlite(RepositoryFactory(SqliteType, dbFile)(model)).value.tableName == Lower(model.name)
  {
  }
}
