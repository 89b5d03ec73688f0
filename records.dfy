/** The table a repository works on, as an in-memory value, and what each
    SQL statement of the repository does to it or reads from it.

    A stored row is its ROWID and its column values in declared field order;
    a record (an instance of a model class) is a map from attribute names to
    values plus its `pk` attribute. */
module Records {
  import opened Wrappers
  import opened PyStr

  /** A column value or attribute value. */
  datatype Value = Null | Int(i: int) | Text(s: string)

  /** One row of `SELECT ROWID, * FROM table`. */
  datatype Row = Row(rowid: int, values: seq<Value>)

  /** A model instance: its attributes and its `pk` attribute, `None` when
      the attribute is missing or holds `None`. */
  datatype Record = Record(attrs: map<string, Value>, pk: Option<int>)

  /** The ways a repository operation raises. */
  datatype RepoError =
    | PkAlreadySet                   // add: `pk` is not 0
    | MissingAttribute(name: string) // getattr on a field the object lacks
    | SeveralEntries(pk: int)        // get: more than one row with that ROWID
    | EmptyCondition                 // get_all({}): "... WHERE " is an SQL syntax error
    | NoSuchColumn(name: string)     // get_all: condition on a name that is not a column
    | PkMissing                      // update: `pk` is None
    | NotFound(pk: int)              // update/delete: no row with that ROWID

  /** SQL `=` on two values: NULL equals nothing, and the columns are
      declared without a type, so an integer never equals a text. */
  predicate SqlEquals(a: Value, b: Value)
  {
    a != Null && b != Null && a == b
  }

  predicate Distinct(names: seq<string>)
  {
    forall i, j :: 0 <= i < j < |names| ==> names[i] != names[j]
  }

  // ---------------------------------------------------------------------
  // Records built from rows and rows built from records

  /** The dictionary built by assigning `vals[k]` to `names[k]` for k < n,
      in order. */
  function ZipN(names: seq<string>, vals: seq<Value>, n: nat): map<string, Value>
    requires n <= |names| && n <= |vals|
    decreases n
  {
    if n == 0 then map[] else ZipN(names, vals, n - 1)[names[n - 1] := vals[n - 1]]
  }

  function Min(a: nat, b: nat): nat
  {
    if a < b then a else b
  }

  /** `dict(zip(names, vals))` */
  function ZipMap(names: seq<string>, vals: seq<Value>): map<string, Value>
  {
    ZipN(names, vals, Min(|names|, |vals|))
  }

  /** The record `generate_object` builds from a row: the class called with
      the column values as keyword arguments, then `pk` set to the ROWID. */
  function Hydrate(fields: seq<string>, row: Row): Record
  {
    Record(ZipMap(fields, row.values), Some(row.rowid))
  }

  function HydrateAll(fields: seq<string>, rows: seq<Row>): seq<Record>
  {
    seq(|rows|, i requires 0 <= i < |rows| => Hydrate(fields, rows[i]))
  }

  /** `[getattr(obj, x) for x in fields]`, raising on the first missing
      attribute. */
  function FieldValues(fields: seq<string>, obj: Record): Result<seq<Value>, RepoError>
    decreases |fields|
  {
    if |fields| == 0 then Success([])
    else if fields[0] !in obj.attrs then Failure(MissingAttribute(fields[0]))
    else
      match FieldValues(fields[1..], obj)
      case Success(rest) => Success([obj.attrs[fields[0]]] + rest)
      case Failure(e) => Failure(e)
  }

  /** Two records agree on every field of the table. */
  ghost predicate SameFields(fields: seq<string>, a: Record, b: Record)
  {
    forall f :: f in fields ==> f in a.attrs && f in b.attrs && a.attrs[f] == b.attrs[f]
  }

  // ---------------------------------------------------------------------
  // The table

  function RowIds(rows: seq<Row>): set<int>
  {
    set r | r in rows :: r.rowid
  }

  predicate UniqueRowids(rows: seq<Row>)
  {
    forall i, j :: 0 <= i < j < |rows| ==> rows[i].rowid != rows[j].rowid
  }

  /** Every row has a positive ROWID, no two rows share one, and every row
      has one value per field. */
  predicate WellFormedTable(fields: seq<string>, rows: seq<Row>)
  {
    && UniqueRowids(rows)
    && forall i :: 0 <= i < |rows| ==> rows[i].rowid > 0 && |rows[i].values| == |fields|
  }

  /** `... WHERE ROWID = pk`: the rows with that ROWID, in storage order. */
  function WithRowid(rows: seq<Row>, pk: int): seq<Row>
    decreases |rows|
  {
    if |rows| == 0 then []
    else (if rows[0].rowid == pk then [rows[0]] else []) + WithRowid(rows[1..], pk)
  }

  /** `DELETE ... WHERE ROWID = pk` */
  function WithoutRowid(rows: seq<Row>, pk: int): seq<Row>
    decreases |rows|
  {
    if |rows| == 0 then []
    else (if rows[0].rowid == pk then [] else [rows[0]]) + WithoutRowid(rows[1..], pk)
  }

  /** `UPDATE ... SET f1=?, ... WHERE ROWID = pk` */
  function Replace(rows: seq<Row>, pk: int, vals: seq<Value>): seq<Row>
  {
    seq(|rows|, i requires 0 <= i < |rows| =>
      if rows[i].rowid == pk then Row(pk, vals) else rows[i])
  }

  /** Position of the column `name`, if the table has one. */
  function ColumnIndex(fields: seq<string>, name: string): Option<nat>
    decreases |fields|
  {
    if |fields| == 0 then None
    else if fields[0] == name then Some(0)
    else match ColumnIndex(fields[1..], name)
      case Some(k) => Some(k + 1)
      case None => None
  }

  /** The first condition key that names no column. */
  function UnknownColumn(fields: seq<string>, cond: seq<(string, Value)>): Option<string>
    decreases |cond|
  {
    if |cond| == 0 then None
    else if ColumnIndex(fields, cond[0].0).None? then Some(cond[0].0)
    else UnknownColumn(fields, cond[1..])
  }

  /** The value of column `name` in `row`, if there is such a column. */
  function ColumnValue(fields: seq<string>, row: Row, name: string): Option<Value>
  {
    match ColumnIndex(fields, name)
    case Some(k) => if k < |row.values| then Some(row.values[k]) else None
    case None => None
  }

  /** `f1 = ? AND f2 = ? ...` holds of `row`. */
  predicate Satisfies(fields: seq<string>, row: Row, cond: seq<(string, Value)>)
  {
    forall k :: 0 <= k < |cond| ==>
      ColumnValue(fields, row, cond[k].0).Some? && SqlEquals(ColumnValue(fields, row, cond[k].0).value, cond[k].1)
  }

  /** The rows a conditioned `SELECT` returns, in storage order. */
  function Matching(fields: seq<string>, rows: seq<Row>, cond: seq<(string, Value)>): seq<Row>
    decreases |rows|
  {
    if |rows| == 0 then []
    else (if Satisfies(fields, rows[0], cond) then [rows[0]] else []) + Matching(fields, rows[1..], cond)
  }

  // ---------------------------------------------------------------------
  // What the reading operations return

  /** `get(pk)`: nothing, the record, or an error when several rows match. */
  function GetSpec(fields: seq<string>, rows: seq<Row>, pk: int): Result<Option<Record>, RepoError>
  {
    var found := WithRowid(rows, pk);
    if |found| == 0 then Success(None)
    else if |found| > 1 then Failure(SeveralEntries(pk))
    else Success(Some(Hydrate(fields, found[0])))
  }

  /** `get_all(where)`: every row, or the rows meeting all conditions. */
  function GetAllSpec(fields: seq<string>, rows: seq<Row>, where: Option<seq<(string, Value)>>): Result<seq<Record>, RepoError>
  {
    match where
    case None => Success(HydrateAll(fields, rows))
    case Some(cond) =>
      if |cond| == 0 then Failure(EmptyCondition)
      else if UnknownColumn(fields, cond).Some? then Failure(NoSuchColumn(UnknownColumn(fields, cond).value))
      else Success(HydrateAll(fields, Matching(fields, rows, cond)))
  }

  /** `dict(zip(patterns.keys(), [f"%{v}%" for v in patterns.values()]))` */
  function PercentWrap(patterns: seq<(string, string)>): seq<(string, Value)>
  {
    seq(|patterns|, i requires 0 <= i < |patterns| => (patterns[i].0, Text("%" + patterns[i].1 + "%")))
  }

  // ---------------------------------------------------------------------
  // Substring patterns

  /** `needle` occurs in `hay` starting at position `i`. */
  predicate OccursAt(hay: string, needle: string, i: int)
  {
    0 <= i <= |hay| - |needle| && hay[i..i + |needle|] == needle
  }

  /** `needle` occurs in `hay` as a contiguous piece. */
  predicate Contains(hay: string, needle: string)
  {
    exists i :: 0 <= i <= |hay| - |needle| && OccursAt(hay, needle, i)
  }

  /** The text of a stored value, as `LIKE` compares it; NULL has none. */
  function TextOf(v: Value): Option<string>
  {
    match v
    case Null => None
    case Int(i) => Some(IntToDecimal(i))
    case Text(s) => Some(s)
  }

  /** Every pattern value occurs in the text of its column. */
  predicate HoldsPatterns(fields: seq<string>, row: Row, patterns: seq<(string, string)>)
  {
    forall k :: 0 <= k < |patterns| ==>
      && ColumnValue(fields, row, patterns[k].0).Some?
      && TextOf(ColumnValue(fields, row, patterns[k].0).value).Some?
      && Contains(TextOf(ColumnValue(fields, row, patterns[k].0).value).value, patterns[k].1)
  }

  function Containing(fields: seq<string>, rows: seq<Row>, patterns: seq<(string, string)>): seq<Row>
    decreases |rows|
  {
    if |rows| == 0 then []
    else (if HoldsPatterns(fields, rows[0], patterns) then [rows[0]] else []) + Containing(fields, rows[1..], patterns)
  }

  /** The pattern lookup the repository interface describes: the same
      errors as `get_all`, and the rows whose fields contain the given
      strings. */
  function ContainingSpec(fields: seq<string>, rows: seq<Row>, patterns: seq<(string, string)>): Result<seq<Record>, RepoError>
  {
    if |patterns| == 0 then Failure(EmptyCondition)
    else if UnknownColumn(fields, PercentWrap(patterns)).Some? then Failure(NoSuchColumn(UnknownColumn(fields, PercentWrap(patterns)).value))
    else Success(HydrateAll(fields, Containing(fields, rows, patterns)))
  }

  lemma {:induction false} ContainingSpecRows(fields: seq<string>, rows: seq<Row>, patterns: seq<(string, string)>)
    ensures forall r :: r in Containing(fields, rows, patterns) <==> r in rows && HoldsPatterns(fields, r, patterns)
    decreases |rows|
  {
    if |rows| > 0 {
      ContainingSpecRows(fields, rows[1..], patterns);
      assert rows == [rows[0]] + rows[1..];
    }
  }

  // ---------------------------------------------------------------------
  // What the writing operations do to the table

  /** `add(obj)` when the engine picks the ROWID `id`. */
  function AddSpec(fields: seq<string>, rows: seq<Row>, obj: Record, id: int): Result<seq<Row>, RepoError>
  {
    if obj.pk != Some(0) then Failure(PkAlreadySet)
    else match FieldValues(fields, obj)
      case Failure(e) => Failure(e)
      case Success(vals) => Success(rows + [Row(id, vals)])
  }

  /** `update(obj)` */
  function UpdateSpec(fields: seq<string>, rows: seq<Row>, obj: Record): Result<seq<Row>, RepoError>
  {
    if obj.pk.None? then Failure(PkMissing)
    else match FieldValues(fields, obj)
      case Failure(e) => Failure(e)
      case Success(vals) =>
        if |WithRowid(rows, obj.pk.value)| == 0 then Failure(NotFound(obj.pk.value))
        else Success(Replace(rows, obj.pk.value, vals))
  }

  /** `delete(pk)` */
  function DeleteSpec(rows: seq<Row>, pk: int): Result<seq<Row>, RepoError>
  {
    if |WithRowid(rows, pk)| == 0 then Failure(NotFound(pk)) else Success(WithoutRowid(rows, pk))
  }

  // ---------------------------------------------------------------------
  // Facts about records

  lemma {:induction false} ZipNAt(names: seq<string>, vals: seq<Value>, n: nat)
    requires Distinct(names) && n <= |names| && n <= |vals|
    ensures forall k :: 0 <= k < n ==> names[k] in ZipN(names, vals, n) && ZipN(names, vals, n)[names[k]] == vals[k]
    ensures forall f :: f in ZipN(names, vals, n) ==> f in names[..n]
    decreases n
  {
    if n > 0 {
      ZipNAt(names, vals, n - 1);
      forall f | f in ZipN(names, vals, n)
        ensures f in names[..n]
      {
        if f != names[n - 1] {
          assert f in names[..n - 1];
          assert names[..n - 1] <= names[..n];
        }
      }
    }
  }

  /** The record built from a well-formed row has exactly the table's
      fields as attributes, each holding the stored value, and the ROWID
      as its `pk`. */
  lemma HydrateAttrs(fields: seq<string>, row: Row)
    requires Distinct(fields) && |row.values| == |fields|
    ensures Hydrate(fields, row).pk == Some(row.rowid)
    ensures forall k :: 0 <= k < |fields| ==> fields[k] in Hydrate(fields, row).attrs && Hydrate(fields, row).attrs[fields[k]] == row.values[k]
    ensures forall f :: f in Hydrate(fields, row).attrs <==> f in fields
  {
    ZipNAt(fields, row.values, |fields|);
    assert fields[..|fields|] == fields;
  }

  /** `[getattr(obj, x) for x in fields]` succeeds exactly when every field
      is an attribute, and then lists the attributes in field order. */
  lemma {:induction false} FieldValuesSpec(fields: seq<string>, obj: Record)
    ensures FieldValues(fields, obj).Success? <==> forall f :: f in fields ==> f in obj.attrs
    ensures FieldValues(fields, obj).Success? ==>
      |FieldValues(fields, obj).value| == |fields| &&
      forall k :: 0 <= k < |fields| ==> FieldValues(fields, obj).value[k] == obj.attrs[fields[k]]
    ensures FieldValues(fields, obj).Failure? ==> FieldValues(fields, obj).error.MissingAttribute?
    decreases |fields|
  {
    if |fields| > 0 {
      FieldValuesSpec(fields[1..], obj);
      if fields[0] in obj.attrs && FieldValues(fields[1..], obj).Success? {
        var vs := FieldValues(fields, obj).value;
        forall k | 0 <= k < |fields|
          ensures vs[k] == obj.attrs[fields[k]]
        {
          if k > 0 {
            assert fields[k] == fields[1..][k - 1];
          }
        }
      }
      if !forall f :: f in fields[1..] ==> f in obj.attrs {
        var f :| f in fields[1..] && f !in obj.attrs;
        assert f in fields;
      }
    }
  }

  /** Reading a row and writing the record back stores the same values. */
  lemma HydrateRoundTrip(fields: seq<string>, row: Row)
    requires Distinct(fields) && |row.values| == |fields|
    ensures FieldValues(fields, Hydrate(fields, row)) == Success(row.values)
  {
    HydrateAttrs(fields, row);
    FieldValuesSpec(fields, Hydrate(fields, row));
    var h := Hydrate(fields, row);
    assert forall f :: f in fields ==> f in h.attrs;
    assert FieldValues(fields, h).Success?;
    var vs := FieldValues(fields, h).value;
    assert |vs| == |row.values|;
    assert forall k :: 0 <= k < |vs| ==> vs[k] == h.attrs[fields[k]] == row.values[k];
    assert vs == row.values;
  }

  // ---------------------------------------------------------------------
  // Facts about the table

  lemma {:induction false} WithRowidSpec(rows: seq<Row>, pk: int)
    ensures forall r :: r in WithRowid(rows, pk) <==> r in rows && r.rowid == pk
    ensures |WithRowid(rows, pk)| == 0 <==> pk !in RowIds(rows)
    decreases |rows|
  {
    if |rows| > 0 {
      WithRowidSpec(rows[1..], pk);
      assert rows == [rows[0]] + rows[1..];
      if pk in RowIds(rows) && rows[0].rowid != pk {
        var r :| r in rows && r.rowid == pk;
        assert r in rows[1..];
      }
    }
  }

  lemma {:induction false} WithRowidUnique(rows: seq<Row>, i: nat)
    requires UniqueRowids(rows) && i < |rows|
    ensures WithRowid(rows, rows[i].rowid) == [rows[i]]
    decreases |rows|
  {
    var pk := rows[i].rowid;
    if i == 0 {
      WithRowidSpec(rows[1..], pk);
      forall r | r in rows[1..]
        ensures r.rowid != pk
      {
        var j :| 0 <= j < |rows[1..]| && rows[1..][j] == r;
        assert rows[j + 1] == r;
      }
    } else {
      WithRowidUnique(rows[1..], i - 1);
    }
  }

  /** In a well-formed table at most one row carries a given ROWID. */
  lemma WithRowidAtMostOne(rows: seq<Row>, pk: int)
    requires UniqueRowids(rows)
    ensures |WithRowid(rows, pk)| <= 1
  {
    WithRowidSpec(rows, pk);
    if pk in RowIds(rows) {
      var r :| r in rows && r.rowid == pk;
      var i :| 0 <= i < |rows| && rows[i] == r;
      WithRowidUnique(rows, i);
    }
  }

  lemma {:induction false} WithoutRowidSpec(rows: seq<Row>, pk: int)
    ensures forall r :: r in WithoutRowid(rows, pk) <==> r in rows && r.rowid != pk
    ensures RowIds(WithoutRowid(rows, pk)) == RowIds(rows) - {pk}
    ensures |WithoutRowid(rows, pk)| <= |rows|
    decreases |rows|
  {
    if |rows| > 0 {
      WithoutRowidSpec(rows[1..], pk);
      assert rows == [rows[0]] + rows[1..];
    }
  }

  lemma {:induction false} WithoutRowidWellFormed(fields: seq<string>, rows: seq<Row>, pk: int)
    requires WellFormedTable(fields, rows)
    ensures WellFormedTable(fields, WithoutRowid(rows, pk))
    decreases |rows|
  {
    if |rows| > 0 {
      WithoutRowidWellFormed(fields, rows[1..], pk);
      WithoutRowidSpec(rows[1..], pk);
      var rest := WithoutRowid(rows[1..], pk);
      if rows[0].rowid != pk {
        forall r | r in rest
          ensures r.rowid != rows[0].rowid
        {
          var j :| 0 <= j < |rows[1..]| && rows[1..][j] == r;
          assert rows[j + 1] == r;
        }
      }
    }
  }

  lemma {:induction false} MatchingSpec(fields: seq<string>, rows: seq<Row>, cond: seq<(string, Value)>)
    ensures forall r :: r in Matching(fields, rows, cond) <==> r in rows && Satisfies(fields, r, cond)
    ensures |Matching(fields, rows, cond)| <= |rows|
    decreases |rows|
  {
    if |rows| > 0 {
      MatchingSpec(fields, rows[1..], cond);
      assert rows == [rows[0]] + rows[1..];
    }
  }

  /** The selection keeps storage order: selecting from a concatenation
      concatenates the selections from the parts. */
  lemma {:induction false} MatchingConcat(fields: seq<string>, a: seq<Row>, b: seq<Row>, cond: seq<(string, Value)>)
    ensures Matching(fields, a + b, cond) == Matching(fields, a, cond) + Matching(fields, b, cond)
    decreases |a|
  {
    if |a| == 0 {
      assert a + b == b;
    } else {
      var head := if Satisfies(fields, a[0], cond) then [a[0]] else [];
      assert (a + b)[0] == a[0] && (a + b)[1..] == a[1..] + b;
      assert Matching(fields, a + b, cond) == head + Matching(fields, a[1..] + b, cond);
      MatchingConcat(fields, a[1..], b, cond);
      assert Matching(fields, a, cond) == head + Matching(fields, a[1..], cond);
    }
  }

  lemma {:induction false} MatchingNone(fields: seq<string>, rows: seq<Row>, cond: seq<(string, Value)>)
    requires forall r :: r in rows ==> !Satisfies(fields, r, cond)
    ensures Matching(fields, rows, cond) == []
    decreases |rows|
  {
    if |rows| > 0 {
      assert rows[0] in rows;
      assert forall r :: r in rows[1..] ==> r in rows;
      MatchingNone(fields, rows[1..], cond);
    }
  }

  lemma ReplaceWellFormed(fields: seq<string>, rows: seq<Row>, pk: int, vals: seq<Value>)
    requires WellFormedTable(fields, rows) && |vals| == |fields|
    ensures WellFormedTable(fields, Replace(rows, pk, vals))
    ensures RowIds(Replace(rows, pk, vals)) == RowIds(rows)
  {
    var r' := Replace(rows, pk, vals);
    assert forall i :: 0 <= i < |rows| ==> r'[i].rowid == rows[i].rowid;
    forall x | x in RowIds(rows)
      ensures x in RowIds(r')
    {
      var r :| r in rows && r.rowid == x;
      var i :| 0 <= i < |rows| && rows[i] == r;
      assert r'[i] in r';
    }
  }

  lemma FreshRowidExists(rows: seq<Row>) returns (id: int)
    ensures id > 0 && id !in RowIds(rows)
  {
    id := MaxRowid(rows) + 1;
    MaxRowidBound(rows);
  }

  function MaxRowid(rows: seq<Row>): nat
    decreases |rows|
  {
    if |rows| == 0 then 0
    else
      var m := MaxRowid(rows[1..]);
      if rows[0].rowid > m then rows[0].rowid else m
  }

  lemma {:induction false} MaxRowidBound(rows: seq<Row>)
    ensures forall r :: r in rows ==> r.rowid <= MaxRowid(rows)
    decreases |rows|
  {
    if |rows| > 0 {
      MaxRowidBound(rows[1..]);
      assert rows == [rows[0]] + rows[1..];
    }
  }

  lemma AppendWellFormed(fields: seq<string>, rows: seq<Row>, id: int, vals: seq<Value>)
    requires WellFormedTable(fields, rows) && id > 0 && id !in RowIds(rows) && |vals| == |fields|
    ensures WellFormedTable(fields, rows + [Row(id, vals)])
    ensures RowIds(rows + [Row(id, vals)]) == RowIds(rows) + {id}
  {
    var r' := rows + [Row(id, vals)];
    forall i | 0 <= i < |rows|
      ensures r'[i].rowid != id
    {
      assert rows[i] in rows;
    }
  }

  // ---------------------------------------------------------------------
  // The repository's promises, stated on the table

  /** Add, then get by the new key: the record read back carries the new
      key and agrees with the added object on every field. */
  lemma AddThenGet(fields: seq<string>, rows: seq<Row>, obj: Record, id: int)
    requires Distinct(fields) && WellFormedTable(fields, rows)
    requires id > 0 && id !in RowIds(rows)
    requires AddSpec(fields, rows, obj, id).Success?
    ensures GetSpec(fields, AddSpec(fields, rows, obj, id).value, id).Success?
    ensures GetSpec(fields, AddSpec(fields, rows, obj, id).value, id).value.Some?
    ensures var r := GetSpec(fields, AddSpec(fields, rows, obj, id).value, id).value.value;
      r.pk == Some(id) && SameFields(fields, r, obj)
  {
    var vals := FieldValues(fields, obj).value;
    FieldValuesSpec(fields, obj);
    var rows' := rows + [Row(id, vals)];
    AppendWellFormed(fields, rows, id, vals);
    WithRowidUnique(rows', |rows|);
    HydrateAttrs(fields, Row(id, vals));
    var r := Hydrate(fields, Row(id, vals));
    forall f | f in fields
      ensures f in r.attrs && f in obj.attrs && r.attrs[f] == obj.attrs[f]
    {
      var k :| 0 <= k < |fields| && fields[k] == f;
    }
  }

  /** A key that is not in the table reads as nothing, not as an error. */
  lemma GetAbsent(fields: seq<string>, rows: seq<Row>, pk: int)
    requires pk !in RowIds(rows)
    ensures GetSpec(fields, rows, pk) == Success(None)
  {
    WithRowidSpec(rows, pk);
  }

  /** In a well-formed table `get` never finds several rows. */
  lemma GetNeverSeveral(fields: seq<string>, rows: seq<Row>, pk: int)
    requires WellFormedTable(fields, rows)
    ensures GetSpec(fields, rows, pk).Success?
    ensures GetSpec(fields, rows, pk).value.Some? <==> pk in RowIds(rows)
  {
    WithRowidAtMostOne(rows, pk);
    WithRowidSpec(rows, pk);
  }

  /** Update, then get: the record read back holds the new field values;
      every other key reads as before. */
  lemma UpdateThenGet(fields: seq<string>, rows: seq<Row>, obj: Record, other: int)
    requires Distinct(fields) && WellFormedTable(fields, rows)
    requires UpdateSpec(fields, rows, obj).Success?
    requires other != obj.pk.value
    ensures var rows' := UpdateSpec(fields, rows, obj).value;
      && GetSpec(fields, rows', obj.pk.value).Success?
      && GetSpec(fields, rows', obj.pk.value).value.Some?
      && SameFields(fields, GetSpec(fields, rows', obj.pk.value).value.value, obj)
      && GetSpec(fields, rows', obj.pk.value).value.value.pk == obj.pk
      && GetSpec(fields, rows', other) == GetSpec(fields, rows, other)
  {
    var pk := obj.pk.value;
    var vals := FieldValues(fields, obj).value;
    FieldValuesSpec(fields, obj);
    var rows' := Replace(rows, pk, vals);
    ReplaceWellFormed(fields, rows, pk, vals);
    WithRowidSpec(rows, pk);
    var r :| r in rows && r.rowid == pk;
    var i :| 0 <= i < |rows| && rows[i] == r;
    assert rows'[i] == Row(pk, vals);
    WithRowidUnique(rows', i);
    HydrateAttrs(fields, Row(pk, vals));
    var h := Hydrate(fields, Row(pk, vals));
    forall f | f in fields
      ensures f in h.attrs && f in obj.attrs && h.attrs[f] == obj.attrs[f]
    {
      var k :| 0 <= k < |fields| && fields[k] == f;
    }
    ReplaceOthers(rows, pk, vals, other);
  }

  lemma {:induction false} ReplaceOthers(rows: seq<Row>, pk: int, vals: seq<Value>, other: int)
    requires other != pk
    ensures WithRowid(Replace(rows, pk, vals), other) == WithRowid(rows, other)
    decreases |rows|
  {
    if |rows| > 0 {
      ReplaceOthers(rows[1..], pk, vals, other);
      assert Replace(rows, pk, vals)[1..] == Replace(rows[1..], pk, vals);
    }
  }

  /** Delete, then get: the key reads as nothing, and deleting it again
      fails with NotFound. */
  lemma DeleteThenGet(fields: seq<string>, rows: seq<Row>, pk: int)
    requires DeleteSpec(rows, pk).Success?
    ensures GetSpec(fields, DeleteSpec(rows, pk).value, pk) == Success(None)
    ensures DeleteSpec(DeleteSpec(rows, pk).value, pk) == Failure(NotFound(pk))
  {
    WithoutRowidSpec(rows, pk);
    WithRowidSpec(WithoutRowid(rows, pk), pk);
  }

  /** `get_all(where)` returns exactly the stored rows meeting every
      condition, each read back as a record. */
  lemma GetAllExact(fields: seq<string>, rows: seq<Row>, cond: seq<(string, Value)>)
    requires |cond| > 0 && UnknownColumn(fields, cond).None?
    ensures GetAllSpec(fields, rows, Some(cond)).Success?
    ensures forall rec :: rec in GetAllSpec(fields, rows, Some(cond)).value <==>
      exists r :: r in rows && Satisfies(fields, r, cond) && rec == Hydrate(fields, r)
  {
    MatchingSpec(fields, rows, cond);
    var m := Matching(fields, rows, cond);
    var objs := GetAllSpec(fields, rows, Some(cond)).value;
    forall rec
      ensures rec in objs <==> exists r :: r in rows && Satisfies(fields, r, cond) && rec == Hydrate(fields, r)
    {
      if rec in objs {
        var i :| 0 <= i < |objs| && objs[i] == rec;
        assert m[i] in m;
      }
      if exists r :: r in rows && Satisfies(fields, r, cond) && rec == Hydrate(fields, r) {
        var r :| r in rows && Satisfies(fields, r, cond) && rec == Hydrate(fields, r);
        var i :| 0 <= i < |m| && m[i] == r;
        assert objs[i] == rec;
      }
    }
  }

  // ---------------------------------------------------------------------
  // Rewriting one column, deleting several rows

  function SetAt(vals: seq<Value>, k: nat, v: Value): (r: seq<Value>)
    ensures |r| == |vals|
  {
    if k < |vals| then vals[k := v] else vals
  }

  /** Every row whose ROWID is in `ids` gets column `k` set to what `f`
      computes from the record read from it; the other rows stay. */
  function Rewrite(fields: seq<string>, rows: seq<Row>, ids: set<int>, k: nat, f: Record -> Value): seq<Row>
  {
    seq(|rows|, i requires 0 <= i < |rows| =>
      if rows[i].rowid in ids then Row(rows[i].rowid, SetAt(rows[i].values, k, f(Hydrate(fields, rows[i])))) else rows[i])
  }

  lemma RewriteWellFormed(fields: seq<string>, rows: seq<Row>, ids: set<int>, k: nat, f: Record -> Value)
    requires WellFormedTable(fields, rows)
    ensures WellFormedTable(fields, Rewrite(fields, rows, ids, k, f))
    ensures RowIds(Rewrite(fields, rows, ids, k, f)) == RowIds(rows)
  {
    var r' := Rewrite(fields, rows, ids, k, f);
    forall i | 0 <= i < |rows|
      ensures r'[i].rowid == rows[i].rowid && |r'[i].values| == |rows[i].values|
    {
      if rows[i].rowid in ids {
        var v := SetAt(rows[i].values, k, f(Hydrate(fields, rows[i])));
        assert r'[i] == Row(rows[i].rowid, v);
      }
    }
    forall x | x in RowIds(rows)
      ensures x in RowIds(r')
    {
      var r :| r in rows && r.rowid == x;
      var i :| 0 <= i < |rows| && rows[i] == r;
      assert r'[i] in r';
    }
  }

  /** Writing the rewritten values of one more row, by key, extends the
      rewrite to that row. */
  lemma RewriteStep(fields: seq<string>, rows: seq<Row>, ids: set<int>, k: nat, f: Record -> Value, i: nat)
    requires UniqueRowids(rows) && i < |rows| && rows[i].rowid !in ids
    ensures Replace(Rewrite(fields, rows, ids, k, f), rows[i].rowid, SetAt(rows[i].values, k, f(Hydrate(fields, rows[i]))))
      == Rewrite(fields, rows, ids + {rows[i].rowid}, k, f)
  {
  }

  /** `UPDATE` of a row with the values it already has changes nothing. */
  lemma ReplaceSame(rows: seq<Row>, i: nat)
    requires UniqueRowids(rows) && i < |rows|
    ensures Replace(rows, rows[i].rowid, rows[i].values) == rows
  {
  }

  /** The rows whose ROWID is not in `ids`, in storage order. */
  function WithoutRowids(rows: seq<Row>, ids: set<int>): seq<Row>
    decreases |rows|
  {
    if |rows| == 0 then []
    else (if rows[0].rowid in ids then [] else [rows[0]]) + WithoutRowids(rows[1..], ids)
  }

  lemma {:induction false} WithoutRowidsSpec(rows: seq<Row>, ids: set<int>)
    ensures forall r :: r in WithoutRowids(rows, ids) <==> r in rows && r.rowid !in ids
    ensures RowIds(WithoutRowids(rows, ids)) == RowIds(rows) - ids
    decreases |rows|
  {
    if |rows| > 0 {
      WithoutRowidsSpec(rows[1..], ids);
      assert rows == [rows[0]] + rows[1..];
    }
  }

  lemma {:induction false} WithoutRowidsStep(rows: seq<Row>, ids: set<int>, id: int)
    ensures WithoutRowid(WithoutRowids(rows, ids), id) == WithoutRowids(rows, ids + {id})
    decreases |rows|
  {
    if |rows| > 0 {
      WithoutRowidsStep(rows[1..], ids, id);
      var head := if rows[0].rowid in ids then [] else [rows[0]];
      var rest := WithoutRowids(rows[1..], ids);
      assert WithoutRowids(rows, ids) == head + rest;
      if head == [] {
        assert head + rest == rest;
      } else {
        assert (head + rest)[1..] == rest;
      }
    }
  }

  lemma {:induction false} WithoutRowidsWellFormed(fields: seq<string>, rows: seq<Row>, ids: set<int>)
    requires WellFormedTable(fields, rows)
    ensures WellFormedTable(fields, WithoutRowids(rows, ids))
    decreases |rows|
  {
    if |rows| > 0 {
      WithoutRowidsWellFormed(fields, rows[1..], ids);
      WithoutRowidsSpec(rows[1..], ids);
      var rest := WithoutRowids(rows[1..], ids);
      if rows[0].rowid !in ids {
        forall r | r in rest
          ensures r.rowid != rows[0].rowid
        {
          var j :| 0 <= j < |rows[1..]| && rows[1..][j] == r;
          assert rows[j + 1] == r;
        }
      }
    }
  }

  /** The rows a conditioned `SELECT` returns have distinct ROWIDs when the
      table's do. */
  lemma {:induction false} MatchingUnique(fields: seq<string>, rows: seq<Row>, cond: seq<(string, Value)>)
    requires UniqueRowids(rows)
    ensures UniqueRowids(Matching(fields, rows, cond))
    decreases |rows|
  {
    if |rows| > 0 {
      MatchingUnique(fields, rows[1..], cond);
      MatchingSpec(fields, rows[1..], cond);
      var rest := Matching(fields, rows[1..], cond);
      if Satisfies(fields, rows[0], cond) {
        var m := [rows[0]] + rest;
        forall i, j | 0 <= i < j < |m|
          ensures m[i].rowid != m[j].rowid
        {
          assert m[j] == rest[j - 1];
          if i == 0 {
            assert rest[j - 1] in rows[1..];
            var t :| 0 <= t < |rows[1..]| && rows[1..][t] == rest[j - 1];
            assert rows[t + 1] == rest[j - 1];
          } else {
            assert m[i] == rest[i - 1];
          }
        }
      }
    }
  }

  lemma ColumnIndexOf(fields: seq<string>, k: nat)
    requires Distinct(fields) && k < |fields|
    ensures ColumnIndex(fields, fields[k]) == Some(k)
    decreases k
  {
    if k > 0 {
      assert fields[1..][k - 1] == fields[k];
      assert Distinct(fields[1..]) by {
        forall i, j | 0 <= i < j < |fields[1..]|
          ensures fields[1..][i] != fields[1..][j]
        {
          assert fields[1..][i] == fields[i + 1] && fields[1..][j] == fields[j + 1];
        }
      }
      ColumnIndexOf(fields[1..], k - 1);
    }
  }

  /** A record read from a row, with field `k` given a new value, writes
      back the row's values with just that column replaced. */
  lemma SetFieldRoundTrip(fields: seq<string>, row: Row, k: nat, v: Value, pk: Option<int>)
    requires Distinct(fields) && |row.values| == |fields| && k < |fields|
    ensures FieldValues(fields, Record(Hydrate(fields, row).attrs[fields[k] := v], pk)) == Success(SetAt(row.values, k, v))
  {
    HydrateAttrs(fields, row);
    var rec := Record(Hydrate(fields, row).attrs[fields[k] := v], pk);
    FieldValuesSpec(fields, rec);
    assert forall f :: f in fields ==> f in rec.attrs;
    var vs := FieldValues(fields, rec).value;
    forall j | 0 <= j < |fields|
      ensures vs[j] == SetAt(row.values, k, v)[j]
    {
      if j != k {
        assert fields[j] != fields[k];
      }
    }
    assert vs == SetAt(row.values, k, v);
  }

  /** With one equality condition on column `k`, a stored row is selected
      exactly when its value there is that (non-NULL) value. */
  lemma OneColumnMatch(fields: seq<string>, rows: seq<Row>, name: string, k: nat, v: Value, r: Row)
    requires WellFormedTable(fields, rows) && r in rows
    requires ColumnIndex(fields, name) == Some(k) && k < |fields|
    ensures r.rowid in RowIds(Matching(fields, rows, [(name, v)])) <==> v != Null && r.values[k] == v
  {
    MatchingSpec(fields, rows, [(name, v)]);
    var m := Matching(fields, rows, [(name, v)]);
    var i :| 0 <= i < |rows| && rows[i] == r;
    assert ColumnValue(fields, r, name) == Some(r.values[k]);
    if r.rowid in RowIds(m) {
      var s :| s in m && s.rowid == r.rowid;
      var j :| 0 <= j < |rows| && rows[j] == s;
      assert i == j;
      assert Satisfies(fields, s, [(name, v)]);
      assert [(name, v)][0] == (name, v);
    }
    if v != Null && r.values[k] == v {
      assert Satisfies(fields, r, [(name, v)]);
      assert r in m;
    }
  }
}
