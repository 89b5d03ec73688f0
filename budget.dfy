/** `bookkeeper/models/budget.py`: the `Period` enumeration and the `Budget`
    dataclass, whose generated `__init__` binds call arguments with Python's
    rules; plus the budget record the coordinator works with. */
module Budgets {
  import opened Wrappers
  import opened Records

  datatype Period = Day | Week | Month

  /** `Period.X.value` */
  function PeriodValue(p: Period): int
  {
    match p
    case Day => 0
    case Week => 1
    case Month => 2
  }

  /** `Period(v)`: the member with that value; `None` where Python raises
      `ValueError`. */
  function PeriodOf(v: int): Option<Period>
  {
    if v == 0 then Some(Day) else if v == 1 then Some(Week) else if v == 2 then Some(Month) else None
  }

  /** The enumeration has exactly the values 0, 1 and 2, and each member is
      found again from its value. */
  lemma PeriodValues(p: Period, v: int)
    ensures PeriodOf(PeriodValue(p)) == Some(p)
    ensures PeriodOf(v).Some? <==> 0 <= v <= 2
    ensures PeriodOf(v).Some? ==> PeriodValue(PeriodOf(v).value) == v
  {
  }

  // ---------------------------------------------------------------------
  // Argument binding of a generated `__init__`

  /** An argument value as the model sees it: dataclasses do not check
      types, so any of these can land in any field. */
  datatype Arg = IntArg(i: int) | StrArg(s: string) | PeriodArg(p: Period)

  /** The `TypeError`s of a Python call. */
  datatype BindError =
    | UnexpectedKeyword(name: string)
    | MultipleValues(name: string)
    | TooManyPositional(expected: nat, given: nat)
    | MissingArguments(names: seq<string>)

  function IndexOf(names: seq<string>, x: string): Option<nat>
    decreases |names|
  {
    if |names| == 0 then None
    else if names[0] == x then Some(0)
    else match IndexOf(names[1..], x)
      case Some(k) => Some(k + 1)
      case None => None
  }

  lemma {:induction false} IndexOfSpec(names: seq<string>, x: string)
    ensures IndexOf(names, x).Some? <==> x in names
    ensures IndexOf(names, x).Some? ==> IndexOf(names, x).value < |names| && names[IndexOf(names, x).value] == x
    decreases |names|
  {
    if |names| > 0 {
      IndexOfSpec(names[1..], x);
      if x in names && names[0] != x {
        var j :| 0 <= j < |names| && names[j] == x;
        assert names[1..][j - 1] == x;
      }
    }
  }

  /** The value passed by keyword for `name`, if any. */
  function Keyword(kwargs: seq<(string, Arg)>, name: string): Option<Arg>
    decreases |kwargs|
  {
    if |kwargs| == 0 then None
    else if kwargs[0].0 == name then Some(kwargs[0].1)
    else Keyword(kwargs[1..], name)
  }

  /** The first keyword, in call order, that names no parameter or a
      parameter already filled by one of the `n` positional arguments. */
  function BadKeyword(params: seq<string>, n: nat, kwargs: seq<(string, Arg)>): Option<BindError>
    decreases |kwargs|
  {
    if |kwargs| == 0 then None
    else match IndexOf(params, kwargs[0].0)
      case None => Some(UnexpectedKeyword(kwargs[0].0))
      case Some(k) =>
        if k < n then Some(MultipleValues(kwargs[0].0)) else BadKeyword(params, n, kwargs[1..])
  }

  /** The parameters from position `from` on that get no value. */
  function Missing(params: seq<string>, from: nat, defaults: map<string, Arg>, kwargs: seq<(string, Arg)>): seq<string>
    decreases |params| - from
  {
    if from >= |params| then []
    else
      (if Keyword(kwargs, params[from]).None? && params[from] !in defaults then [params[from]] else [])
      + Missing(params, from + 1, defaults, kwargs)
  }

  lemma {:induction false} MissingSpec(params: seq<string>, from: nat, defaults: map<string, Arg>, kwargs: seq<(string, Arg)>)
    ensures |Missing(params, from, defaults, kwargs)| == 0 <==>
      forall i :: from <= i < |params| ==> Keyword(kwargs, params[i]).Some? || params[i] in defaults
    decreases |params| - from
  {
    if from < |params| {
      MissingSpec(params, from + 1, defaults, kwargs);
    }
  }

  /** The argument bound to parameter `i` once binding has succeeded. */
  function BoundValue(params: seq<string>, defaults: map<string, Arg>, args: seq<Arg>, kwargs: seq<(string, Arg)>, i: nat): Arg
    requires i < |params|
    requires i < |args| || Keyword(kwargs, params[i]).Some? || params[i] in defaults
  {
    if i < |args| then args[i]
    else if Keyword(kwargs, params[i]).Some? then Keyword(kwargs, params[i]).value
    else defaults[params[i]]
  }

  /** Binding a call to a function with parameters `params`: keywords are
      checked first, then the positional count, then missing parameters,
      as CPython does. */
  function Bind(params: seq<string>, defaults: map<string, Arg>, args: seq<Arg>, kwargs: seq<(string, Arg)>): Result<seq<Arg>, BindError>
  {
    var n := Min(|args|, |params|);
    var bad := BadKeyword(params, n, kwargs);
    if bad.Some? then Failure(bad.value)
    else if |args| > |params| then Failure(TooManyPositional(|params|, |args|))
    else
      var missing := Missing(params, |args|, defaults, kwargs);
      if |missing| > 0 then Failure(MissingArguments(missing))
      else
        MissingSpec(params, |args|, defaults, kwargs);
        Success(seq(|params|, i requires 0 <= i < |params| => BoundValue(params, defaults, args, kwargs, i)))
  }

  // ---------------------------------------------------------------------
  // The Budget dataclass

  datatype Budget = Budget(amount: Arg, categoryId: Arg, period: Arg, pk: Arg)

  const BudgetParams: seq<string> := ["amount", "category_id", "period", "pk"]

  /** `pk: int = 0` */
  const BudgetDefaults: map<string, Arg> := map["pk" := IntArg(0)]

  /** `Budget(*args, **kwargs)` */
  function NewBudget(args: seq<Arg>, kwargs: seq<(string, Arg)>): Result<Budget, BindError>
  {
    match Bind(BudgetParams, BudgetDefaults, args, kwargs)
    case Failure(e) => Failure(e)
    case Success(v) => Success(Budget(v[0], v[1], v[2], v[3]))
  }

  lemma BudgetParamIndices()
    ensures IndexOf(BudgetParams, "amount") == Some(0)
    ensures IndexOf(BudgetParams, "category_id") == Some(1)
    ensures IndexOf(BudgetParams, "period") == Some(2)
    ensures IndexOf(BudgetParams, "pk") == Some(3)
  {
    assert BudgetParams[1..][1..][1..] == ["pk"];
  }

  function BudgetKeywords(amount: Arg, categoryId: Arg, period: Arg, pk: Arg): seq<(string, Arg)>
  {
    [("amount", amount), ("category_id", categoryId), ("period", period), ("pk", pk)]
  }

  lemma BudgetKeywordLookups(amount: Arg, categoryId: Arg, period: Arg, pk: Arg)
    ensures var kw := BudgetKeywords(amount, categoryId, period, pk);
      && Keyword(kw, "amount") == Some(amount)
      && Keyword(kw, "category_id") == Some(categoryId)
      && Keyword(kw, "period") == Some(period)
      && Keyword(kw, "pk") == Some(pk)
  {
    var kw := BudgetKeywords(amount, categoryId, period, pk);
    assert kw[1..] == [("category_id", categoryId), ("period", period), ("pk", pk)];
    assert kw[1..][1..] == [("period", period), ("pk", pk)];
    assert kw[1..][1..][1..] == [("pk", pk)];
    assert "amount"[0] != "category_id"[0] && "amount"[0] != "period"[0] && "amount"[0] != "pk"[0];
    assert "category_id"[0] != "period"[0] && "category_id"[0] != "pk"[0] && "period"[1] != "pk"[1];
    assert Keyword(kw[1..][1..], "period") == Some(period);
    assert Keyword(kw[1..][1..][1..], "pk") == Some(pk);
    assert Keyword(kw[1..][1..], "pk") == Some(pk);
  }

  lemma BudgetKeywordsAccepted(amount: Arg, categoryId: Arg, period: Arg, pk: Arg)
    ensures BadKeyword(BudgetParams, 0, BudgetKeywords(amount, categoryId, period, pk)).None?
  {
    BudgetParamIndices();
    var kw := BudgetKeywords(amount, categoryId, period, pk);
    assert kw[1..][1..][1..][1..] == [];
    assert BadKeyword(BudgetParams, 0, kw[1..][1..][1..]).None?;
    assert BadKeyword(BudgetParams, 0, kw[1..][1..]).None?;
  }

  /** Positional construction in the order amount, category_id, period, pk
      gives the budget with those fields. */
  lemma PositionalConstruction(amount: Arg, categoryId: Arg, period: Arg, pk: Arg)
    ensures NewBudget([amount, categoryId, period, pk], []) == Success(Budget(amount, categoryId, period, pk))
  {
    MissingSpec(BudgetParams, 4, BudgetDefaults, []);
  }

  /** Keyword construction gives the same budget as positional
      construction. */
  lemma KeywordEqualsPositional(amount: Arg, categoryId: Arg, period: Arg, pk: Arg)
    ensures NewBudget([], BudgetKeywords(amount, categoryId, period, pk)) == NewBudget([amount, categoryId, period, pk], [])
  {
    var kw := BudgetKeywords(amount, categoryId, period, pk);
    BudgetKeywordsAccepted(amount, categoryId, period, pk);
    BudgetKeywordLookups(amount, categoryId, period, pk);
    MissingSpec(BudgetParams, 0, BudgetDefaults, kw);
    PositionalConstruction(amount, categoryId, period, pk);
  }

  /** Without a `pk` argument the budget's `pk` is 0, the value the
      repository's `add` demands. */
  lemma PkDefaultsToZero(amount: Arg, categoryId: Arg, period: Arg)
    ensures NewBudget([amount, categoryId, period], []) == Success(Budget(amount, categoryId, period, IntArg(0)))
  {
    MissingSpec(BudgetParams, 3, BudgetDefaults, []);
  }

  /** Only three or four positional arguments construct a budget. */
  lemma PositionalArity(args: seq<Arg>)
    ensures NewBudget(args, []).Success? <==> 3 <= |args| <= 4
  {
    MissingSpec(BudgetParams, |args|, BudgetDefaults, []);
    if |args| < 3 {
      assert BudgetParams[|args|..][2 - |args|] == "period";
      assert Keyword([], "period").None? && "period" !in BudgetDefaults;
    }
  }

  /** The coordinator's call `Budget(limitation=..., period=...)` raises
      `TypeError` on its first keyword. */
  lemma CoordinatorCallRejected(limitation: Arg, period: Arg)
    ensures NewBudget([], [("limitation", limitation), ("period", period)]) == Failure(UnexpectedKeyword("limitation"))
  {
    IndexOfSpec(BudgetParams, "limitation");
  }

  // ---------------------------------------------------------------------
  // The budget record the coordinator works with

  /** The stored fields of the budget the coordinator reads and writes. */
  const PlannedFields: seq<string> := ["limitation", "period", "spent"]

  /** The budget `modify_budget` means to create: its limit and period,
      nothing spent yet, and no key. */
  function PlannedBudget(limitation: int, period: string): (r: Record)
    ensures r.pk == Some(0)
    ensures FieldValues(PlannedFields, r) == Success([Int(limitation), Text(period), Int(0)])
  {
    var r := Record(map["limitation" := Int(limitation), "period" := Text(period), "spent" := Int(0)], Some(0));
    PlannedValues(r);
    r
  }

  lemma PlannedValues(r: Record)
    requires forall f :: f in PlannedFields ==> f in r.attrs
    ensures FieldValues(PlannedFields, r) == Success([r.attrs["limitation"], r.attrs["period"], r.attrs["spent"]])
  {
    var f := PlannedFields;
    assert f[0] in f && f[1] in f && f[2] in f;
    assert f[1..] == ["period", "spent"];
    assert f[1..][1..] == ["spent"];
    assert f[1..][1..][1..] == [];
    assert FieldValues(f[1..][1..][1..], r) == Success([]);
    assert [r.attrs["spent"]] + [] == [r.attrs["spent"]];
    assert FieldValues(f[1..][1..], r) == Success([r.attrs["spent"]]);
    assert [r.attrs["period"]] + [r.attrs["spent"]] == [r.attrs["period"], r.attrs["spent"]];
    assert FieldValues(f[1..], r) == Success([r.attrs["period"], r.attrs["spent"]]);
    assert [r.attrs["limitation"]] + [r.attrs["period"], r.attrs["spent"]] == [r.attrs["limitation"], r.attrs["period"], r.attrs["spent"]];
  }
}
