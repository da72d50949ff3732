/** build_safe_plan and compile_filters, their errors, and when a validated
    query compiles. Conditions are symbolic SQLAlchemy expressions over one
    column; `resolves` says which (family, field) pairs resolve_column finds. */
module FilterCompiler {
  import opened Text
  import opened Query
  import QueryValidator
  import LikePattern

  datatype SafeSort = SafeSort(field: string, direction: Direction, priority: Option<int>)

  datatype SafeQueryPlan = SafeQueryPlan(
    families: seq<Family>, filters: seq<FilterClause>, sorts: seq<SafeSort>, limit: nat, metrics: seq<string>)

  datatype CompileError =
    | RankBlockedField(field: string) | UnknownField(field: string) | UnsupportedFamily(field: string)
    | NotFilterable(field: string) | ColumnNotResolved(field: string)
    | InRequiresList | BetweenRequiresTwo | ContainsRequiresString

  datatype Result<+T> = Ok(value: T) | Error(error: CompileError)

  datatype Condition =
    | IsNull | IsNotNull
    | Equal(v: Value) | NotEqual(v: Value) | AtLeast(v: Value) | AtMost(v: Value)
    | InList(items: seq<Value>) | Both(low: Value, high: Value)
    | ILike(pattern: string)                       // escape='\'

  // A condition on the column that resolve_column gives for a field of a family.
  datatype Expression = On(family: Family, field: string, condition: Condition)

  type Columns = set<(Family, string)>

  // ---- build_safe_plan ----

  function SortsOf(spec: QuerySpec): seq<SafeSort> {
    seq(|spec.preferences|, i requires 0 <= i < |spec.preferences| =>
      SafeSort(spec.preferences[i].field, spec.preferences[i].direction, spec.preferences[i].priority))
    + seq(|spec.sort|, i requires 0 <= i < |spec.sort| => SafeSort(spec.sort[i].field, spec.sort[i].direction, None))
  }

  function PlanOf(spec: QuerySpec): SafeQueryPlan {
    SafeQueryPlan(spec.families, spec.filters, SortsOf(spec), spec.limit, spec.metrics)
  }

  method BuildSafePlan(spec: QuerySpec, registry: Registry) returns (r: Result<SafeQueryPlan>)
    ensures r.Ok? <==> forall f :: f in QueryValidator.RankFields(spec) ==> !QueryValidator.RankBlocked(registry, f)
    ensures r.Ok? ==> r.value == PlanOf(spec)
    ensures r.Ok? ==> var plan, n := r.value, |spec.preferences|;
      && plan.families == spec.families && plan.filters == spec.filters && plan.metrics == spec.metrics && plan.limit == spec.limit
      && |plan.sorts| == n + |spec.sort|
      && (forall i :: 0 <= i < n ==> var p := spec.preferences[i]; plan.sorts[i] == SafeSort(p.field, p.direction, p.priority))
      && (forall i :: 0 <= i < |spec.sort| ==> plan.sorts[n + i] == SafeSort(spec.sort[i].field, spec.sort[i].direction, None))
    ensures r.Error? ==> r.error.RankBlockedField? && r.error.field in QueryValidator.RankFields(spec)
                         && QueryValidator.RankBlocked(registry, r.error.field)
  {
    ghost var fields := QueryValidator.RankFields(spec);
    var sorts: seq<SafeSort> := [];
    for i := 0 to |spec.preferences|
      invariant sorts == SortsOf(spec)[..i]
      invariant forall j :: 0 <= j < i ==> !QueryValidator.RankBlocked(registry, fields[j])
    {
      var pref := spec.preferences[i];
      assert fields[i] == pref.field;
      if QueryValidator.RankBlocked(registry, pref.field) { return Error(RankBlockedField(pref.field)); }
      sorts := sorts + [SafeSort(pref.field, pref.direction, pref.priority)];
    }
    for i := 0 to |spec.sort|
      invariant sorts == SortsOf(spec)[..|spec.preferences| + i]
      invariant forall j :: 0 <= j < |spec.preferences| + i ==> !QueryValidator.RankBlocked(registry, fields[j])
    {
      var item := spec.sort[i];
      assert fields[|spec.preferences| + i] == item.field;
      if QueryValidator.RankBlocked(registry, item.field) { return Error(RankBlockedField(item.field)); }
      sorts := sorts + [SafeSort(item.field, item.direction, None)];
    }
    assert sorts == SortsOf(spec);
    r := Ok(SafeQueryPlan(spec.families, spec.filters, sorts, spec.limit, spec.metrics));
  }

  // ---- compile_filters ----

  function CompileFilterExpression(family: Family, c: FilterClause, registry: Registry, columns: Columns): Result<Expression> {
    if c.field !in registry then Error(UnknownField(c.field))
    else if family !in registry[c.field].families then Error(UnsupportedFamily(c.field))
    else if !registry[c.field].filterable then Error(NotFilterable(c.field))
    else if (family, c.field) !in columns then Error(ColumnNotResolved(c.field))
    else match ConditionOf(c)
      case Error(e) => Error(e)
      case Ok(condition) => Ok(On(family, c.field, condition))
  }

  function ConditionOf(c: FilterClause): Result<Condition> {
    match c.operator
    case IS_NULL => Ok(IsNull)
    case NOT_NULL => Ok(IsNotNull)
    case EQ => Ok(Equal(c.value))
    case NE => Ok(NotEqual(c.value))
    case GTE => Ok(AtLeast(c.value))
    case LTE => Ok(AtMost(c.value))
    case IN => if c.value.List? then Ok(InList(c.value.items)) else Error(InRequiresList)
    case BETWEEN =>
      if c.value.List? && |c.value.items| == 2 then Ok(Both(c.value.items[0], c.value.items[1])) else Error(BetweenRequiresTwo)
    case CONTAINS =>
      if c.value.Str? then Ok(ILike(LikePattern.ContainsPattern(c.value.s))) else Error(ContainsRequiresString)
  }

  // The comprehension stops at the first clause that raises.
  function CompileFilters(family: Family, filters: seq<FilterClause>, registry: Registry, columns: Columns): Result<seq<Expression>> {
    if filters == [] then Ok([])
    else match CompileFilterExpression(family, filters[0], registry, columns)
      case Error(e) => Error(e)
      case Ok(first) =>
        match CompileFilters(family, filters[1..], registry, columns)
        case Error(e) => Error(e)
        case Ok(rest) => Ok([first] + rest)
  }

  lemma {:induction false} CompileFiltersOk(family: Family, filters: seq<FilterClause>, registry: Registry, columns: Columns)
    ensures CompileFilters(family, filters, registry, columns).Ok?
            <==> forall c :: c in filters ==> CompileFilterExpression(family, c, registry, columns).Ok?
  {
    if filters != [] {
      CompileFiltersOk(family, filters[1..], registry, columns);
      assert filters == [filters[0]] + filters[1..];
    }
  }

  /** For a query that validation accepted, compiling its filters for a family
      raises nothing exactly when every filtered field exists in that family, its
      column resolves, and no CONTAINS carries a non-string value. */
  lemma ValidatedFiltersCompileExactlyWhen(spec: QuerySpec, registry: Registry, upper: string -> string, columns: Columns, family: Family)
    requires QueryValidator.Issues(spec, registry, upper) == []
    ensures CompileFilters(family, spec.filters, registry, columns).Ok? <==>
            forall c :: c in spec.filters ==> CompilesFor(c, family, registry, columns)
  {
    QueryValidator.NoIssueExactlyWhenAcceptable(spec, registry, upper);
    CompileFiltersOk(family, spec.filters, registry, columns);
    forall c | c in spec.filters
      ensures CompileFilterExpression(family, c, registry, columns).Ok? <==> CompilesFor(c, family, registry, columns)
    {
      FilterIsOk(spec, registry, upper, c);
    }
  }

  predicate CompilesFor(c: FilterClause, family: Family, registry: Registry, columns: Columns) {
    SupportsFamily(registry, c.field, family) && (family, c.field) in columns && (c.operator.CONTAINS? ==> c.value.Str?)
  }

  lemma FilterIsOk(spec: QuerySpec, registry: Registry, upper: string -> string, c: FilterClause)
    requires QueryValidator.Acceptable(spec, registry, upper) && c in spec.filters
    ensures QueryValidator.FieldOk(spec, registry, c.field)
    ensures QueryValidator.ClauseOk(c, registry[c.field])
  {
    QueryValidator.FilterFieldsAreRefs(spec);
  }

  // CONTAINS is offered on string fields only.
  ghost predicate ContainsOnlyOnStrings(registry: Registry) {
    forall f :: f in registry && CONTAINS in registry[f].operators ==> registry[f].valueType.StringType?
  }

  ghost predicate ColumnsResolve(registry: Registry, columns: Columns) {
    forall f, family :: SupportsFamily(registry, f, family) ==> (family, f) in columns
  }

  /** A validated executable query on one product family always compiles. */
  lemma ValidatedSingleFamilyCompiles(spec: QuerySpec, registry: Registry, upper: string -> string, columns: Columns, family: Family)
    requires QueryValidator.Issues(spec, registry, upper) == []
    requires !spec.intent.UNSUPPORTED_PREDICTION? && spec.families == [family]
    requires ContainsOnlyOnStrings(registry) && ColumnsResolve(registry, columns)
    ensures forall f :: f in QueryValidator.RankFields(spec) ==> !QueryValidator.RankBlocked(registry, f)
    ensures CompileFilters(family, PlanOf(spec).filters, registry, columns).Ok?
  {
    QueryValidator.NoIssueExactlyWhenAcceptable(spec, registry, upper);
    ValidatedFiltersCompileExactlyWhen(spec, registry, upper, columns, family);
    forall c | c in spec.filters ensures CompilesFor(c, family, registry, columns) {
      FilterIsOk(spec, registry, upper, c);
    }
  }

  /** With several families validation asks for one that has the field, while
      compilation runs for each: a validated query may fail to compile. */
  lemma ValidatedMultiFamilyMayFail(upper: string -> string)
    requires !QueryValidator.HasMarker(upper("nav"))
    ensures QueryValidator.Issues(TWO_FAMILIES, ONE_FAMILY_FIELD, upper) == []
    ensures ContainsOnlyOnStrings(ONE_FAMILY_FIELD) && ColumnsResolve(ONE_FAMILY_FIELD, NAV_COLUMN)
    ensures CompileFilters(BOND_KR, TWO_FAMILIES.filters, ONE_FAMILY_FIELD, NAV_COLUMN) == Error(UnsupportedFamily("nav"))
  {
    SampleAcceptable(upper);
    QueryValidator.NoIssueExactlyWhenAcceptable(TWO_FAMILIES, ONE_FAMILY_FIELD, upper);
  }

  const NAV_COLUMN: Columns := {(ETF_GLOBAL, "nav")}

  lemma SampleAcceptable(upper: string -> string)
    requires !QueryValidator.HasMarker(upper("nav"))
    ensures QueryValidator.Acceptable(TWO_FAMILIES, ONE_FAMILY_FIELD, upper)
  {
    SampleFieldsOk();
    SampleFiltersOk();
    assert QueryValidator.RankFields(TWO_FAMILIES) == [];
  }

  lemma SampleFieldsOk()
    ensures QueryValidator.FieldsOk(TWO_FAMILIES, ONE_FAMILY_FIELD)
  {
    var spec := TWO_FAMILIES;
    assert QueryValidator.FieldRefs(spec) == ["nav"];
    assert spec.families[0] in spec.families && SupportsFamily(ONE_FAMILY_FIELD, "nav", spec.families[0]);
  }

  lemma SampleFiltersOk()
    ensures QueryValidator.FiltersOk(TWO_FAMILIES, ONE_FAMILY_FIELD)
  {
    assert QueryValidator.ClauseOk(TWO_FAMILIES.filters[0], ONE_FAMILY_FIELD["nav"]);
  }

  const TWO_FAMILIES: QuerySpec :=
    QuerySpec(FILTER, [ETF_GLOBAL, BOND_KR], [], [FilterClause("nav", GTE, Num(1.0))], [], [], [], [], 5)

  const ONE_FAMILY_FIELD: Registry := map["nav" := FieldDefinition(DecimalType, {ETF_GLOBAL}, {GTE}, true, false)]
}
