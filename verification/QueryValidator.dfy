/** validate_queryspec: the clause walkers, each a loop that appends issues, and
    the exact set of specs that come out without an issue. `upper` is
    str.upper(). */
module QueryValidator {
  import opened Text
  import opened Query

  datatype IssueCode =
    | UNSUPPORTED_PREDICTION_NOT_EXECUTABLE | MISSING_FILTERS | MISSING_RANKING | MISSING_RELATIONSHIP_FILTERS
    | MISSING_LOOKUP_TARGET | UNKNOWN_FIELD | FIELD_NOT_SUPPORTED_FOR_FAMILY | OPERATOR_NOT_ALLOWED
    | FIELD_NOT_FILTERABLE | FILTER_VALUE_MUST_BE_EMPTY | INVALID_FILTER_VALUE_SHAPE | MISSING_FILTER_VALUE
    | INVALID_VALUE_TYPE | RANK_BLOCKED_FIELD | UNSAFE_VALUE | UNSAFE_FIELD

  datatype Issue = Issue(code: IssueCode, askable: bool)

  const SQL_INJECTION_MARKERS: seq<string> := [";", "SELECT", "DROP", "INSERT", "UPDATE", "DELETE", "--"]

  function When(condition: bool, code: IssueCode, askable: bool): seq<Issue> {
    if condition then [Issue(code, askable)] else []
  }

  // ---- Pure clause checks ----

  function IntentShapeIssues(spec: QuerySpec): seq<Issue> {
    if spec.intent.UNSUPPORTED_PREDICTION? then
      When(spec.filters != [] || spec.metrics != [] || spec.preferences != [] || spec.sort != [] || spec.relationshipFilters != [],
           UNSUPPORTED_PREDICTION_NOT_EXECUTABLE, false)
    else
      When((spec.intent.FILTER? || spec.intent.FILTER_AND_RANK?) && spec.filters == [], MISSING_FILTERS, true)
      + When(spec.intent.FILTER_AND_RANK? && spec.preferences == [] && spec.sort == [] && spec.metrics == [], MISSING_RANKING, true)
      + When(spec.intent.RELATION_SEARCH? && spec.relationshipFilters == [], MISSING_RELATIONSHIP_FILTERS, true)
      + When(spec.intent.LOOKUP_PRODUCT? && spec.entities == [] && !HasProductNameFilter(spec), MISSING_LOOKUP_TARGET, true)
  }

  predicate HasProductNameFilter(spec: QuerySpec) {
    exists c :: c in spec.filters && c.field == "product_name"
  }

  function FieldRefs(spec: QuerySpec): seq<string> {
    seq(|spec.filters|, i requires 0 <= i < |spec.filters| => spec.filters[i].field)
    + spec.metrics
    + seq(|spec.preferences|, i requires 0 <= i < |spec.preferences| => spec.preferences[i].field)
    + seq(|spec.sort|, i requires 0 <= i < |spec.sort| => spec.sort[i].field)
  }

  function UnknownFieldIssue(registry: Registry): string -> seq<Issue> {
    (f: string) => When(f !in registry, UNKNOWN_FIELD, false)
  }

  function FamilyIssue(registry: Registry, families: seq<Family>): string -> seq<Issue> {
    (f: string) => When(f in registry && !SupportsAny(registry, f, families), FIELD_NOT_SUPPORTED_FOR_FAMILY, true)
  }

  predicate SupportsAny(registry: Registry, field: string, families: seq<Family>) {
    exists family :: family in families && SupportsFamily(registry, field, family)
  }

  function ShapeIssues(c: FilterClause): seq<Issue> {
    if c.operator.IS_NULL? || c.operator.NOT_NULL? then When(!c.value.Null?, FILTER_VALUE_MUST_BE_EMPTY, true)
    else if c.operator.BETWEEN? && !(c.value.List? && |c.value.items| == 2) then [Issue(INVALID_FILTER_VALUE_SHAPE, true)]
    else if c.operator.IN? && !(c.value.List? && |c.value.items| > 0) then [Issue(INVALID_FILTER_VALUE_SHAPE, true)]
    else When(c.value.Null?, MISSING_FILTER_VALUE, true)
  }

  // isinstance(value, bool) comes before int: a Bool is not a Num here.
  predicate HasType(t: ValueType, v: Value) {
    match t
    case StringType => v.Str?
    case DecimalType | IntegerType => v.Num?
    case BooleanType => v.Bool?
    case DateType => true
  }

  function SingleValueIssue(t: ValueType): Value -> seq<Issue> {
    (v: Value) => When(!HasType(t, v), INVALID_VALUE_TYPE, true)
  }

  function ValueTypeIssues(d: FieldDefinition, v: Value, op: Operator): seq<Issue> {
    if op.IS_NULL? || op.NOT_NULL? then []
    else if op.BETWEEN? || op.IN? then
      FlatMap(if v.List? then v.items else [], SingleValueIssue(d.valueType))
    else SingleValueIssue(d.valueType)(v)
  }

  function ClauseIssues(registry: Registry): FilterClause -> seq<Issue> {
    (c: FilterClause) =>
      ShapeIssues(c) +
      if c.field !in registry then []
      else
        var d := registry[c.field];
        When(c.operator !in d.operators, OPERATOR_NOT_ALLOWED, true)
        + When(!d.filterable, FIELD_NOT_FILTERABLE, false)
        + ValueTypeIssues(d, c.value, c.operator)
  }

  predicate RankBlocked(registry: Registry, field: string) {
    field in registry && registry[field].rankBlocked
  }

  function RankIssue(registry: Registry): string -> seq<Issue> {
    (f: string) => When(RankBlocked(registry, f), RANK_BLOCKED_FIELD, false)
  }

  function RankFields(spec: QuerySpec): seq<string> {
    seq(|spec.preferences|, i requires 0 <= i < |spec.preferences| => spec.preferences[i].field)
    + seq(|spec.sort|, i requires 0 <= i < |spec.sort| => spec.sort[i].field)
  }

  predicate HasMarker(s: string) {
    exists m :: m in SQL_INJECTION_MARKERS && IsSubstring(m, s)
  }

  function InjectionIssue(upper: string -> string): FilterClause -> seq<Issue> {
    (c: FilterClause) => When(c.value.Str? && HasMarker(upper(c.value.s)), UNSAFE_VALUE, false)
         + When(HasMarker(upper(c.field)), UNSAFE_FIELD, false)
  }

  // ---- The whole validator ----

  function ExistenceIssues(spec: QuerySpec, registry: Registry): seq<Issue> {
    FlatMap(FieldRefs(spec), UnknownFieldIssue(registry))
  }

  function SupportIssues(spec: QuerySpec, registry: Registry): seq<Issue> {
    if spec.intent.UNSUPPORTED_PREDICTION? then [] else FlatMap(FieldRefs(spec), FamilyIssue(registry, spec.families))
  }

  function FilterIssues(spec: QuerySpec, registry: Registry): seq<Issue> {
    FlatMap(spec.filters, ClauseIssues(registry))
  }

  function RankingIssues(spec: QuerySpec, registry: Registry): seq<Issue> {
    FlatMap(RankFields(spec), RankIssue(registry))
  }

  function UnsafeIssues(spec: QuerySpec, upper: string -> string): seq<Issue> {
    FlatMap(spec.filters, InjectionIssue(upper))
  }

  function Issues(spec: QuerySpec, registry: Registry, upper: string -> string): seq<Issue> {
    IntentShapeIssues(spec) + ExistenceIssues(spec, registry) + SupportIssues(spec, registry)
    + FilterIssues(spec, registry) + RankingIssues(spec, registry) + UnsafeIssues(spec, upper)
  }

  // The shared shape of the clause walkers: one loop that appends.
  method Walk<T>(items: seq<T>, check: T -> seq<Issue>) returns (issues: seq<Issue>)
    ensures issues == FlatMap(items, check)
  {
    issues := [];
    for i := 0 to |items|
      invariant issues == FlatMap(items[..i], check)
    {
      assert items[..i + 1][..i] == items[..i];
      issues := issues + check(items[i]);
    }
    assert items[..|items|] == items;
  }

  method ValidateFamilySupport(spec: QuerySpec, registry: Registry) returns (issues: seq<Issue>)
    ensures issues == SupportIssues(spec, registry)
  {
    if spec.intent.UNSUPPORTED_PREDICTION? { return []; }
    issues := Walk(FieldRefs(spec), FamilyIssue(registry, spec.families));
  }

  method ValidateQuerySpec(spec: QuerySpec, registry: Registry, upper: string -> string) returns (issues: seq<Issue>)
    ensures issues == Issues(spec, registry, upper)
  {
    issues := IntentShapeIssues(spec);
    var existence := Walk(FieldRefs(spec), UnknownFieldIssue(registry));
    issues := issues + existence;
    var support := ValidateFamilySupport(spec, registry);
    issues := issues + support;
    var filters := Walk(spec.filters, ClauseIssues(registry));
    issues := issues + filters;
    var ranking := Walk(RankFields(spec), RankIssue(registry));
    issues := issues + ranking;
    var unsafe := Walk(spec.filters, InjectionIssue(upper));
    issues := issues + unsafe;
  }

  // ---- What a spec without issues looks like ----

  predicate ShapeOk(spec: QuerySpec) {
    match spec.intent
    case UNSUPPORTED_PREDICTION =>
      spec.filters == [] && spec.metrics == [] && spec.preferences == [] && spec.sort == [] && spec.relationshipFilters == []
    case FILTER => spec.filters != []
    case FILTER_AND_RANK => spec.filters != [] && (spec.preferences != [] || spec.sort != [] || spec.metrics != [])
    case RELATION_SEARCH => spec.relationshipFilters != []
    case LOOKUP_PRODUCT => spec.entities != [] || HasProductNameFilter(spec)
    case _ => true
  }

  // A filter value that fits its operator and its field.
  predicate ClauseOk(c: FilterClause, d: FieldDefinition) {
    && c.operator in d.operators
    && d.filterable
    && match c.operator
       case IS_NULL => c.value.Null?
       case NOT_NULL => c.value.Null?
       case BETWEEN => c.value.List? && |c.value.items| == 2 && forall v :: v in c.value.items ==> HasType(d.valueType, v)
       case IN => c.value.List? && |c.value.items| > 0 && forall v :: v in c.value.items ==> HasType(d.valueType, v)
       case _ => !c.value.Null? && HasType(d.valueType, c.value)
  }

  ghost predicate FieldOk(spec: QuerySpec, registry: Registry, field: string) {
    field in registry && (spec.intent.UNSUPPORTED_PREDICTION? || SupportsAny(registry, field, spec.families))
  }

  ghost predicate FieldsOk(spec: QuerySpec, registry: Registry) {
    forall f :: f in FieldRefs(spec) ==> FieldOk(spec, registry, f)
  }

  ghost predicate FiltersOk(spec: QuerySpec, registry: Registry) {
    forall c :: c in spec.filters && c.field in registry ==> ClauseOk(c, registry[c.field])
  }

  ghost predicate RankingOk(spec: QuerySpec, registry: Registry) {
    forall f :: f in RankFields(spec) ==> !RankBlocked(registry, f)
  }

  ghost predicate Safe(spec: QuerySpec, upper: string -> string) {
    forall c :: c in spec.filters ==> !HasMarker(upper(c.field)) && (c.value.Str? ==> !HasMarker(upper(c.value.s)))
  }

  ghost predicate Acceptable(spec: QuerySpec, registry: Registry, upper: string -> string) {
    ShapeOk(spec) && FieldsOk(spec, registry) && FiltersOk(spec, registry) && RankingOk(spec, registry) && Safe(spec, upper)
  }

  lemma ClauseWithoutIssues(c: FilterClause, registry: Registry)
    requires c.field in registry
    ensures ClauseIssues(registry)(c) == [] <==> ClauseOk(c, registry[c.field])
  {
    var d := registry[c.field];
    if c.value.List? {
      FlatMapEmpty(c.value.items, SingleValueIssue(d.valueType));
    }
  }

  lemma FilterFieldsAreRefs(spec: QuerySpec)
    ensures forall c :: c in spec.filters ==> c.field in FieldRefs(spec)
  {
    forall c | c in spec.filters ensures c.field in FieldRefs(spec) {
      var i :| 0 <= i < |spec.filters| && spec.filters[i] == c;
      assert FieldRefs(spec)[i] == c.field;
    }
  }

  /** Validation reports no issue exactly on the acceptable specs. */
  lemma NoIssueExactlyWhenAcceptable(spec: QuerySpec, registry: Registry, upper: string -> string)
    ensures Issues(spec, registry, upper) == [] <==> Acceptable(spec, registry, upper)
  {
    assert IntentShapeIssues(spec) == [] <==> ShapeOk(spec);
    FieldsWithoutIssues(spec, registry);
    FiltersWithoutIssues(spec, registry);
    RankingWithoutIssues(spec, registry);
    SafeWithoutIssues(spec, upper);
  }

  lemma FieldsWithoutIssues(spec: QuerySpec, registry: Registry)
    ensures ExistenceIssues(spec, registry) == [] && SupportIssues(spec, registry) == [] <==> FieldsOk(spec, registry)
  {
    FlatMapEmpty(FieldRefs(spec), UnknownFieldIssue(registry));
    FlatMapEmpty(FieldRefs(spec), FamilyIssue(registry, spec.families));
  }

  lemma FiltersWithoutIssues(spec: QuerySpec, registry: Registry)
    ensures FilterIssues(spec, registry) == [] ==> FiltersOk(spec, registry)
    ensures FieldsOk(spec, registry) && FiltersOk(spec, registry) ==> FilterIssues(spec, registry) == []
  {
    FlatMapEmpty(spec.filters, ClauseIssues(registry));
    FilterFieldsAreRefs(spec);
    forall c | c in spec.filters && c.field in registry
      ensures ClauseIssues(registry)(c) == [] <==> ClauseOk(c, registry[c.field])
    {
      ClauseWithoutIssues(c, registry);
    }
    if FieldsOk(spec, registry) {
      assert forall c :: c in spec.filters ==> FieldOk(spec, registry, c.field);
    }
  }

  lemma RankingWithoutIssues(spec: QuerySpec, registry: Registry)
    ensures RankingIssues(spec, registry) == [] <==> RankingOk(spec, registry)
  {
    FlatMapEmpty(RankFields(spec), RankIssue(registry));
  }

  lemma SafeWithoutIssues(spec: QuerySpec, upper: string -> string)
    ensures UnsafeIssues(spec, upper) == [] <==> Safe(spec, upper)
  {
    FlatMapEmpty(spec.filters, InjectionIssue(upper));
  }
}
