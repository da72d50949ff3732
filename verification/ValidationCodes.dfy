/** Which issue codes validation reports for a spec, which of them can be asked
    about, and the early decision that follows. */
module ValidationCodes {
  import opened Text
  import opened Query
  import opened QueryValidator
  import PolicyEngine

  // Some clause names the field.
  ghost predicate Mentions(spec: QuerySpec, f: string) {
    || (exists c :: c in spec.filters && c.field == f) || f in spec.metrics
    || (exists p :: p in spec.preferences && p.field == f) || (exists s :: s in spec.sort && s.field == f)
  }

  ghost predicate RanksBy(spec: QuerySpec, f: string) {
    (exists p :: p in spec.preferences && p.field == f) || (exists s :: s in spec.sort && s.field == f)
  }

  predicate TakesNoValue(op: Operator) {
    op == IS_NULL || op == NOT_NULL
  }

  predicate TakesList(op: Operator) {
    op == IN || op == BETWEEN
  }

  // The list of an IN or BETWEEN, or the single value of the other operators.
  ghost predicate Carries(c: FilterClause, v: Value) {
    if TakesList(c.operator) then c.value.List? && v in c.value.items else !TakesNoValue(c.operator) && v == c.value
  }

  // Dates are not checked, and a boolean is no number.
  predicate Misfits(t: ValueType, v: Value) {
    (t == StringType && !v.Str?) || ((t == DecimalType || t == IntegerType) && !v.Num?) || (t == BooleanType && !v.Bool?)
  }

  // What in the spec makes validation report the code.
  ghost predicate Reason(code: IssueCode, spec: QuerySpec, registry: Registry, upper: string -> string) {
    match code
    case UNSUPPORTED_PREDICTION_NOT_EXECUTABLE =>
      spec.intent == UNSUPPORTED_PREDICTION
      && !(spec.filters == [] && spec.metrics == [] && spec.preferences == [] && spec.sort == [] && spec.relationshipFilters == [])
    case MISSING_FILTERS => spec.intent in {FILTER, FILTER_AND_RANK} && spec.filters == []
    case MISSING_RANKING => spec.intent == FILTER_AND_RANK && spec.preferences == [] && spec.sort == [] && spec.metrics == []
    case MISSING_RELATIONSHIP_FILTERS => spec.intent == RELATION_SEARCH && spec.relationshipFilters == []
    case MISSING_LOOKUP_TARGET => spec.intent == LOOKUP_PRODUCT && spec.entities == [] && forall c :: c in spec.filters ==> c.field != "product_name"
    case UNKNOWN_FIELD => exists f :: Mentions(spec, f) && f !in registry
    case FIELD_NOT_SUPPORTED_FOR_FAMILY =>
      spec.intent != UNSUPPORTED_PREDICTION
      && exists f :: Mentions(spec, f) && f in registry && forall family :: family in spec.families ==> family !in registry[f].families
    case OPERATOR_NOT_ALLOWED => exists c :: c in spec.filters && c.field in registry && c.operator !in registry[c.field].operators
    case FIELD_NOT_FILTERABLE => exists c :: c in spec.filters && c.field in registry && !registry[c.field].filterable
    case FILTER_VALUE_MUST_BE_EMPTY => exists c :: c in spec.filters && TakesNoValue(c.operator) && c.value != Null
    case INVALID_FILTER_VALUE_SHAPE =>
      exists c :: c in spec.filters && ((c.operator == BETWEEN && !(c.value.List? && |c.value.items| == 2))
                                        || (c.operator == IN && !(c.value.List? && c.value.items != [])))
    case MISSING_FILTER_VALUE => exists c :: c in spec.filters && !TakesNoValue(c.operator) && !TakesList(c.operator) && c.value == Null
    case INVALID_VALUE_TYPE =>
      exists c, v :: c in spec.filters && c.field in registry && Carries(c, v) && Misfits(registry[c.field].valueType, v)
    case RANK_BLOCKED_FIELD => exists f :: RanksBy(spec, f) && f in registry && registry[f].rankBlocked
    case UNSAFE_VALUE => exists c :: c in spec.filters && c.value.Str? && HasMarker(upper(c.value.s))
    case UNSAFE_FIELD => exists c :: c in spec.filters && HasMarker(upper(c.field))
  }

  // What the user cannot be asked to supply.
  const FINAL: set<IssueCode> :=
    {UNSUPPORTED_PREDICTION_NOT_EXECUTABLE, UNKNOWN_FIELD, FIELD_NOT_FILTERABLE, RANK_BLOCKED_FIELD, UNSAFE_VALUE, UNSAFE_FIELD}

  function IssueOf(code: IssueCode): Issue {
    Issue(code, !(code in FINAL))
  }

  lemma FlatMapHas<T(!new), U(!new)>(s: seq<T>, f: T -> seq<U>, y: U)
    ensures y in FlatMap(s, f) <==> exists x :: x in s && y in f(x)
  {
    if y in FlatMap(s, f) {
      var x := FlatMapSource(s, f, y);
    }
    if x :| x in s && y in f(x) {
      FlatMapMember(s, f, x, y);
    }
  }

  lemma RefsAreMentioned(spec: QuerySpec, f: string)
    ensures f in FieldRefs(spec) <==> Mentions(spec, f)
    ensures f in RankFields(spec) <==> RanksBy(spec, f)
  {
    var filters := seq(|spec.filters|, i requires 0 <= i < |spec.filters| => spec.filters[i].field);
    var preferences := seq(|spec.preferences|, i requires 0 <= i < |spec.preferences| => spec.preferences[i].field);
    var sorts := seq(|spec.sort|, i requires 0 <= i < |spec.sort| => spec.sort[i].field);
    if c :| c in spec.filters && c.field == f { var i :| 0 <= i < |spec.filters| && spec.filters[i] == c; assert filters[i] == f; }
    if p :| p in spec.preferences && p.field == f {
      var i :| 0 <= i < |spec.preferences| && spec.preferences[i] == p;
      assert preferences[i] == f;
    }
    if t :| t in spec.sort && t.field == f { var i :| 0 <= i < |spec.sort| && spec.sort[i] == t; assert sorts[i] == f; }
    if f in filters { var i :| 0 <= i < |filters| && filters[i] == f; assert spec.filters[i] in spec.filters; }
    if f in preferences { var i :| 0 <= i < |preferences| && preferences[i] == f; assert spec.preferences[i] in spec.preferences; }
    if f in sorts { var i :| 0 <= i < |sorts| && sorts[i] == f; assert spec.sort[i] in spec.sort; }
    assert FieldRefs(spec) == filters + spec.metrics + preferences + sorts;
    assert RankFields(spec) == preferences + sorts;
  }

  // The flag that belongs to the code, and a reason for it among these codes.
  ghost predicate Due(issue: Issue, codes: set<IssueCode>, spec: QuerySpec, registry: Registry, upper: string -> string) {
    issue.code in codes && issue.askable == (issue.code !in FINAL) && Reason(issue.code, spec, registry, upper)
  }

  const SHAPE_CODES: set<IssueCode> :=
    {UNSUPPORTED_PREDICTION_NOT_EXECUTABLE, MISSING_FILTERS, MISSING_RANKING, MISSING_RELATIONSHIP_FILTERS, MISSING_LOOKUP_TARGET}
  const VALUE_CODES: set<IssueCode> :=
    {OPERATOR_NOT_ALLOWED, FIELD_NOT_FILTERABLE, FILTER_VALUE_MUST_BE_EMPTY, INVALID_FILTER_VALUE_SHAPE, MISSING_FILTER_VALUE, INVALID_VALUE_TYPE}

  lemma ShapeIssuesDue(issue: Issue, spec: QuerySpec, registry: Registry, upper: string -> string)
    ensures issue in IntentShapeIssues(spec) <==> Due(issue, SHAPE_CODES, spec, registry, upper)
  {
  }

  lemma ExistenceIssuesDue(issue: Issue, spec: QuerySpec, registry: Registry, upper: string -> string)
    ensures issue in ExistenceIssues(spec, registry) <==> Due(issue, {UNKNOWN_FIELD}, spec, registry, upper)
  {
    FlatMapHas(FieldRefs(spec), UnknownFieldIssue(registry), issue);
    forall f ensures f in FieldRefs(spec) <==> Mentions(spec, f) { RefsAreMentioned(spec, f); }
  }

  lemma SupportIssuesDue(issue: Issue, spec: QuerySpec, registry: Registry, upper: string -> string)
    ensures issue in SupportIssues(spec, registry) <==> Due(issue, {FIELD_NOT_SUPPORTED_FOR_FAMILY}, spec, registry, upper)
  {
    FlatMapHas(FieldRefs(spec), FamilyIssue(registry, spec.families), issue);
    forall f ensures f in FieldRefs(spec) <==> Mentions(spec, f) { RefsAreMentioned(spec, f); }
  }

  lemma RankIssuesDue(issue: Issue, spec: QuerySpec, registry: Registry, upper: string -> string)
    ensures issue in RankingIssues(spec, registry) <==> Due(issue, {RANK_BLOCKED_FIELD}, spec, registry, upper)
  {
    FlatMapHas(RankFields(spec), RankIssue(registry), issue);
    forall f ensures f in RankFields(spec) <==> RanksBy(spec, f) { RefsAreMentioned(spec, f); }
  }

  lemma UnsafeIssuesDue(issue: Issue, spec: QuerySpec, registry: Registry, upper: string -> string)
    ensures issue in UnsafeIssues(spec, upper) <==> Due(issue, {UNSAFE_VALUE, UNSAFE_FIELD}, spec, registry, upper)
  {
    FlatMapHas(spec.filters, InjectionIssue(upper), issue);
    forall c | c in spec.filters { UnsafeClause(issue, c, upper); }
  }

  lemma UnsafeClause(issue: Issue, c: FilterClause, upper: string -> string)
    ensures issue in InjectionIssue(upper)(c) <==>
              || (issue == Issue(UNSAFE_VALUE, false) && c.value.Str? && HasMarker(upper(c.value.s)))
              || (issue == Issue(UNSAFE_FIELD, false) && HasMarker(upper(c.field)))
  {
  }

  // What one clause is blamed for.
  ghost predicate ClauseReason(code: IssueCode, c: FilterClause, registry: Registry) {
    match code
    case OPERATOR_NOT_ALLOWED => c.field in registry && c.operator !in registry[c.field].operators
    case FIELD_NOT_FILTERABLE => c.field in registry && !registry[c.field].filterable
    case FILTER_VALUE_MUST_BE_EMPTY => TakesNoValue(c.operator) && c.value != Null
    case INVALID_FILTER_VALUE_SHAPE =>
      (c.operator == BETWEEN && !(c.value.List? && |c.value.items| == 2)) || (c.operator == IN && !(c.value.List? && c.value.items != []))
    case MISSING_FILTER_VALUE => !TakesNoValue(c.operator) && !TakesList(c.operator) && c.value == Null
    case INVALID_VALUE_TYPE => c.field in registry && exists v :: Carries(c, v) && Misfits(registry[c.field].valueType, v)
    case _ => false
  }

  lemma TypeIssuesDue(issue: Issue, c: FilterClause, d: FieldDefinition)
    ensures issue in ValueTypeIssues(d, c.value, c.operator) <==>
              issue == Issue(INVALID_VALUE_TYPE, true) && exists v :: Carries(c, v) && Misfits(d.valueType, v)
  {
    forall v ensures Misfits(d.valueType, v) <==> !HasType(d.valueType, v) {}
    if TakesList(c.operator) {
      FlatMapHas(if c.value.List? then c.value.items else [], SingleValueIssue(d.valueType), issue);
    } else if !TakesNoValue(c.operator) {
      assert Carries(c, c.value);
    }
  }

  lemma ClauseIssuesDue(issue: Issue, c: FilterClause, registry: Registry)
    ensures issue in ClauseIssues(registry)(c) <==>
              issue.code in VALUE_CODES && issue.askable == (issue.code !in FINAL) && ClauseReason(issue.code, c, registry)
  {
    ShapeOfClause(issue, c);
    if c.field in registry { FieldOfClause(issue, c, registry[c.field]); }
  }

  predicate MisshapenFor(code: IssueCode, c: FilterClause) {
    match code
    case FILTER_VALUE_MUST_BE_EMPTY => TakesNoValue(c.operator) && c.value != Null
    case INVALID_FILTER_VALUE_SHAPE =>
      (c.operator == BETWEEN && !(c.value.List? && |c.value.items| == 2)) || (c.operator == IN && !(c.value.List? && c.value.items != []))
    case MISSING_FILTER_VALUE => !TakesNoValue(c.operator) && !TakesList(c.operator) && c.value == Null
    case _ => false
  }

  lemma ShapeOfClause(issue: Issue, c: FilterClause)
    ensures issue in ShapeIssues(c) <==> issue.askable && MisshapenFor(issue.code, c)
  {
  }

  lemma FieldOfClause(issue: Issue, c: FilterClause, d: FieldDefinition)
    ensures issue in When(c.operator !in d.operators, OPERATOR_NOT_ALLOWED, true) + When(!d.filterable, FIELD_NOT_FILTERABLE, false)
                     + ValueTypeIssues(d, c.value, c.operator) <==>
              || (issue == Issue(OPERATOR_NOT_ALLOWED, true) && c.operator !in d.operators)
              || (issue == Issue(FIELD_NOT_FILTERABLE, false) && !d.filterable)
              || (issue == Issue(INVALID_VALUE_TYPE, true) && exists v :: Carries(c, v) && Misfits(d.valueType, v))
  {
    TypeIssuesDue(issue, c, d);
  }

  lemma FilterIssuesDue(issue: Issue, spec: QuerySpec, registry: Registry, upper: string -> string)
    ensures issue in FilterIssues(spec, registry) <==> Due(issue, VALUE_CODES, spec, registry, upper)
  {
    FlatMapHas(spec.filters, ClauseIssues(registry), issue);
    forall c ensures issue in ClauseIssues(registry)(c) <==>
                       issue.code in VALUE_CODES && issue.askable == (issue.code !in FINAL) && ClauseReason(issue.code, c, registry)
    {
      ClauseIssuesDue(issue, c, registry);
    }
    if issue.code in VALUE_CODES { ReasonOfClause(issue.code, spec, registry, upper); }
  }

  lemma ReasonOfClause(code: IssueCode, spec: QuerySpec, registry: Registry, upper: string -> string)
    requires code in VALUE_CODES
    ensures Reason(code, spec, registry, upper) <==> exists c :: c in spec.filters && ClauseReason(code, c, registry)
  {
  }

  lemma IssueParts(issue: Issue, spec: QuerySpec, registry: Registry, upper: string -> string)
    ensures issue in Issues(spec, registry, upper) <==>
              || issue in IntentShapeIssues(spec) || issue in ExistenceIssues(spec, registry) || issue in SupportIssues(spec, registry)
              || issue in FilterIssues(spec, registry) || issue in RankingIssues(spec, registry) || issue in UnsafeIssues(spec, upper)
  {
    var a, b, c := IntentShapeIssues(spec), ExistenceIssues(spec, registry), SupportIssues(spec, registry);
    var d, e, f := FilterIssues(spec, registry), RankingIssues(spec, registry), UnsafeIssues(spec, upper);
    assert Issues(spec, registry, upper) == a + b + c + d + e + f;
  }

  // The six groups of codes are all codes.
  lemma EveryCode(code: IssueCode)
    ensures code in SHAPE_CODES || code in {UNKNOWN_FIELD} || code in {FIELD_NOT_SUPPORTED_FOR_FAMILY} || code in VALUE_CODES
         || code in {RANK_BLOCKED_FIELD} || code in {UNSAFE_VALUE, UNSAFE_FIELD}
  {
  }

  /** Validation reports an issue exactly when the spec gives a reason for its
      code; it can be asked about exactly when the code is not a final one. */
  lemma ReportedExactlyWhen(issue: Issue, spec: QuerySpec, registry: Registry, upper: string -> string)
    ensures issue in Issues(spec, registry, upper) <==>
              issue.askable == (issue.code !in FINAL) && Reason(issue.code, spec, registry, upper)
  {
    IssueParts(issue, spec, registry, upper);
    EveryCode(issue.code);
    ShapeIssuesDue(issue, spec, registry, upper);
    ExistenceIssuesDue(issue, spec, registry, upper);
    SupportIssuesDue(issue, spec, registry, upper);
    RankIssuesDue(issue, spec, registry, upper);
    UnsafeIssuesDue(issue, spec, registry, upper);
    FilterIssuesDue(issue, spec, registry, upper);
  }

  // ---- The early decision ----

  ghost predicate SomeReason(codes: set<IssueCode>, spec: QuerySpec, registry: Registry, upper: string -> string) {
    exists code :: code in codes && Reason(code, spec, registry, upper)
  }

  ghost predicate AnyReason(spec: QuerySpec, registry: Registry, upper: string -> string) {
    exists code :: Reason(code, spec, registry, upper)
  }

  /** The run stops with ABSTAIN exactly for a prediction or a final fault of the
      spec, with ASK exactly for any other fault or an ambiguous entity, and goes
      on exactly otherwise. */
  lemma StopsExactlyWhen(spec: QuerySpec, registry: Registry, upper: string -> string, ambiguousTokens: nat)
    ensures var d := PolicyEngine.DecisionFromValidation(spec, Issues(spec, registry, upper), ambiguousTokens);
      var abstains := spec.intent == UNSUPPORTED_PREDICTION || SomeReason(FINAL, spec, registry, upper);
      && (d.Some? && d.value.state == PolicyEngine.ABSTAIN <==> abstains)
      && (d.Some? && d.value.state == PolicyEngine.ASK <==> !abstains && (AnyReason(spec, registry, upper) || ambiguousTokens > 0))
      && (d.None? <==> !abstains && !AnyReason(spec, registry, upper) && ambiguousTokens == 0)
  {
    var issues := Issues(spec, registry, upper);
    PolicyEngine.EarlyDecision(spec, issues, ambiguousTokens);
    EmptyOrMember(issues);
    if issues != [] { ReportedExactlyWhen(issues[0], spec, registry, upper); }
    forall code | Reason(code, spec, registry, upper) ensures issues != [] && IssueOf(code) in issues {
      ReportedExactlyWhen(IssueOf(code), spec, registry, upper);
    }
    forall i | i in issues && !i.askable ensures SomeReason(FINAL, spec, registry, upper) {
      ReportedExactlyWhen(i, spec, registry, upper);
    }
  }

  lemma ReasonsAre(issues: seq<Issue>, otherwise: PolicyEngine.ReasonCode, reason: PolicyEngine.ReasonCode)
    ensures reason in PolicyEngine.ReasonsFor(issues, otherwise) <==> exists i :: i in issues && PolicyEngine.ReasonFor(i.code, otherwise) == reason
  {
    var all := seq(|issues|, k requires 0 <= k < |issues| => PolicyEngine.ReasonFor(issues[k].code, otherwise));
    if i :| i in issues && PolicyEngine.ReasonFor(i.code, otherwise) == reason {
      var k :| 0 <= k < |issues| && issues[k] == i;
      assert all[k] == reason;
    }
  }

  /** What an early ABSTAIN tells: a field is not available exactly when it is
      unknown or may not be ranked by, and validation failed otherwise. */
  lemma AbstentionReasons(spec: QuerySpec, registry: Registry, upper: string -> string, ambiguousTokens: nat)
    requires spec.intent != UNSUPPORTED_PREDICTION && SomeReason(FINAL, spec, registry, upper)
    ensures var d := PolicyEngine.DecisionFromValidation(spec, Issues(spec, registry, upper), ambiguousTokens);
      && d.Some?
      && (PolicyEngine.FIELD_NOT_AVAILABLE in d.value.reasons <==>
            Reason(UNKNOWN_FIELD, spec, registry, upper) || Reason(RANK_BLOCKED_FIELD, spec, registry, upper))
      && (PolicyEngine.VALIDATION_FAILED in d.value.reasons <==>
            Reason(FIELD_NOT_FILTERABLE, spec, registry, upper) || Reason(UNSAFE_VALUE, spec, registry, upper) || Reason(UNSAFE_FIELD, spec, registry, upper))
  {
    var issues := Issues(spec, registry, upper);
    var blocks := (i: Issue) => !i.askable;
    var blocking := Filter(issues, blocks);
    StopsExactlyWhen(spec, registry, upper, ambiguousTokens);
    FilterMembers(issues, blocks);
    forall i ensures i in blocking <==> !i.askable && i.code in FINAL && Reason(i.code, spec, registry, upper) {
      ReportedExactlyWhen(i, spec, registry, upper);
    }
    ReasonsAre(blocking, PolicyEngine.VALIDATION_FAILED, PolicyEngine.FIELD_NOT_AVAILABLE);
    ReasonsAre(blocking, PolicyEngine.VALIDATION_FAILED, PolicyEngine.VALIDATION_FAILED);
    NotAvailableCodes(blocking, (code: IssueCode) => Reason(code, spec, registry, upper));
  }

  // The two reason codes of a set of final issue codes.
  lemma NotAvailableCodes(blocking: seq<Issue>, given: IssueCode -> bool)
    requires forall i :: i in blocking <==> !i.askable && i.code in FINAL && given(i.code)
    requires !given(UNSUPPORTED_PREDICTION_NOT_EXECUTABLE)
    ensures (exists i :: i in blocking && PolicyEngine.ReasonFor(i.code, PolicyEngine.VALIDATION_FAILED) == PolicyEngine.FIELD_NOT_AVAILABLE) <==>
              given(UNKNOWN_FIELD) || given(RANK_BLOCKED_FIELD)
    ensures (exists i :: i in blocking && PolicyEngine.ReasonFor(i.code, PolicyEngine.VALIDATION_FAILED) == PolicyEngine.VALIDATION_FAILED) <==>
              given(FIELD_NOT_FILTERABLE) || given(UNSAFE_VALUE) || given(UNSAFE_FIELD)
  {
    forall code | code in FINAL && given(code) ensures Issue(code, false) in blocking {}
  }

  // What is asked for: the sorts, the target, the scope, or else the filters.
  lemma AskedCodes(issues: seq<Issue>, given: IssueCode -> bool)
    requires forall i :: i in issues <==> i.askable && i.code !in FINAL && given(i.code)
    ensures Asks(issues, PolicyEngine.MISSING_RANKING) <==> given(MISSING_RANKING)
    ensures Asks(issues, PolicyEngine.MISSING_LOOKUP_TARGET) <==> given(MISSING_LOOKUP_TARGET)
    ensures Asks(issues, PolicyEngine.AMBIGUOUS_PRODUCT_SCOPE) <==> given(FIELD_NOT_SUPPORTED_FOR_FAMILY)
    ensures Asks(issues, PolicyEngine.MISSING_FILTERS) <==> exists code :: code !in FINAL && AboutFilters(code) && given(code)
  {
    forall code | code !in FINAL && given(code) ensures Issue(code, true) in issues {}
  }

  predicate AboutFilters(code: IssueCode) {
    code != MISSING_RANKING && code != MISSING_LOOKUP_TARGET && code != FIELD_NOT_SUPPORTED_FOR_FAMILY
  }

  predicate Asks(issues: seq<Issue>, reason: PolicyEngine.ReasonCode) {
    exists i :: i in issues && PolicyEngine.ReasonFor(i.code, PolicyEngine.MISSING_FILTERS) == reason
  }

  lemma Asked(spec: QuerySpec, issues: seq<Issue>, ambiguousTokens: nat, reason: PolicyEngine.ReasonCode)
    requires spec.intent != UNSUPPORTED_PREDICTION && issues != [] && forall i :: i in issues ==> i.askable
    ensures var d := PolicyEngine.DecisionFromValidation(spec, issues, ambiguousTokens);
      d.Some? && (reason in d.value.reasons <==> Asks(issues, reason))
  {
    var blocks := (i: Issue) => !i.askable;
    FilterMembers(issues, blocks);
    EmptyOrMember(Filter(issues, blocks));
    ReasonsAre(issues, PolicyEngine.MISSING_FILTERS, reason);
  }

  /** What a question asks for: an order, a target or a product scope exactly when
      that is what is missing, and filters exactly for every other fault. */
  lemma QuestionReasons(spec: QuerySpec, registry: Registry, upper: string -> string, ambiguousTokens: nat)
    requires spec.intent != UNSUPPORTED_PREDICTION && !SomeReason(FINAL, spec, registry, upper) && AnyReason(spec, registry, upper)
    ensures var d := PolicyEngine.DecisionFromValidation(spec, Issues(spec, registry, upper), ambiguousTokens);
      && d.Some?
      && (PolicyEngine.MISSING_RANKING in d.value.reasons <==> Reason(MISSING_RANKING, spec, registry, upper))
      && (PolicyEngine.MISSING_LOOKUP_TARGET in d.value.reasons <==> Reason(MISSING_LOOKUP_TARGET, spec, registry, upper))
      && (PolicyEngine.AMBIGUOUS_PRODUCT_SCOPE in d.value.reasons <==> Reason(FIELD_NOT_SUPPORTED_FOR_FAMILY, spec, registry, upper))
      && (PolicyEngine.MISSING_FILTERS in d.value.reasons <==> exists code :: AboutFilters(code) && Reason(code, spec, registry, upper))
  {
    var issues := Issues(spec, registry, upper);
    var given := (code: IssueCode) => Reason(code, spec, registry, upper);
    forall i ensures i in issues <==> i.askable && i.code !in FINAL && given(i.code) {
      ReportedExactlyWhen(i, spec, registry, upper);
    }
    var code :| Reason(code, spec, registry, upper);
    assert IssueOf(code) in issues;
    AskedCodes(issues, given);
    Asked(spec, issues, ambiguousTokens, PolicyEngine.MISSING_RANKING);
    Asked(spec, issues, ambiguousTokens, PolicyEngine.MISSING_LOOKUP_TARGET);
    Asked(spec, issues, ambiguousTokens, PolicyEngine.AMBIGUOUS_PRODUCT_SCOPE);
    Asked(spec, issues, ambiguousTokens, PolicyEngine.MISSING_FILTERS);
    FiltersAsked(spec, registry, upper, given);
  }

  lemma FiltersAsked(spec: QuerySpec, registry: Registry, upper: string -> string, given: IssueCode -> bool)
    requires !SomeReason(FINAL, spec, registry, upper) && forall code :: given(code) <==> Reason(code, spec, registry, upper)
    ensures (exists code :: code !in FINAL && AboutFilters(code) && given(code)) <==>
              exists code :: AboutFilters(code) && Reason(code, spec, registry, upper)
  {
    if code :| AboutFilters(code) && Reason(code, spec, registry, upper) {
      assert code !in FINAL && given(code);
    }
  }
}
