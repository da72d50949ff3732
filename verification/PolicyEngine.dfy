/** Deterministic decisions: which retrievers run, how their results merge, and
    the ASK / ABSTAIN / PRE_ANSWER decision before evidence is validated. */
module PolicyEngine {
  import opened Text
  import opened Query
  import opened RetrievalModels
  import opened ResultMerger
  import QueryValidator

  datatype DecisionState = ANSWER | ASK | ABSTAIN | PRE_ANSWER

  datatype ReasonCode =
    | MISSING_FILTERS | MISSING_RANKING | MISSING_LOOKUP_TARGET | AMBIGUOUS_PRODUCT_SCOPE | AMBIGUOUS_ENTITY
    | UNSUPPORTED_PREDICTION | FIELD_NOT_AVAILABLE | ENTITY_NOT_FOUND | NO_VALID_CANDIDATE | QUALITY_BLOCKED
    | EXTERNAL_EVIDENCE_MISSING | VALIDATION_FAILED | EVIDENCE_READY | PARTIAL_CANDIDATE_REMOVED

  function StateName(state: DecisionState): string {
    match state
    case ANSWER => "ANSWER"
    case ASK => "ASK"
    case ABSTAIN => "ABSTAIN"
    case PRE_ANSWER => "PRE_ANSWER"
  }

  // execution_summary keeps the counts that later stages report.
  datatype Decision = Decision(
    state: DecisionState, reasons: seq<ReasonCode>, selected: seq<string>, warnings: seq<string>, removedCount: Option<nat>)

  datatype RetrieverKind = SQL | RELATION | DOCUMENT
  datatype SubPlan = SubPlan(kind: RetrieverKind, required: bool)

  // ---- Planning ----

  function SelectRetrievers(spec: QuerySpec): seq<SubPlan> {
    match spec.intent
    case UNSUPPORTED_PREDICTION => []
    case EXPLAIN_TERM =>
      [SubPlan(DOCUMENT, true)] + if spec.relationshipFilters != [] then [SubPlan(RELATION, false)] else []
    case RELATION_SEARCH => [SubPlan(SQL, true), SubPlan(RELATION, true)]
    case _ => [SubPlan(SQL, true)] + if spec.relationshipFilters != [] then [SubPlan(RELATION, true)] else []
  }

  // select_retrievers: fills an ordered dict of required flags, then lists it.
  method PlanRetrievers(spec: QuerySpec) returns (plans: seq<SubPlan>)
    ensures plans == SelectRetrievers(spec)
    ensures forall i, j :: 0 <= i < j < |plans| ==> plans[i].kind != plans[j].kind
    ensures forall p :: p in plans ==> (p.required <==> !(p.kind.RELATION? && spec.intent.EXPLAIN_TERM?))
    ensures forall p :: p in plans && p.kind.DOCUMENT? ==> spec.intent.EXPLAIN_TERM?
    ensures (exists p :: p in plans && p.kind == DOCUMENT) <==> spec.intent == EXPLAIN_TERM
    ensures (exists p :: p in plans && p.kind == SQL) <==> spec.intent != EXPLAIN_TERM && spec.intent != Intent.UNSUPPORTED_PREDICTION
    ensures (exists p :: p in plans && p.kind == RELATION) <==>
              spec.intent == RELATION_SEARCH || (spec.relationshipFilters != [] && spec.intent != Intent.UNSUPPORTED_PREDICTION)
    ensures forall i :: 0 <= i < |plans| ==> (plans[i].kind == RELATION <==> i == 1)
  {
    if spec.intent.UNSUPPORTED_PREDICTION? { return []; }
    var selected: seq<(RetrieverKind, bool)> := [];
    if spec.intent.EXPLAIN_TERM? {
      selected := [(DOCUMENT, true)];
      if spec.relationshipFilters != [] { selected := selected + [(RELATION, false)]; }
    } else if spec.intent.RELATION_SEARCH? {
      selected := [(SQL, true), (RELATION, true)];
    } else {
      selected := [(SQL, true)];
      if spec.relationshipFilters != [] { selected := selected + [(RELATION, true)]; }
    }
    plans := [];
    for i := 0 to |selected|
      invariant |plans| == i && forall j :: 0 <= j < i ==> plans[j] == SubPlan(selected[j].0, selected[j].1)
    {
      plans := plans + [SubPlan(selected[i].0, selected[i].1)];
    }
    assert plans[0] in plans && (|plans| > 1 ==> plans[1] in plans);
  }

  /** How results merge: an intersection exactly when a relation filters the
      products, and documents alone exactly for an explanation without filters. */
  lemma MergeModeExactly(spec: QuerySpec)
    ensures ResolveMergeMode(spec) == DOCUMENT_ONLY <==> spec.intent == EXPLAIN_TERM && spec.filters == []
    ensures ResolveMergeMode(spec) == RELATION_INTERSECT <==>
              spec.relationshipFilters != [] && (spec.intent != EXPLAIN_TERM || spec.filters != [])
  {
  }

  function ResolveMergeMode(spec: QuerySpec): MergeMode {
    if spec.intent.EXPLAIN_TERM? && spec.filters == [] then DOCUMENT_ONLY
    else if spec.relationshipFilters != [] then RELATION_INTERSECT
    else SQL_PRIMARY
  }

  // ---- Validation issues to a decision ----

  function ReasonFor(code: QueryValidator.IssueCode, otherwise: ReasonCode): ReasonCode {
    match code
    case MISSING_FILTERS => MISSING_FILTERS
    case MISSING_RANKING => MISSING_RANKING
    case MISSING_LOOKUP_TARGET => MISSING_LOOKUP_TARGET
    case MISSING_RELATIONSHIP_FILTERS => MISSING_FILTERS
    case FIELD_NOT_SUPPORTED_FOR_FAMILY => AMBIGUOUS_PRODUCT_SCOPE
    case UNKNOWN_FIELD => FIELD_NOT_AVAILABLE
    case RANK_BLOCKED_FIELD => FIELD_NOT_AVAILABLE
    case UNSUPPORTED_PREDICTION_NOT_EXECUTABLE => ReasonCode.UNSUPPORTED_PREDICTION
    case _ => otherwise
  }

  function ReasonsFor(issues: seq<QueryValidator.Issue>, otherwise: ReasonCode): seq<ReasonCode> {
    Dedupe(seq(|issues|, i requires 0 <= i < |issues| => ReasonFor(issues[i].code, otherwise)))
  }

  function Stop(state: DecisionState, reasons: seq<ReasonCode>, warnings: seq<string>): Decision {
    Decision(state, reasons, [], warnings, None)
  }

  // `ambiguousTokens` counts the entity tokens that grounding found ambiguous.
  function DecisionFromValidation(spec: QuerySpec, issues: seq<QueryValidator.Issue>, ambiguousTokens: nat): Option<Decision> {
    var blocking := Filter(issues, (i: QueryValidator.Issue) => !i.askable);
    if spec.intent.UNSUPPORTED_PREDICTION? then Some(Stop(ABSTAIN, [ReasonCode.UNSUPPORTED_PREDICTION], []))
    else if blocking != [] then Some(Stop(ABSTAIN, ReasonsFor(blocking, VALIDATION_FAILED), []))
    else if issues != [] then Some(Stop(ASK, ReasonsFor(issues, MISSING_FILTERS), []))
    else if ambiguousTokens > 0 then Some(Stop(ASK, [AMBIGUOUS_ENTITY], []))
    else None
  }

  /** Execution goes on exactly for an executable spec without issues and without
      ambiguous entities; otherwise the early decision is ASK or ABSTAIN, and
      ABSTAIN exactly when something in it cannot be asked for. */
  lemma EarlyDecision(spec: QuerySpec, issues: seq<QueryValidator.Issue>, ambiguousTokens: nat)
    ensures var d := DecisionFromValidation(spec, issues, ambiguousTokens);
      && (d.None? <==> !spec.intent.UNSUPPORTED_PREDICTION? && issues == [] && ambiguousTokens == 0)
      && (d.Some? ==> (d.value.state.ASK? || d.value.state.ABSTAIN?) && d.value.selected == [])
      && (d.Some? ==> (d.value.state.ABSTAIN? <==>
            spec.intent.UNSUPPORTED_PREDICTION? || exists i :: i in issues && !i.askable))
  {
    var blocks := (i: QueryValidator.Issue) => !i.askable;
    FilterMembers(issues, blocks);
    EmptyOrMember(Filter(issues, blocks));
  }

  // ---- Quality ----

  // FLAG_SEVERITY: the one flag of severity BLOCK_ANSWER.
  const BLOCKING_FLAG := "JOIN_CONTAMINATION"

  predicate IsBlocked(c: CandidateView) {
    || BLOCKING_FLAG in c.flags
    || exists m :: m in c.metrics && ((m.raw == Number(0.0) && INVALID_FOR_DECISION in m.flags) || BLOCKING_FLAG in m.flags)
  }

  function EligibleOf(candidates: seq<CandidateView>): seq<CandidateView> {
    Filter(candidates, (c: CandidateView) => !IsBlocked(c))
  }

  method SplitCandidatesByQuality(candidates: seq<CandidateView>) returns (eligible: seq<CandidateView>, blocked: seq<CandidateView>)
    ensures eligible == EligibleOf(candidates)
    ensures blocked == Filter(candidates, (c: CandidateView) => IsBlocked(c))
    ensures |eligible| + |blocked| == |candidates|
    ensures forall c :: c in blocked <==>
              c in candidates
              && ("JOIN_CONTAMINATION" in c.flags
                  || exists m :: m in c.metrics && ((m.raw == Number(0.0) && "INVALID_FOR_DECISION" in m.flags) || "JOIN_CONTAMINATION" in m.flags))
  {
    eligible, blocked := [], [];
    var free, stuck := (c: CandidateView) => !IsBlocked(c), (c: CandidateView) => IsBlocked(c);
    for i := 0 to |candidates|
      invariant eligible == Filter(candidates[..i], free) && blocked == Filter(candidates[..i], stuck)
      invariant |eligible| + |blocked| == i
    {
      FilterSnoc(candidates, i, free);
      FilterSnoc(candidates, i, stuck);
      if IsBlocked(candidates[i]) {
        blocked := blocked + [candidates[i]];
      } else {
        eligible := eligible + [candidates[i]];
      }
    }
    assert candidates[..|candidates|] == candidates;
    FilterMembers(candidates, stuck);
  }

  // ---- The preliminary decision ----

  function Uids(s: seq<CandidateView>): seq<string> {
    Mapped(s, (c: CandidateView) => c.uid)
  }

  predicate Unresolved(warnings: seq<string>) {
    exists w :: w in warnings && "UNRESOLVED_ENTITY:" <= w
  }

  predicate CompaniesOnly(relations: seq<RelationEvidence>) {
    relations != [] && forall e :: e in relations ==> e.productUid.None?
  }

  function DecidePreliminary(spec: QuerySpec, merged: Option<Result>): Decision {
    if merged.None? then Stop(ABSTAIN, [NO_VALID_CANDIDATE], [])
    else
      var m := merged.value;
      if spec.intent.RELATION_SEARCH? && m.relations == [] then
        Stop(ABSTAIN, [if Unresolved(m.warnings) then ENTITY_NOT_FOUND else EXTERNAL_EVIDENCE_MISSING], m.warnings)
      else if spec.intent.EXPLAIN_TERM? then
        if m.documents != [] then Stop(PRE_ANSWER, [EVIDENCE_READY], []) else Stop(ABSTAIN, [EXTERNAL_EVIDENCE_MISSING], m.warnings)
      else
        var eligible := EligibleOf(m.candidates);
        if spec.intent.RELATION_SEARCH? && eligible == [] && CompaniesOnly(m.relations) then Stop(PRE_ANSWER, [EVIDENCE_READY], [])
        else if eligible == [] && m.candidates != [] then Stop(ABSTAIN, [QUALITY_BLOCKED], ["blocked_candidates=" + Digits(|m.candidates|)])
        else if eligible == [] && !spec.intent.AGGREGATE? then Stop(ABSTAIN, [NO_VALID_CANDIDATE], m.warnings)
        else if spec.intent.AGGREGATE? && m.aggregate.Some? then Stop(PRE_ANSWER, [EVIDENCE_READY], [])
        else Decision(PRE_ANSWER, [EVIDENCE_READY], Uids(eligible), m.warnings, None)
  }

  // A PRE_ANSWER that selects no candidate and is not a company relation answer:
  // no later stage turns it into anything else.
  predicate StaysPreliminary(spec: QuerySpec, m: Result) {
    || (spec.intent.EXPLAIN_TERM? && m.documents != [])
    || (spec.intent.AGGREGATE? && (m.aggregate.Some? || m.candidates == []) && (EligibleOf(m.candidates) != [] || m.candidates == []))
  }

  /** What a preliminary decision can be. Selected uids are exactly those of the
      unblocked candidates, and an answer without any is a term explanation, an
      aggregate, or a relation between companies. */
  lemma PreliminaryShape(spec: QuerySpec, m: Result)
    ensures var d := DecidePreliminary(spec, Some(m));
      && (d.state.PRE_ANSWER? || d.state.ABSTAIN?)
      && (d.state.ABSTAIN? ==> d.selected == [])
      && (d.selected != [] ==> d.selected == Uids(EligibleOf(m.candidates)))
      && (d.state.PRE_ANSWER? && d.selected == [] <==>
            StaysPreliminary(spec, m) || (spec.intent.RELATION_SEARCH? && EligibleOf(m.candidates) == [] && CompaniesOnly(m.relations)))
  {
  }

  // The one reason of an abstention.
  ghost predicate Explains(reason: ReasonCode, spec: QuerySpec, m: Result) {
    if spec.intent == RELATION_SEARCH && m.relations == [] then
      reason == if exists w :: w in m.warnings && "UNRESOLVED_ENTITY:" <= w then ENTITY_NOT_FOUND else EXTERNAL_EVIDENCE_MISSING
    else if spec.intent == EXPLAIN_TERM then reason == EXTERNAL_EVIDENCE_MISSING
    else reason == if m.candidates == [] then NO_VALID_CANDIDATE else QUALITY_BLOCKED
  }

  /** A preliminary decision gives one reason: that evidence is ready, or what
      was missing. An abstention warns of the number of blocked candidates, or
      of what the retrievers warned of. */
  lemma PreliminaryReason(spec: QuerySpec, m: Result)
    ensures var d := DecidePreliminary(spec, Some(m));
      && |d.reasons| == 1 && d.removedCount == None
      && (d.state == PRE_ANSWER ==> d.reasons[0] == EVIDENCE_READY)
      && (d.state == ABSTAIN ==> Explains(d.reasons[0], spec, m))
      && (d.state == ABSTAIN ==>
            d.warnings == if d.reasons == [QUALITY_BLOCKED] then ["blocked_candidates=" + Digits(|m.candidates|)] else m.warnings)
  {
    FilterMembers(m.candidates, (c: CandidateView) => !IsBlocked(c));
    EmptyOrMember(m.candidates);
  }

  predicate AllBlocked(m: Result) {
    forall c :: c in m.candidates ==> IsBlocked(c)
  }

  /** When merged results do not carry an answer: relations or documents that
      the intent needs are missing, or no candidate is free of blocking flags. */
  lemma AbstainsExactlyWhen(spec: QuerySpec, m: Result)
    ensures DecidePreliminary(spec, Some(m)).state.ABSTAIN? <==>
              match spec.intent
              case EXPLAIN_TERM => m.documents == []
              case RELATION_SEARCH => m.relations == [] || (AllBlocked(m) && exists e :: e in m.relations && e.productUid.Some?)
              case AGGREGATE => m.candidates != [] && AllBlocked(m)
              case _ => AllBlocked(m)
    ensures QUALITY_BLOCKED in DecidePreliminary(spec, Some(m)).reasons ==> m.candidates != [] && AllBlocked(m)
  {
    var free := (c: CandidateView) => !IsBlocked(c);
    FilterMembers(m.candidates, free);
    EmptyOrMember(EligibleOf(m.candidates));
    EmptyOrMember(m.candidates);
  }

  /** Selected uids are pairwise distinct, and each is a merged candidate's. */
  lemma SelectedAreCandidates(spec: QuerySpec, m: Result)
    requires DistinctUids(m.candidates)
    ensures Distinct(DecidePreliminary(spec, Some(m)).selected)
    ensures forall uid :: uid in DecidePreliminary(spec, Some(m)).selected ==> HasUid(m.candidates, uid)
  {
    var free := (c: CandidateView) => !IsBlocked(c);
    FilteredUidsDistinct(m.candidates, free);
    FilterMembers(m.candidates, free);
    forall uid | uid in Uids(EligibleOf(m.candidates)) ensures HasUid(m.candidates, uid) {
      var k :| 0 <= k < |EligibleOf(m.candidates)| && EligibleOf(m.candidates)[k].uid == uid;
      assert EligibleOf(m.candidates)[k] in m.candidates;
      var i :| 0 <= i < |m.candidates| && m.candidates[i] == EligibleOf(m.candidates)[k];
    }
  }
}
