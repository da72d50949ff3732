/** AgentOrchestrator: validation, retrieval, merge and the preliminary decision
    for one spec, behind the two caches of CachedPipeline. */
module Orchestrator {
  import opened Text
  import opened Query
  import opened QuestionText
  import opened RetrievalModels
  import opened ResultMerger
  import opened PolicyEngine
  import opened CachedPipeline
  import Interleaved = InterleavedCalls
  import QueryValidator

  // dataset_version_id, the state of the database behind the session, the dataset label,
  // the external version
  datatype Context = Context(datasetId: int, database: nat, datasetLabel: string, external: string)

  /** The outside world: the field registry, str.upper, the number of ambiguous
      tokens of the entity texts, the retrievers (None when one raises), and the
      order in which sets iterate. */
  datatype World = World(
    registry: Registry, upper: string -> string, ambiguous: seq<string> -> nat,
    retrieve: (RetrieverKind, QuerySpec, Context) -> Option<Result>, setOrder: set<string> -> seq<string>)

  datatype TraceEvent = TraceEvent(stage: string, detail: string, count: Option<nat>)

  // AgentRunResult without query_id and timings.
  datatype Run = Run(
    spec: QuerySpec, plan: Option<seq<SubPlan>>, merged: Option<Result>, retrieved: Retrieved, preliminary: Decision,
    trace: seq<TraceEvent>)

  datatype Retrieved = Retrieved(sql: Option<Result>, relation: Option<Result>, document: Option<Result>)

  datatype Failure = ParserFailure | RetrieverFailure(kind: RetrieverKind)

  const NOTHING := Retrieved(None, None, None)

  function KindName(kind: RetrieverKind): string {
    match kind case SQL => "SQL" case RELATION => "RELATION" case DOCUMENT => "DOCUMENT"
  }

  function ModeName(mode: MergeMode): string {
    match mode case SQL_PRIMARY => "SQL_PRIMARY" case RELATION_INTERSECT => "RELATION_INTERSECT" case DOCUMENT_ONLY => "DOCUMENT_ONLY"
  }

  function Stored(r: Retrieved, kind: RetrieverKind, result: Result): Retrieved {
    match kind
    case SQL => r.(sql := Some(result))
    case RELATION => r.(relation := Some(result))
    case DOCUMENT => r.(document := Some(result))
  }

  // _candidate_count
  function CandidateCount(kind: RetrieverKind, result: Result): nat {
    match kind
    case SQL => result.countFinal
    case RELATION => |result.relations|
    case DOCUMENT => |result.documents|
  }

  datatype Progress = Progress(retrieved: Retrieved, trace: seq<TraceEvent>)

  // One turn of the retriever loop; Failed stands for the raised RetrieverFailure.
  function RetrieveOne(w: World, spec: QuerySpec, context: Context, p: Progress, plan: SubPlan): Response<Progress, Failure> {
    match w.retrieve(plan.kind, spec, context)
    case Some(result) =>
      Done(Progress(Stored(p.retrieved, plan.kind, result),
                    p.trace + [TraceEvent("RETRIEVE", KindName(plan.kind), Some(CandidateCount(plan.kind, result)))]))
    case None =>
      if plan.required then Failed(RetrieverFailure(plan.kind))
      else Done(p.(trace := p.trace + [TraceEvent("RETRIEVE", "optional_" + KindName(plan.kind) + "_failed", None)]))
  }

  function RetrieveAll(w: World, spec: QuerySpec, context: Context, p: Progress, plans: seq<SubPlan>): Response<Progress, Failure>
    decreases |plans|
  {
    if plans == [] then Done(p)
    else
      var next := RetrieveOne(w, spec, context, p, plans[0]);
      if next.Failed? then next else RetrieveAll(w, spec, context, next.value, plans[1..])
  }

  function EarlyDecisionOf(w: World, spec: QuerySpec): Option<Decision> {
    DecisionFromValidation(spec, QueryValidator.Issues(spec, w.registry, w.upper), w.ambiguous(spec.entities))
  }

  const VALIDATED := [TraceEvent("VALIDATE", "validation_complete", None)]

  function Decided(w: World, spec: QuerySpec, p: Progress): Run {
    var mode, r := ResolveMergeMode(spec), p.retrieved;
    var merged := Merge(mode, r.sql, r.relation, r.document, w.setOrder);
    var preliminary := DecidePreliminary(spec, Some(merged));
    Run(spec, Some(SelectRetrievers(spec)), Some(merged), r, preliminary,
        p.trace + [TraceEvent("MERGE", ModeName(mode), Some(merged.countFinal)), TraceEvent("DECIDE", StateName(preliminary.state), None)])
  }

  // From the planned retrievals to the decision.
  function Execute(w: World, spec: QuerySpec, context: Context, plans: seq<SubPlan>): Response<Run, Failure> {
    match RetrieveAll(w, spec, context, Progress(NOTHING, VALIDATED), plans)
    case Failed(failure) => Failed(failure)
    case Done(p) => Done(Decided(w, spec, p))
  }

  /** run_with_spec behind its cache lookup. */
  function Pipeline(w: World, spec: QuerySpec, context: Context): Response<Run, Failure> {
    var early := EarlyDecisionOf(w, spec);
    if early.Some? then Done(Run(spec, None, None, NOTHING, early.value, VALIDATED))
    else Execute(w, spec, context, SelectRetrievers(spec))
  }

  lemma PipelineDecides(w: World, spec: QuerySpec, context: Context, p: Progress)
    requires EarlyDecisionOf(w, spec).None?
    requires RetrieveAll(w, spec, context, Progress(NOTHING, VALIDATED), SelectRetrievers(spec)) == Done(p)
    ensures Pipeline(w, spec, context) == Done(Decided(w, spec, p))
  {
  }

  method Retrieve(w: World, spec: QuerySpec, context: Context, plans: seq<SubPlan>, start: seq<TraceEvent>)
    returns (response: Response<Progress, Failure>)
    ensures response == RetrieveAll(w, spec, context, Progress(NOTHING, start), plans)
  {
    var sql, relation, document: Option<Result>, trace := None, None, None, start;
    for i := 0 to |plans|
      invariant RetrieveAll(w, spec, context, Progress(NOTHING, start), plans)
             == RetrieveAll(w, spec, context, Progress(Retrieved(sql, relation, document), trace), plans[i..])
    {
      assert plans[i..][1..] == plans[i + 1..];
      var kind := plans[i].kind;
      var result := w.retrieve(kind, spec, context);
      if result.None? {
        if plans[i].required { return Failed(RetrieverFailure(kind)); }
        trace := trace + [TraceEvent("RETRIEVE", "optional_" + KindName(kind) + "_failed", None)];
        continue;
      }
      match kind {
        case SQL => sql := result;
        case RELATION => relation := result;
        case DOCUMENT => document := result;
      }
      trace := trace + [TraceEvent("RETRIEVE", KindName(kind), Some(CandidateCount(kind, result.value)))];
    }
    response := Done(Progress(Retrieved(sql, relation, document), trace));
  }

  method RunSpecUncached(w: World, spec: QuerySpec, context: Context) returns (response: Response<Run, Failure>)
    ensures response == Pipeline(w, spec, context)
  {
    var issues := QueryValidator.ValidateQuerySpec(spec, w.registry, w.upper);
    var early := DecisionFromValidation(spec, issues, w.ambiguous(spec.entities));
    if early.Some? {
      return Done(Run(spec, None, None, NOTHING, early.value, VALIDATED));
    }
    var plans := PlanRetrievers(spec);
    var progress := Retrieve(w, spec, context, plans, VALIDATED);
    if progress.Failed? { return Failed(progress.reason); }
    response := Done(Decided(w, spec, progress.value));
  }

  // ---- What a completed run is ----

  // Stopped early with a question or an abstention, or decided on merged results.
  ghost predicate WellFormedRun(run: Run) {
    match run.merged
    case None => (run.preliminary.state.ASK? || run.preliminary.state.ABSTAIN?) && run.preliminary.selected == []
    case Some(m) => DistinctUids(m.candidates) && m.countFinal == |m.candidates| && run.preliminary == DecidePreliminary(run.spec, run.merged)
  }

  lemma CompletedRunsAreWellFormed(w: World, spec: QuerySpec, context: Context)
    ensures Pipeline(w, spec, context).Done? ==>
              Pipeline(w, spec, context).value.spec == spec && WellFormedRun(Pipeline(w, spec, context).value)
  {
    EarlyDecision(spec, QueryValidator.Issues(spec, w.registry, w.upper), w.ambiguous(spec.entities));
    if EarlyDecisionOf(w, spec).None? {
      var progress := RetrieveAll(w, spec, context, Progress(NOTHING, VALIDATED), SelectRetrievers(spec));
      if progress.Done? {
        var r := progress.value.retrieved;
        MergedUidsDistinct(ResolveMergeMode(spec), r.sql, r.relation, r.document, w.setOrder);
      }
    }
  }

  // ---- When a run raises ----

  lemma {:induction false} RetrievalFailsExactlyWhen(w: World, spec: QuerySpec, context: Context, p: Progress, plans: seq<SubPlan>)
    ensures RetrieveAll(w, spec, context, p, plans).Failed? <==>
              exists plan :: plan in plans && plan.required && w.retrieve(plan.kind, spec, context).None?
    decreases |plans|
  {
    if plans != [] {
      assert plans == [plans[0]] + plans[1..];
      var next := RetrieveOne(w, spec, context, p, plans[0]);
      if next.Done? {
        RetrievalFailsExactlyWhen(w, spec, context, next.value, plans[1..]);
      }
    }
  }

  /** A run raises exactly when execution goes on and a required retriever
      fails; a failing optional one never does. */
  lemma RaisesExactlyWhen(w: World, spec: QuerySpec, context: Context)
    ensures Pipeline(w, spec, context).Failed? <==>
              && EarlyDecisionOf(w, spec).None?
              && exists plan :: plan in SelectRetrievers(spec) && plan.required && w.retrieve(plan.kind, spec, context).None?
  {
    RetrievalFailsExactlyWhen(w, spec, context, Progress(NOTHING, VALIDATED), SelectRetrievers(spec));
  }

  function Slot(r: Retrieved, kind: RetrieverKind): Option<Result> {
    match kind case SQL => r.sql case RELATION => r.relation case DOCUMENT => r.document
  }

  predicate Plans(plans: seq<SubPlan>, kind: RetrieverKind) {
    exists i :: 0 <= i < |plans| && plans[i].kind == kind
  }

  /** Each planned retriever's result ends up in its own slot, and nothing else
      does: a slot is empty when its retriever is not planned, or optional and failed. */
  lemma {:induction false} ResultsReachTheirSlots(w: World, spec: QuerySpec, context: Context, p: Progress, plans: seq<SubPlan>, kind: RetrieverKind)
    requires RetrieveAll(w, spec, context, p, plans).Done? && Slot(p.retrieved, kind).None?
    requires forall i, j :: 0 <= i < j < |plans| ==> plans[i].kind != plans[j].kind
    ensures Slot(RetrieveAll(w, spec, context, p, plans).value.retrieved, kind) ==
              if Plans(plans, kind) then w.retrieve(kind, spec, context) else None
    decreases |plans|
  {
    if plans != [] {
      var next := RetrieveOne(w, spec, context, p, plans[0]).value;
      if plans[0].kind == kind {
        assert !Plans(plans[1..], kind);
        SlotStays(w, spec, context, next, plans[1..], kind);
      } else {
        ResultsReachTheirSlots(w, spec, context, next, plans[1..], kind);
        if Plans(plans, kind) {
          var i :| 0 <= i < |plans| && plans[i].kind == kind;
          assert plans[1..][i - 1].kind == kind;
        }
      }
    }
  }

  lemma {:induction false} SlotStays(w: World, spec: QuerySpec, context: Context, p: Progress, plans: seq<SubPlan>, kind: RetrieverKind)
    requires RetrieveAll(w, spec, context, p, plans).Done? && !Plans(plans, kind)
    ensures Slot(RetrieveAll(w, spec, context, p, plans).value.retrieved, kind) == Slot(p.retrieved, kind)
    decreases |plans|
  {
    if plans != [] {
      assert plans[0].kind != kind && !Plans(plans[1..], kind);
      SlotStays(w, spec, context, RetrieveOne(w, spec, context, p, plans[0]).value, plans[1..], kind);
    }
  }

  // ---- What a completed run reports ----

  // The name of a retriever, and how much it found.
  predicate Reports(kind: RetrieverKind, found: Result, name: string, count: Option<nat>) {
    || (kind == SQL && name == "SQL" && count == Some(found.countFinal))
    || (kind == RELATION && name == "RELATION" && count == Some(|found.relations|))
    || (kind == DOCUMENT && name == "DOCUMENT" && count == Some(|found.documents|))
  }

  predicate ReportsFailure(kind: RetrieverKind, detail: string) {
    || (kind == SQL && detail == "optional_SQL_failed") || (kind == RELATION && detail == "optional_RELATION_failed")
    || (kind == DOCUMENT && detail == "optional_DOCUMENT_failed")
  }

  // The event of one planned retriever.
  predicate Traces(w: World, spec: QuerySpec, context: Context, plan: SubPlan, event: TraceEvent) {
    && event.stage == "RETRIEVE"
    && match w.retrieve(plan.kind, spec, context)
      case Some(found) => Reports(plan.kind, found, event.detail, event.count)
      case None => ReportsFailure(plan.kind, event.detail) && event.count == None
  }

  lemma OneEvent(w: World, spec: QuerySpec, context: Context, p: Progress, plan: SubPlan)
    requires RetrieveOne(w, spec, context, p, plan).Done?
    ensures var next := RetrieveOne(w, spec, context, p, plan).value;
      |next.trace| == |p.trace| + 1 && next.trace[..|p.trace|] == p.trace && Traces(w, spec, context, plan, next.trace[|p.trace|])
  {
  }

  lemma {:induction false} RetrievalIsTraced(w: World, spec: QuerySpec, context: Context, p: Progress, plans: seq<SubPlan>, end: Progress)
    requires RetrieveAll(w, spec, context, p, plans) == Done(end)
    ensures |end.trace| == |p.trace| + |plans| && end.trace[..|p.trace|] == p.trace
    ensures forall i :: 0 <= i < |plans| ==> Traces(w, spec, context, plans[i], end.trace[|p.trace| + i])
    decreases |plans|
  {
    if plans != [] {
      var next, n := RetrieveOne(w, spec, context, p, plans[0]).value, |p.trace|;
      OneEvent(w, spec, context, p, plans[0]);
      RetrievalIsTraced(w, spec, context, next, plans[1..], end);
      assert forall i :: 0 <= i <= n ==> end.trace[i] == next.trace[i];
      assert end.trace[..n] == next.trace[..n];
      forall i | 1 <= i < |plans| ensures Traces(w, spec, context, plans[i], end.trace[n + i]) {
        assert plans[1..][i - 1] == plans[i];
      }
    }
  }

  predicate ReportsMode(mode: MergeMode, detail: string) {
    || (mode == SQL_PRIMARY && detail == "SQL_PRIMARY") || (mode == RELATION_INTERSECT && detail == "RELATION_INTERSECT")
    || (mode == DOCUMENT_ONLY && detail == "DOCUMENT_ONLY")
  }

  // One event per stage: validation, each retriever in plan order, the merge, the decision.
  ghost predicate TraceOf(w: World, spec: QuerySpec, context: Context, plans: seq<SubPlan>, m: Result, d: Decision, trace: seq<TraceEvent>) {
    var n := |plans|;
    && |trace| == n + 3 && trace[0] == TraceEvent("VALIDATE", "validation_complete", None)
    && (forall i :: 0 <= i < n ==> Traces(w, spec, context, plans[i], trace[1 + i]))
    && trace[n + 1].stage == "MERGE" && ReportsMode(ResolveMergeMode(spec), trace[n + 1].detail) && trace[n + 1].count == Some(m.countFinal)
    && trace[n + 2] == TraceEvent("DECIDE", StateName(d.state), None)
  }

  /** A run that validation stops keeps the early decision, and has read nothing. */
  lemma StoppedRunReadsNothing(w: World, spec: QuerySpec, context: Context)
    requires EarlyDecisionOf(w, spec).Some?
    ensures Pipeline(w, spec, context).Done? && var run := Pipeline(w, spec, context).value;
      && run.preliminary == EarlyDecisionOf(w, spec).value && run.plan == None && run.merged == None
      && run.retrieved.sql == None && run.retrieved.relation == None && run.retrieved.document == None
      && run.trace == [TraceEvent("VALIDATE", "validation_complete", None)]
  {
  }

  // What was read, each result in its own slot.
  predicate ReadBy(w: World, spec: QuerySpec, context: Context, plans: seq<SubPlan>, r: Retrieved) {
    && r.sql == (if Plans(plans, SQL) then w.retrieve(SQL, spec, context) else None)
    && r.relation == (if Plans(plans, RELATION) then w.retrieve(RELATION, spec, context) else None)
    && r.document == (if Plans(plans, DOCUMENT) then w.retrieve(DOCUMENT, spec, context) else None)
  }

  lemma SlotsAreRead(w: World, spec: QuerySpec, context: Context, plans: seq<SubPlan>, end: Progress)
    requires RetrieveAll(w, spec, context, Progress(NOTHING, VALIDATED), plans) == Done(end)
    requires forall i, j :: 0 <= i < j < |plans| ==> plans[i].kind != plans[j].kind
    ensures ReadBy(w, spec, context, plans, end.retrieved)
  {
    var start := Progress(NOTHING, VALIDATED);
    ResultsReachTheirSlots(w, spec, context, start, plans, SQL);
    ResultsReachTheirSlots(w, spec, context, start, plans, RELATION);
    ResultsReachTheirSlots(w, spec, context, start, plans, DOCUMENT);
  }

  lemma DecidedIsTraced(w: World, spec: QuerySpec, context: Context, plans: seq<SubPlan>, end: Progress)
    requires RetrieveAll(w, spec, context, Progress(NOTHING, VALIDATED), plans) == Done(end)
    ensures var run := Decided(w, spec, end); TraceOf(w, spec, context, plans, run.merged.value, run.preliminary, run.trace)
  {
    RetrievalIsTraced(w, spec, context, Progress(NOTHING, VALIDATED), plans, end);
    assert end.trace[..1][0] == end.trace[0];
  }

  lemma EndOfRetrieval(w: World, spec: QuerySpec, context: Context, plans: seq<SubPlan>) returns (end: Progress)
    requires Execute(w, spec, context, plans).Done?
    ensures RetrieveAll(w, spec, context, Progress(NOTHING, VALIDATED), plans) == Done(end)
    ensures Execute(w, spec, context, plans) == Done(Decided(w, spec, end))
  {
    end := RetrieveAll(w, spec, context, Progress(NOTHING, VALIDATED), plans).value;
  }

  lemma EndOfRun(w: World, spec: QuerySpec, context: Context) returns (plans: seq<SubPlan>, end: Progress)
    requires EarlyDecisionOf(w, spec).None? && Pipeline(w, spec, context).Done?
    ensures plans == SelectRetrievers(spec) && RetrieveAll(w, spec, context, Progress(NOTHING, VALIDATED), plans) == Done(end)
    ensures Pipeline(w, spec, context) == Done(Decided(w, spec, end))
    ensures forall i, j :: 0 <= i < j < |plans| ==> plans[i].kind != plans[j].kind
  {
    plans := SelectRetrievers(spec);
    end := EndOfRetrieval(w, spec, context, plans);
  }

  /** Every other completed run merges what its planned retrievers found, each
      as its own, in the mode of the spec, decides on the merged result, and
      traces each stage. */
  lemma CompletedRunMergesWhatItRead(w: World, spec: QuerySpec, context: Context)
    requires EarlyDecisionOf(w, spec).None? && Pipeline(w, spec, context).Done?
    ensures var run, plans := Pipeline(w, spec, context).value, SelectRetrievers(spec);
      && run.plan == Some(plans) && ReadBy(w, spec, context, plans, run.retrieved)
      && run.merged == Some(Merge(ResolveMergeMode(spec), run.retrieved.sql, run.retrieved.relation, run.retrieved.document, w.setOrder))
      && run.preliminary == DecidePreliminary(spec, run.merged)
      && TraceOf(w, spec, context, plans, run.merged.value, run.preliminary, run.trace)
  {
    var plans, end := EndOfRun(w, spec, context);
    SlotsAreRead(w, spec, context, plans, end);
    DecidedIsTraced(w, spec, context, plans, end);
  }

  // ---- Behind the caches ----

  function Versions(context: Context): seq<string> {
    [context.datasetLabel, context.external]
  }

  function BackendOf(w: World, parse: string -> Option<QuerySpec>, promptVersion: string): Backend<QuerySpec, Context, Run, Failure> {
    Backend(
      (question: string) => match parse(question) case None => Failed(ParserFailure) case Some(spec) => Done(spec),
      (spec: QuerySpec, context: Context) => Pipeline(w, spec, context),
      Versions, [promptVersion, "queryspec-1.0"])
  }

  ghost predicate RetrieversFollowVersions(w: World) {
    forall kind, spec, c1: Context, c2: Context :: c1.datasetLabel == c2.datasetLabel && c1.external == c2.external ==>
      w.retrieve(kind, spec, c1) == w.retrieve(kind, spec, c2)
  }

  // The key tells data set labels and external versions apart, and nothing else.
  lemma VersionsTell(c1: Context, c2: Context)
    ensures Versions(c1) == Versions(c2) <==> c1.datasetLabel == c2.datasetLabel && c1.external == c2.external
  {
    assert Versions(c1)[0] == c1.datasetLabel && Versions(c1)[1] == c1.external;
  }

  lemma {:induction false} SameRetrieval(w: World, spec: QuerySpec, c1: Context, c2: Context, p: Progress, plans: seq<SubPlan>)
    requires RetrieversFollowVersions(w) && Versions(c1) == Versions(c2)
    ensures RetrieveAll(w, spec, c1, p, plans) == RetrieveAll(w, spec, c2, p, plans)
    decreases |plans|
  {
    if plans != [] {
      VersionsTell(c1, c2);
      var next := RetrieveOne(w, spec, c1, p, plans[0]);
      assert next == RetrieveOne(w, spec, c2, p, plans[0]);
      if next.Done? {
        SameRetrieval(w, spec, c1, c2, next.value, plans[1..]);
      }
    }
  }

  lemma SamePipeline(w: World, spec: QuerySpec, c1: Context, c2: Context)
    requires RetrieversFollowVersions(w) && Versions(c1) == Versions(c2)
    ensures Pipeline(w, spec, c1) == Pipeline(w, spec, c2)
  {
    SameRetrieval(w, spec, c1, c2, Progress(NOTHING, VALIDATED), SelectRetrievers(spec));
  }

  /** With retrievers that follow the versions, and a parser that sees only the
      rule parser's normal form of the question, every call returns what an
      uncached orchestrator would, in sequence and in every interleaving. */
  lemma OrchestratorIsTransparent(w: World, rules: string -> Option<QuerySpec>, promptVersion: string, capacity: nat)
    requires capacity >= 1 && RetrieversFollowVersions(w)
    ensures Transparent(BackendOf(w, (q: string) => ParseByRules(q, rules), promptVersion), capacity)
    ensures Interleaved.TransparentInEverySchedule(BackendOf(w, (q: string) => ParseByRules(q, rules), promptVersion), capacity)
  {
    var parse := (q: string) => ParseByRules(q, rules);
    var b := BackendOf(w, parse, promptVersion);
    forall spec, c1, c2 | b.versions(c1) == b.versions(c2) && b.run(spec, c1).Done? ensures b.run(spec, c2) == b.run(spec, c1) {
      SamePipeline(w, spec, c1, c2);
    }
    forall q1, q2, context | CacheNormal(q1) == CacheNormal(q2) && b.parse(q1).Done?
      ensures Direct(b, Ask(q2, context)) == b.run(b.parse(q1).value, context)
    {
      SameCacheKeySameParse(q1, q2, rules);
    }
    Interleaved.SchedulesAreTransparentExactlyWhen(b, capacity);
  }
}
