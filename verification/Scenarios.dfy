/** Concrete runs through the whole answer path: relation data that is loaded
    after a question was answered, and the explanation of a term. */
module Scenarios {
  import opened Text
  import opened Query
  import opened RetrievalModels
  import opened ResultMerger
  import opened MergeMeaning
  import opened PolicyEngine
  import opened CachedPipeline
  import opened EvidenceBuilder
  import opened EvidencePipeline
  import opened Orchestrator
  import AnswerGuard
  import AnswerService
  import ContextSerializer
  import QueryValidator

  // A spec without clauses, for an intent that needs at most a relation.
  function BareSpec(intent: Intent, entities: seq<string>, relations: seq<RelationshipFilter>): QuerySpec {
    QuerySpec(intent, [ETF_KR], entities, [], relations, [], [], [], 10)
  }

  function WorldOf(retrieve: (RetrieverKind, QuerySpec, Context) -> Option<Result>): World {
    World(map[], (s: string) => s, (entities: seq<string>) => 0, retrieve, (s: set<string>) => [])
  }

  lemma BareSpecIsExecuted(spec: QuerySpec, w: World)
    requires spec == BareSpec(spec.intent, spec.entities, spec.relationshipFilters)
    requires spec.intent.EXPLAIN_TERM? || (spec.intent.RELATION_SEARCH? && spec.relationshipFilters != [])
    requires w.ambiguous(spec.entities) == 0
    ensures EarlyDecisionOf(w, spec).None?
  {
    var issues := QueryValidator.Issues(spec, w.registry, w.upper);
    assert QueryValidator.FieldRefs(spec) == [];
    assert issues == [];
    EarlyDecision(spec, issues, 0);
  }

  // ---- Relation data loaded after the first question ----

  const SEARCH := BareSpec(RELATION_SEARCH, [], [RelationshipFilter(SUBSIDIARY_OF, "A")])
  const NOTHING_KNOWN: Result := Retrieval([], [], [], ["UNRESOLVED_ENTITY:A"], 0, None)

  // The curated ETFs: one row, and without a sort it comes out unmarked.
  const ETF := CandidateView("ETF_KR:KR7000000001", ETF_KR, "PREF01N001", "KR7000000001", Some("ETF"), Some("KR7000000001"), [], [], [], None)

  // The retrievers before (0) and after (1) the relation data is in the database.
  function RelationsIn(kind: RetrieverKind, spec: QuerySpec, context: Context): Option<Result> {
    match kind
    case SQL => Some(OneCandidate(ETF))
    case RELATION => Some(if context.database == 0 then NOTHING_KNOWN else COMPANIES_ONLY)
    case DOCUMENT => None
  }

  // One dataset, one label, one manifest file: only the database has changed.
  function At(database: nat): Context {
    Context(1, database, "2026-07-11-baseline", "manifest-hash")
  }

  function Later(): World {
    WorldOf((kind, spec, context) => RelationsIn(kind, spec, context))
  }

  lemma RetrievedBoth(database: nat)
    ensures var p := RetrieveAll(Later(), SEARCH, At(database), Progress(NOTHING, VALIDATED), SelectRetrievers(SEARCH));
      && p.Done?
      && p.value.retrieved == Retrieved(Some(OneCandidate(ETF)), RelationsIn(RELATION, SEARCH, At(database)), None)
  {
    var w, start, plans := Later(), Progress(NOTHING, VALIDATED), SelectRetrievers(SEARCH);
    assert plans == [SubPlan(SQL, true), SubPlan(RELATION, true)];
    assert plans[1..] == [SubPlan(RELATION, true)] && plans[1..][1..] == [];
    var one := RetrieveOne(w, SEARCH, At(database), start, plans[0]).value;
    var two := RetrieveOne(w, SEARCH, At(database), one, plans[1]).value;
    assert RetrieveAll(w, SEARCH, At(database), two, []) == Done(two);
    assert RetrieveAll(w, SEARCH, At(database), one, plans[1..]) == Done(two);
  }

  lemma MergedRelations(c: CandidateView, relation: Result, setOrder: set<string> -> seq<string>)
    requires relation.candidates == [] && ProductUids(relation.relations) == {}
    ensures var m := Merge(RELATION_INTERSECT, Some(OneCandidate(c)), Some(relation), None, setOrder);
      m.candidates == [c] && m.relations == relation.relations && m.documents == [] && m.warnings == relation.warnings
  {
    NamedUids(relation);
    PlainMerge(RELATION_INTERSECT, Some(OneCandidate(c)), Some(relation), None, setOrder);
    MergedLists(RELATION_INTERSECT, OneCandidate(c), relation, EMPTY_RESULT, setOrder);
    assert [] + relation.relations == relation.relations && [] + relation.warnings == relation.warnings;
  }

  lemma SearchAt(database: nat)
    ensures var r := Pipeline(Later(), SEARCH, At(database));
      && r.Done? && r.value.preliminary.state == (if database == 0 then ABSTAIN else PRE_ANSWER)
      && r.value.preliminary.selected == (if database == 0 then [] else [ETF.uid])
  {
    BareSpecIsExecuted(SEARCH, Later());
    RetrievedBoth(database);
    CompaniesNameNoProduct();
    var relation := if database == 0 then NOTHING_KNOWN else COMPANIES_ONLY;
    MergedRelations(ETF, relation, Later().setOrder);
    var m := Merge(RELATION_INTERSECT, Some(OneCandidate(ETF)), Some(relation), None, Later().setOrder);
    PreliminaryOf(m, relation);
  }

  lemma PreliminaryOf(m: Result, relation: Result)
    requires m.candidates == [ETF] && m.relations == relation.relations && m.warnings == relation.warnings
    ensures var p := DecidePreliminary(SEARCH, Some(m));
      && (relation == NOTHING_KNOWN ==> p.state.ABSTAIN? && p.selected == [])
      && (relation == COMPANIES_ONLY ==> p.state.PRE_ANSWER? && p.selected == [ETF.uid])
  {
    var free := (c: CandidateView) => !IsBlocked(c);
    assert Filter([ETF], free) == [ETF] + Filter([ETF][1..], free);
    assert EligibleOf(m.candidates) == [ETF];
    assert Uids([ETF]) == [ETF.uid];
  }

  /** The version in the cache key is the hash of the manifest file, not of what
      the database holds. Asked before the relation data is loaded, the question
      is answered from the cache afterwards: the caller still gets the abstention
      although a run would now find the relation. (That run selects an ETF which
      no relation names, see IntersectionIsBackedExactlyWhen.) */
  lemma RelationsLoadedLater(parse: string -> Option<QuerySpec>, promptVersion: string, capacity: nat)
    requires capacity >= 1
    ensures var b := BackendOf(Later(), parse, promptVersion);
      var last := LastResponse(b, capacity, [RunSpec(SEARCH, At(0)), RunSpec(SEARCH, At(1))]);
      && last.Done? && last.value.preliminary.state.ABSTAIN?
      && Direct(b, RunSpec(SEARCH, At(1))).Done? && Direct(b, RunSpec(SEARCH, At(1))).value.preliminary.state.PRE_ANSWER?
      && Direct(b, RunSpec(SEARCH, At(1))).value.preliminary.selected == [ETF.uid]
      && !Transparent(b, capacity)
  {
    var b := BackendOf(Later(), parse, promptVersion);
    SearchAt(0);
    SearchAt(1);
    TwoSpecCalls(b, capacity, SEARCH, At(0), At(1));
    SameVersionsOtherRun(b, capacity, SEARCH, At(0), At(1));
  }

  // ---- The explanation of a term ----

  // "nav" is one canonical id of the synonyms, so it is not ambiguous.
  const EXPLAIN := BareSpec(EXPLAIN_TERM, ["nav"], [])
  const TERM_DOCUMENT := DocumentEvidence("chunk-1", "doc-1", "text", "title", "publisher", None, "sha")
  const EXPLAINED: Result := Retrieval([], [], [TERM_DOCUMENT], [], 0, None)

  const NO_QUERY_TEXT: Result := Retrieval([], [], [], ["MISSING_QUERY_TEXT"], 0, None)

  // _resolve_query_text: the first entity, else the first relationship target.
  function QueryText(spec: QuerySpec): string {
    if spec.entities != [] then spec.entities[0]
    else if spec.relationshipFilters != [] then spec.relationshipFilters[0].target
    else ""
  }

  // The document retriever over a store with one document.
  function Documented(kind: RetrieverKind, spec: QuerySpec, context: Context): Option<Result> {
    if !kind.DOCUMENT? then None
    else if QueryText(spec) == "" then Some(NO_QUERY_TEXT)
    else Some(EXPLAINED)
  }

  function Glossary(): World {
    WorldOf((kind, spec, context) => Documented(kind, spec, context))
  }

  lemma ExplanationIsRetrieved(context: Context) returns (p: Progress)
    ensures RetrieveAll(Glossary(), EXPLAIN, context, Progress(NOTHING, VALIDATED), SelectRetrievers(EXPLAIN)) == Done(p)
    ensures p.retrieved == Retrieved(None, None, Some(EXPLAINED))
  {
    var w, start, plans := Glossary(), Progress(NOTHING, VALIDATED), SelectRetrievers(EXPLAIN);
    assert plans == [SubPlan(DOCUMENT, true)] && plans[1..] == [];
    p := RetrieveOne(w, EXPLAIN, context, start, plans[0]).value;
    assert RetrieveAll(w, EXPLAIN, context, p, []) == Done(p);
  }

  lemma ExplanationDecided(p: Progress)
    requires p.retrieved == Retrieved(None, None, Some(EXPLAINED))
    ensures var run := Decided(Glossary(), EXPLAIN, p);
      run.spec == EXPLAIN && run.merged.Some? && StaysPreliminary(EXPLAIN, run.merged.value)
  {
    assert EMPTY_RESULT.documents + [TERM_DOCUMENT] == [TERM_DOCUMENT];
  }

  lemma ExplanationRun(context: Context) returns (run: Run)
    ensures Pipeline(Glossary(), EXPLAIN, context) == Done(run)
    ensures run.spec == EXPLAIN && WellFormedRun(run) && run.merged.Some? && StaysPreliminary(EXPLAIN, run.merged.value)
  {
    BareSpecIsExecuted(EXPLAIN, Glossary());
    var p := ExplanationIsRetrieved(context);
    PipelineDecides(Glossary(), EXPLAIN, context, p);
    CompletedRunsAreWellFormed(Glossary(), EXPLAIN, context);
    run := Decided(Glossary(), EXPLAIN, p);
    ExplanationDecided(p);
  }

  lemma EmptyTextFails(stage: AnswerService.Stage)
    ensures !AnswerService.Passes("", stage)
  {
  }

  lemma UnguardedStage(run: Run, f: Formats, s: Source)
    requires run.spec == EXPLAIN && WellFormedRun(run) && run.merged.Some? && StaysPreliminary(EXPLAIN, run.merged.value)
    ensures var stage := AnswerService.StageOf(run, f, s);
      && stage.final.state.PRE_ANSWER? && !AnswerService.Raises(run, f, s)
      && ContextSerializer.Context(stage.bundles, stage.relations, ContextSerializer.CHAR_BUDGET) == ContextSerializer.EMPTY_META
  {
    AnswerService.PreAnswerEscapesExactlyWhen(run, f, s);
    AnswerService.ContextEmptyExactlyWhen(run, f, s);
    NothingSelected(run);
  }

  lemma UnguardedText(stage: AnswerService.Stage)
    requires stage.final.state.PRE_ANSWER?
    ensures AnswerService.ChosenText("", "", stage) == AnswerGuard.SafeFallback(ABSTAIN)
    ensures !AnswerService.Passes(AnswerService.ChosenText("", "", stage), stage)
  {
    EmptyTextFails(stage);
    AnswerGuard.FallbackPassesExactlyWhen(PRE_ANSWER, stage.bundles, stage.relations);
  }

  /** A term explanation with one document completes, ends in PRE_ANSWER with the
      empty context, and when both generated texts are empty the text that is
      shown, the fixed abstention, fails the guard. */
  lemma ExplanationIsShownUnguarded(context: Context, f: Formats, s: Source) returns (run: Run, stage: AnswerService.Stage)
    ensures Pipeline(Glossary(), EXPLAIN, context) == Done(run) && !AnswerService.Raises(run, f, s)
    ensures stage == AnswerService.StageOf(run, f, s) && stage.final.state.PRE_ANSWER?
    ensures ContextSerializer.Context(stage.bundles, stage.relations, ContextSerializer.CHAR_BUDGET) == ContextSerializer.EMPTY_META
    ensures AnswerService.ChosenText("", "", stage) == AnswerGuard.SafeFallback(ABSTAIN)
    ensures !AnswerService.Passes(AnswerService.ChosenText("", "", stage), stage)
  {
    run := ExplanationRun(context);
    stage := AnswerService.StageOf(run, f, s);
    UnguardedStage(run, f, s);
    UnguardedText(stage);
  }

  lemma NothingSelected(run: Run)
    requires run.spec == EXPLAIN && WellFormedRun(run) && run.merged.Some? && StaysPreliminary(EXPLAIN, run.merged.value)
    ensures !AnswerService.SelectsCandidates(run) && !AnswerService.AnswersFromRelations(run)
  {
    PreliminaryShape(run.spec, run.merged.value);
  }
}
