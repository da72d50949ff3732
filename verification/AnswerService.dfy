/** AgentAnswerService._finalize: from a completed run to a guarded answer. */
module AnswerService {
  import opened Text
  import opened Query
  import opened RetrievalModels
  import opened ResultMerger
  import opened PolicyEngine
  import opened EvidenceBuilder
  import opened EvidenceManager
  import opened EvidencePipeline
  import opened AnswerGuard
  import opened TokenPositions
  import Orchestrator
  import ContextSerializer

  datatype AnswerContext = AnswerContext(
    question: string, decision: Decision, bundles: seq<Bundle>, retrievedContext: string, relations: seq<RelationItem>)

  // The LLM: any two functions of what they are given.
  datatype Provider = Provider(generate: AnswerContext -> string, regenerate: (AnswerContext, seq<string>) -> string)

  // The final decision and the evidence it rests on.
  datatype Stage = Stage(final: Decision, bundles: seq<Bundle>, relations: seq<RelationItem>)

  datatype Answer = Answer(stage: Stage, retrievedContext: string, text: string, guard: GuardResult)

  // Raised: the ValueError or EvidenceIntegrityError that leaves _finalize.
  datatype Outcome = Answered(answer: Answer) | Raised

  predicate SelectsCandidates(run: Orchestrator.Run) {
    run.merged.Some? && run.preliminary.selected != []
  }

  predicate AnswersFromRelations(run: Orchestrator.Run) {
    && !SelectsCandidates(run) && run.merged.Some?
    && run.preliminary.state.PRE_ANSWER? && run.spec.intent.RELATION_SEARCH?
  }

  ghost predicate Raises(run: Orchestrator.Run, f: Formats, s: Source) {
    || (SelectsCandidates(run) && AnyCrash(Bundles(run.preliminary.selected, run.merged.value, f), s.version, s.store, s.rendering))
    || (AnswersFromRelations(run) && !DocumentsExist(RelationItems(run.merged.value.relations), s.store))
  }

  function StageOf(run: Orchestrator.Run, f: Formats, s: Source): Stage {
    var p := run.preliminary;
    if SelectsCandidates(run) then Stage(Finalized(p, run.merged.value, f, s), ValidationOf(p.selected, run.merged.value, f, s).bundles, [])
    else if AnswersFromRelations(run) then Stage(Decision(ANSWER, p.reasons, [], p.warnings, None), [], RelationItems(run.merged.value.relations))
    else Stage(p, [], [])
  }

  method ReachStage(run: Orchestrator.Run, f: Formats, s: Source) returns (stage: Option<Stage>)
    ensures stage.None? <==> Raises(run, f, s)
    ensures stage.Some? ==> stage.value == StageOf(run, f, s)
  {
    var p := run.preliminary;
    if run.merged.Some? && p.selected != [] {
      var built := BuildEvidenceBundles(run.merged.value, p.selected, f);
      var validation := Validate(built, s.version, s.store, s.rendering);
      if validation.None? { return None; }
      var final := FinalizeDecision(p, validation.value);
      return Some(Stage(final, validation.value.bundles, []));
    } else if run.merged.Some? && p.state.PRE_ANSWER? && run.spec.intent.RELATION_SEARCH? {
      var relations := RelationItems(run.merged.value.relations);
      RelationsPassExactlyWhen(relations, s.store);
      var check := ValidateRelationshipEvidence(relations, s.store);
      if !check.Passed? { return None; }
      return Some(Stage(Decision(ANSWER, p.reasons, [], p.warnings, None), [], relations));
    }
    stage := Some(Stage(p, [], []));
  }

  predicate Passes(text: string, stage: Stage) {
    Acceptable(text, stage.final.state, stage.bundles, stage.relations)
  }

  // Two generated texts, then the fixed one.
  function ChosenText(first: string, second: string, stage: Stage): string {
    if Passes(first, stage) then first else if Passes(second, stage) then second else SafeFallback(stage.final.state)
  }

  // regenerate_answer is told which rules the first text broke.
  function Regenerated(provider: Provider, c: AnswerContext, stage: Stage): string {
    provider.regenerate(c, Dedupe(CodesOf(Findings(provider.generate(c), stage.final.state, stage.bundles, stage.relations))))
  }

  // The codes of exactly the rules that the text breaks, each once.
  ghost predicate Blames(codes: seq<string>, text: string, stage: Stage) {
    && Distinct(codes)
    && forall code :: code in codes <==> exists span :: Breaks(Finding(span, code), text, stage.final.state, stage.bundles, stage.relations)
  }

  /** The first text if it passes the guard; else the second one, written for the
      rules that the first one breaks, if that passes; else the fixed text. */
  ghost predicate Phrased(text: string, c: AnswerContext, stage: Stage, provider: Provider) {
    var first := provider.generate(c);
    if Passes(first, stage) then text == first
    else
      exists codes :: Blames(codes, first, stage)
        && text == if Passes(provider.regenerate(c, codes), stage) then provider.regenerate(c, codes) else SafeFallback(stage.final.state)
  }

  lemma ChosenIsPhrased(c: AnswerContext, stage: Stage, provider: Provider)
    ensures Phrased(ChosenText(provider.generate(c), Regenerated(provider, c, stage), stage), c, stage, provider)
  {
    var first := provider.generate(c);
    var findings := Findings(first, stage.final.state, stage.bundles, stage.relations);
    ReportsExactly(first, stage.final.state, stage.bundles, stage.relations);
    DedupeDistinct(CodesOf(findings));
    assert Blames(Dedupe(CodesOf(findings)), first, stage);
  }

  method PhraseAnswer(c: AnswerContext, stage: Stage, provider: Provider) returns (text: string, guard: GuardResult)
    ensures text == ChosenText(provider.generate(c), Regenerated(provider, c, stage), stage)
    ensures guard.passed <==> Passes(text, stage)
  {
    text := provider.generate(c);
    guard := GuardAnswer(text, stage.final.state, stage.bundles, stage.relations);
    if !guard.passed {
      text := provider.regenerate(c, guard.reasons);
      guard := GuardAnswer(text, stage.final.state, stage.bundles, stage.relations);
      if !guard.passed {
        text := SafeFallback(stage.final.state);
        guard := GuardAnswer(text, stage.final.state, stage.bundles, stage.relations);
      }
    }
  }

  method Finalize(run: Orchestrator.Run, question: string, f: Formats, s: Source, provider: Provider) returns (outcome: Outcome)
    requires Orchestrator.WellFormedRun(run)
    ensures outcome.Raised? <==> Raises(run, f, s)
    ensures outcome.Answered? ==> var a := outcome.answer;
      && a.stage == StageOf(run, f, s)
      && a.retrievedContext == ContextSerializer.Context(a.stage.bundles, a.stage.relations, ContextSerializer.CHAR_BUDGET)
      && Phrased(a.text, AnswerContext(question, a.stage.final, a.stage.bundles, a.retrievedContext, a.stage.relations), a.stage, provider)
      && (a.guard.passed <==> Passes(a.text, a.stage))
      && NamesOnlyEvidenced(a.text, a.stage, s)
      && (!a.stage.final.state.PRE_ANSWER? ==> a.guard.passed)
      && (a.retrievedContext == ContextSerializer.EMPTY_META <==> !a.stage.final.state.ANSWER?)
  {
    var reached := ReachStage(run, f, s);
    if reached.None? { return Raised; }
    var stage := reached.value;
    var retrievedContext := ContextSerializer.SerializeRetrievedContext(stage.bundles, stage.relations, ContextSerializer.CHAR_BUDGET);
    var c := AnswerContext(question, stage.final, stage.bundles, retrievedContext, stage.relations);
    var text, guard := PhraseAnswer(c, stage, provider);
    ChosenIsPhrased(c, stage, provider);
    ContextEmptyExactlyWhen(run, f, s);
    ShownTextPassesExactlyWhen(run, f, s, provider.generate(c), Regenerated(provider, c, stage));
    ShownTokensAreEvidenced(run, f, s, provider.generate(c), Regenerated(provider, c, stage));
    outcome := Answered(Answer(stage, retrievedContext, text, guard));
  }

  // ---- When the service raises ----

  lemma BundlesNeverCrash(selected: seq<string>, m: Result, f: Formats, s: Source)
    requires forall c :: c in m.candidates ==> c.metrics == [] || IsFamily(Prefix(c.uid))
    ensures !AnyCrash(Bundles(selected, m, f), s.version, s.store, s.rendering)
  {
    var bundles := Bundles(selected, m, f);
    forall b | b in bundles ensures b.fields == [] || IsFamily(Prefix(b.uid)) {
      var c := BundleContents(selected, m, f, b);
    }
    NoCrashForFamilyUids(bundles, s.version, s.store, s.rendering);
  }

  // The source of this relation is missing or not frozen.
  predicate Unsourced(e: RelationEvidence, s: Source) {
    e.documentId == "" || e.sha == "" || (e.documentId, e.sha) !in s.store.documents
  }

  /** With uids that name a family, an exception leaves the service exactly for a
      search that rests on relations between companies, all candidates being
      blocked, of which one has no frozen document. */
  lemma RaisesExactlyWhen(run: Orchestrator.Run, f: Formats, s: Source)
    requires Orchestrator.WellFormedRun(run)
    requires run.merged.Some? ==> forall c :: c in run.merged.value.candidates ==> c.metrics == [] || IsFamily(Prefix(c.uid))
    ensures Raises(run, f, s) <==>
              && run.merged.Some? && run.spec.intent == RELATION_SEARCH
              && (forall c :: c in run.merged.value.candidates ==> IsBlocked(c))
              && (forall e :: e in run.merged.value.relations ==> e.productUid == None)
              && exists e :: e in run.merged.value.relations && Unsourced(e, s)
  {
    if run.merged.Some? {
      var m := run.merged.value;
      var free := (c: CandidateView) => !IsBlocked(c);
      BundlesNeverCrash(run.preliminary.selected, m, f, s);
      FilterMembers(m.candidates, free);
      EmptyOrMember(Filter(m.candidates, free));
      UnsourcedExactlyWhen(m.relations, s);
    }
  }

  lemma UnsourcedExactlyWhen(relations: seq<RelationEvidence>, s: Source)
    ensures DocumentsExist(RelationItems(relations), s.store) <==> forall e :: e in relations ==> !Unsourced(e, s)
  {
    var items := RelationItems(relations);
    forall i | 0 <= i < |relations| ensures items[i] in items && items[i].documentId == relations[i].documentId && items[i].sha == relations[i].sha {}
    if DocumentsExist(items, s.store) {
      forall e | e in relations ensures !Unsourced(e, s) {
        var i :| 0 <= i < |relations| && relations[i] == e;
        assert items[i] in items;
      }
    }
    if forall e :: e in relations ==> !Unsourced(e, s) {
      forall item | item in items ensures (item.documentId, item.sha) in s.store.documents && item.documentId != "" && item.sha != "" {
        var i :| 0 <= i < |relations| && items[i] == item;
        assert relations[i] in relations;
      }
    }
  }

  // ---- The final state ----

  /** Evidence decides the state: ANSWER exactly when a bundle survives or the
      answer rests on relations, and no bundle is left in any other state. */
  lemma AnswerRestsOnEvidence(run: Orchestrator.Run, f: Formats, s: Source)
    requires Orchestrator.WellFormedRun(run)
    ensures var stage := StageOf(run, f, s); stage.final.state.ANSWER? <==> stage.bundles != [] || stage.relations != []
  {
    if run.merged.Some? {
      PreliminaryShape(run.spec, run.merged.value);
      SelectedAreCandidates(run.spec, run.merged.value);
      if SelectsCandidates(run) {
        SelectionIsConserved(run.preliminary, run.merged.value, f, s);
      }
    }
  }

  /** A run that selects nothing keeps its decision, except that a search that
      rests on relations becomes an ANSWER with all of them. */
  lemma NothingSelectedKeepsDecision(run: Orchestrator.Run, f: Formats, s: Source)
    requires Orchestrator.WellFormedRun(run) && run.preliminary.selected == []
    ensures var stage := StageOf(run, f, s);
      var rests := run.merged.Some? && run.spec.intent == RELATION_SEARCH && run.preliminary.state == PRE_ANSWER;
      && stage.bundles == []
      && (!rests ==> stage.final == run.preliminary && stage.relations == [])
      && (rests ==> stage.final == run.preliminary.(state := ANSWER) && |stage.relations| == |run.merged.value.relations|
                    && forall i :: 0 <= i < |stage.relations| ==> stage.relations[i] == ToItem(run.merged.value.relations[i]))
  {
    if run.merged.Some? {
      PreliminaryReason(run.spec, run.merged.value);
    }
  }

  /** PRE_ANSWER reaches the caller exactly for the runs that select nothing and
      are not company relations: explained terms and aggregates. For every other
      intent a completed run ends in ANSWER, ASK or ABSTAIN. */
  lemma PreAnswerEscapesExactlyWhen(run: Orchestrator.Run, f: Formats, s: Source)
    requires Orchestrator.WellFormedRun(run)
    ensures StageOf(run, f, s).final.state.PRE_ANSWER? <==> run.merged.Some? && StaysPreliminary(run.spec, run.merged.value)
    ensures StageOf(run, f, s).final.state.PRE_ANSWER? ==> run.spec.intent.EXPLAIN_TERM? || run.spec.intent.AGGREGATE?
  {
    if run.merged.Some? {
      PreliminaryShape(run.spec, run.merged.value);
      SelectedAreCandidates(run.spec, run.merged.value);
      if SelectsCandidates(run) {
        SelectionIsConserved(run.preliminary, run.merged.value, f, s);
      }
    }
  }

  /** The caller gets the empty context exactly when it gets no ANSWER. */
  lemma ContextEmptyExactlyWhen(run: Orchestrator.Run, f: Formats, s: Source)
    requires Orchestrator.WellFormedRun(run)
    ensures var stage := StageOf(run, f, s);
      ContextSerializer.Context(stage.bundles, stage.relations, ContextSerializer.CHAR_BUDGET) == ContextSerializer.EMPTY_META <==> !stage.final.state.ANSWER?
  {
    var stage := StageOf(run, f, s);
    AnswerRestsOnEvidence(run, f, s);
    ContextSerializer.EmptyContextExactlyWhen(stage.bundles, stage.relations, ContextSerializer.CHAR_BUDGET);
  }

  /** Whatever two texts the provider returns, the shown text passes the guard,
      unless the state is PRE_ANSWER and both texts fail. */
  lemma ShownTextPassesExactlyWhen(run: Orchestrator.Run, f: Formats, s: Source, first: string, second: string)
    requires Orchestrator.WellFormedRun(run)
    ensures var stage := StageOf(run, f, s);
      Passes(ChosenText(first, second, stage), stage) <==>
        !stage.final.state.PRE_ANSWER? || Passes(first, stage) || Passes(second, stage)
  {
    var stage := StageOf(run, f, s);
    AnswerRestsOnEvidence(run, f, s);
    FallbackPassesExactlyWhen(stage.final.state, stage.bundles, stage.relations);
  }

  // ---- What a shown text can name ----

  // A row stored in this version supports the bundle, and its relations have documents.
  ghost predicate Supported(b: Bundle, s: Source) {
    var key := RowKey(s.version, b.sourceTable, b.uid, b.sourceKey);
    key in s.store.rows && RowSupports(b, s.store.rows[key], s.rendering) && DocumentsExist(b.relations, s.store)
  }

  // The token is the uid of a product with such a row, or an end of a relation
  // with a frozen document.
  ghost predicate Evidenced(token: string, stage: Stage, s: Source) {
    || (exists b :: b in stage.bundles && b.uid == token && Supported(b, s))
    || (exists r :: r in stage.relations && token in {r.subject, r.object_} && (r.documentId, r.sha) in s.store.documents)
  }

  lemma BundlesAreSupported(run: Orchestrator.Run, f: Formats, s: Source, b: Bundle)
    requires b in StageOf(run, f, s).bundles
    ensures Supported(b, s)
  {
    FilterMembers(Bundles(run.preliminary.selected, run.merged.value, f), Accept(s));
    AcceptedExactlyWhen(b, s.version, s.store, s.rendering);
  }

  lemma AllowedIsEvidenced(run: Orchestrator.Run, f: Formats, s: Source, token: string)
    requires !Raises(run, f, s) && token in Allowed(StageOf(run, f, s).bundles, StageOf(run, f, s).relations)
    ensures Evidenced(token, StageOf(run, f, s), s)
  {
    var stage := StageOf(run, f, s);
    if b :| b in stage.bundles && b.uid == token {
      BundlesAreSupported(run, f, s, b);
    } else {
      var r :| r in stage.relations && token in {r.subject, r.object_};
    }
  }

  lemma ShownTokenIsEvidenced(run: Orchestrator.Run, f: Formats, s: Source, first: string, second: string, token: string)
    requires !Raises(run, f, s) && token in Tokens(ChosenText(first, second, StageOf(run, f, s)))
    ensures Evidenced(token, StageOf(run, f, s), s)
  {
    FallbackHasNoTokens(StageOf(run, f, s).final.state);
    AllowedIsEvidenced(run, f, s, token);
  }

  // Every match in the text, and with it every run that stands alone, is evidenced.
  ghost predicate NamesOnlyEvidenced(text: string, stage: Stage, s: Source) {
    && (forall ms: seq<Span> :: AllMatches(text, ms) ==> forall n :: 0 <= n < |ms| ==> Evidenced(text[ms[n].from..ms[n].to], stage, s))
    && (forall m: Span :: StandsAlone(text, m) ==> Evidenced(text[m.from..m.to], stage, s))
  }

  /** Whatever the provider writes and whatever state the run ends in, every
      uid-like run in the shown text names a product whose row is stored in this
      data set version and supports its evidence, or an entity of a relation
      whose document is frozen. */
  lemma ShownTokensAreEvidenced(run: Orchestrator.Run, f: Formats, s: Source, first: string, second: string)
    requires !Raises(run, f, s)
    ensures NamesOnlyEvidenced(ChosenText(first, second, StageOf(run, f, s)), StageOf(run, f, s), s)
  {
    var stage := StageOf(run, f, s);
    var text := ChosenText(first, second, stage);
    forall ms: seq<Span>, n | AllMatches(text, ms) && 0 <= n < |ms| ensures Evidenced(text[ms[n].from..ms[n].to], stage, s) {
      AllMatchesAreTokens(text, ms);
      assert Tokens(text)[n] in Tokens(text);
      ShownTokenIsEvidenced(run, f, s, first, second, Tokens(text)[n]);
    }
    forall m: Span | StandsAlone(text, m) ensures Evidenced(text[m.from..m.to], stage, s) {
      StandaloneRunIsToken(text, m);
      ShownTokenIsEvidenced(run, f, s, first, second, text[m.from..m.to]);
    }
  }
}
