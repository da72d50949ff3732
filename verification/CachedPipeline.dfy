/** Two memo caches in front of a parser and a pipeline, as the orchestrator
    uses them: what callers can see of the caching, over all call sequences. */
module CachedPipeline {
  import opened Text
  import opened VersionedCache
  import opened QuestionText

  datatype Response<R, F> = Done(value: R) | Failed(reason: F)

  /** What runs behind the caches. `versions` are the dataset and external
      version of a context; a context holds more, the database session above all. */
  datatype Backend<!S, !C, R, F> = Backend(
    parse: string -> Response<S, F>, run: (S, C) -> Response<R, F>, versions: C -> seq<string>, parserVersions: seq<string>)

  // run_with_question and run_with_spec
  datatype Call<S, C> = Ask(question: string, context: C) | RunSpec(spec: S, context: C)

  type SpecItems<S> = seq<(CacheKey<string>, S)>
  type RunItems<S, R> = seq<(CacheKey<S>, R)>

  datatype Caches<S, R> = Caches(specs: SpecItems<S>, runs: RunItems<S, R>)

  // queryspec_cache_key and retrieval_cache_key; the hashes are injective.
  function SpecKey<S, C, R, F>(b: Backend<S, C, R, F>, question: string): CacheKey<string> {
    CacheKey("queryspec", CacheNormal(question), b.parserVersions)
  }

  function RunKey<S, C, R, F>(b: Backend<S, C, R, F>, spec: S, context: C): CacheKey<S> {
    CacheKey("retrieval", spec, b.versions(context))
  }

  // ---- One call ----

  function SpecStep<S(==), C, R, F>(b: Backend<S, C, R, F>, max: nat, runs: RunItems<S, R>, spec: S, context: C)
    : (r: (RunItems<S, R>, Response<R, F>))
  {
    var key := RunKey(b, spec, context);
    match Find(runs, key)
    case Some(run) => (AfterGet(runs, key), Done(run))
    case None =>
      match b.run(spec, context)
      case Done(run) => (AfterPut(runs, max, key, run), Done(run))
      case Failed(reason) => (runs, Failed(reason))
  }

  // The spec cache after the lookup, and the spec or the parser's failure.
  function ParseStep<S, C, R, F>(b: Backend<S, C, R, F>, max: nat, specs: SpecItems<S>, question: string)
    : (r: (SpecItems<S>, Response<S, F>))
  {
    var key := SpecKey(b, question);
    match Find(specs, key)
    case Some(spec) => (AfterGet(specs, key), Done(spec))
    case None =>
      match b.parse(question)
      case Done(spec) => (AfterPut(specs, max, key, spec), Done(spec))
      case Failed(reason) => (specs, Failed(reason))
  }

  function CallStep<S(==), C, R, F>(b: Backend<S, C, R, F>, max: nat, c: Caches<S, R>, call: Call<S, C>)
    : (r: (Caches<S, R>, Response<R, F>))
  {
    match call
    case RunSpec(spec, context) =>
      var step := SpecStep(b, max, c.runs, spec, context);
      (Caches(c.specs, step.0), step.1)
    case Ask(question, context) =>
      var parsed := ParseStep(b, max, c.specs, question);
      match parsed.1
      case Failed(reason) => (Caches(parsed.0, c.runs), Failed(reason))
      case Done(spec) =>
        var step := SpecStep(b, max, c.runs, spec, context);
        (Caches(parsed.0, step.0), step.1)
  }

  // What a call returns without any cache.
  function Direct<S, C, R, F>(b: Backend<S, C, R, F>, call: Call<S, C>): Response<R, F> {
    match call
    case RunSpec(spec, context) => b.run(spec, context)
    case Ask(question, context) =>
      match b.parse(question)
      case Failed(reason) => Failed(reason)
      case Done(spec) => b.run(spec, context)
  }

  // ---- The orchestrator's shared state ----

  class MemoisedPipeline<!S(==, !new), !C(!new), R(!new), F(!new)> {
    const backend: Backend<S, C, R, F>
    const specCache: BoundedVersionedCache<CacheKey<string>, S>
    const runCache: BoundedVersionedCache<CacheKey<S>, R>

    ghost predicate Valid() {
      specCache.maxEntries == runCache.maxEntries >= 1 && specCache as object != runCache as object
    }

    constructor (b: Backend<S, C, R, F>, capacity: nat)
      requires capacity >= 1
      ensures Valid() && fresh(specCache) && fresh(runCache)
      ensures backend == b && runCache.maxEntries == capacity && Contents() == Caches([], [])
    {
      backend := b;
      specCache := new BoundedVersionedCache.Empty(capacity);
      runCache := new BoundedVersionedCache.Empty(capacity);
    }

    function Contents(): Caches<S, R>
      reads specCache, runCache
    {
      Caches(specCache.items, runCache.items)
    }

    method RunWithSpec(spec: S, context: C) returns (response: Response<R, F>)
      modifies runCache`items
      ensures (runCache.items, response) == SpecStep(backend, runCache.maxEntries, old(runCache.items), spec, context)
    {
      var key := RunKey(backend, spec, context);
      var cached := runCache.Get(key);
      if cached.Some? { return Done(cached.value); }
      response := backend.run(spec, context);
      if response.Done? {
        runCache.Put(key, response.value);
      }
    }

    method RunWithQuestion(question: string, context: C) returns (response: Response<R, F>)
      requires Valid()
      modifies specCache`items, runCache`items
      ensures (Contents(), response) == CallStep(backend, runCache.maxEntries, old(Contents()), Ask(question, context))
    {
      var key := SpecKey(backend, question);
      var spec := specCache.Get(key);
      if spec.None? {
        var parsed := backend.parse(question);
        if parsed.Failed? { return Failed(parsed.reason); }
        spec := Some(parsed.value);
        specCache.Put(key, parsed.value);
      }
      response := RunWithSpec(spec.value, context);
    }
  }

  // ---- Whole call sequences, from empty caches ----

  function After<S(==), C, R, F>(b: Backend<S, C, R, F>, max: nat, calls: seq<Call<S, C>>): Caches<S, R> {
    if calls == [] then Caches([], [])
    else CallStep(b, max, After(b, max, calls[..|calls| - 1]), calls[|calls| - 1]).0
  }

  // The response to the last call.
  function LastResponse<S(==), C, R, F>(b: Backend<S, C, R, F>, max: nat, calls: seq<Call<S, C>>): Response<R, F>
    requires calls != []
  {
    CallStep(b, max, After(b, max, calls[..|calls| - 1]), calls[|calls| - 1]).1
  }

  // ---- The caches as traces of lookups and puts ----

  lemma RunSnoc<K, V>(max: nat, trace: seq<Op<K, V>>, op: Op<K, V>)
    ensures VersionedCache.Run(max, trace + [op]) == Step(VersionedCache.Run(max, trace), max, op)
  {
    assert (trace + [op])[..|trace|] == trace;
  }

  // A lookup, and a put of what was computed if nothing was found.
  ghost predicate LooksUp<K(!new), V(!new), F>(ops: seq<Op<K, V>>, items: seq<(K, V)>, key: K, computed: Response<V, F>) {
    if Find(items, key).None? && computed.Done? then ops == [Get(key), Put(key, computed.value)] else ops == [Get(key)]
  }

  lemma SpecStepIsTrace<S(!new), C(!new), R(!new), F>(b: Backend<S, C, R, F>, max: nat, trace: seq<Op<CacheKey<S>, R>>, spec: S, context: C)
    returns (ops: seq<Op<CacheKey<S>, R>>)
    ensures LooksUp(ops, VersionedCache.Run(max, trace), RunKey(b, spec, context), b.run(spec, context))
    ensures SpecStep(b, max, VersionedCache.Run(max, trace), spec, context).0 == VersionedCache.Run(max, trace + ops)
  {
    var key, items := RunKey(b, spec, context), VersionedCache.Run(max, trace);
    ops := [Get(key)];
    RunSnoc(max, trace, Get(key));
    if Find(items, key).None? && b.run(spec, context).Done? {
      ops := [Get(key), Put(key, b.run(spec, context).value)];
      RunSnoc(max, trace + [Get(key)], ops[1]);
      assert trace + ops == trace + [Get(key)] + [ops[1]];
    }
  }

  lemma ParseStepIsTrace<S(!new), C(!new), R(!new), F>(b: Backend<S, C, R, F>, max: nat, trace: seq<Op<CacheKey<string>, S>>, question: string)
    returns (ops: seq<Op<CacheKey<string>, S>>)
    ensures LooksUp(ops, VersionedCache.Run(max, trace), SpecKey(b, question), b.parse(question))
    ensures ParseStep(b, max, VersionedCache.Run(max, trace), question).0 == VersionedCache.Run(max, trace + ops)
  {
    var key, items := SpecKey(b, question), VersionedCache.Run(max, trace);
    ops := [Get(key)];
    RunSnoc(max, trace, Get(key));
    if Find(items, key).None? && b.parse(question).Done? {
      ops := [Get(key), Put(key, b.parse(question).value)];
      RunSnoc(max, trace + [Get(key)], ops[1]);
      assert trace + ops == trace + [Get(key)] + [ops[1]];
    }
  }

  /** After any calls, each cache is what some trace of lookups and puts leaves:
      what is proved of all traces, eviction by last use above all, holds of it. */
  lemma {:induction false} CachesAreTraces<S(!new), C(!new), R(!new), F>(b: Backend<S, C, R, F>, max: nat, calls: seq<Call<S, C>>)
    returns (specs: seq<Op<CacheKey<string>, S>>, runs: seq<Op<CacheKey<S>, R>>)
    ensures After(b, max, calls) == Caches(VersionedCache.Run(max, specs), VersionedCache.Run(max, runs))
  {
    if calls == [] {
      specs, runs := [], [];
    } else {
      var call := calls[|calls| - 1];
      specs, runs := CachesAreTraces(b, max, calls[..|calls| - 1]);
      match call {
        case RunSpec(spec, context) =>
          var ops := SpecStepIsTrace(b, max, runs, spec, context);
          runs := runs + ops;
        case Ask(question, context) =>
          var parsed := ParseStep(b, max, VersionedCache.Run(max, specs), question).1;
          var parsing := ParseStepIsTrace(b, max, specs, question);
          specs := specs + parsing;
          if parsed.Done? {
            var ops := SpecStepIsTrace(b, max, runs, parsed.value, context);
            runs := runs + ops;
          }
      }
    }
  }

  // ---- Where cached values come from ----

  // Some call asked a question of this normal form, and the parser gave this spec.
  ghost predicate Parsed<S(!new), C(!new), R, F>(b: Backend<S, C, R, F>, calls: seq<Call<S, C>>, item: (CacheKey<string>, S)) {
    exists call :: call in calls && call.Ask? && item.0 == SpecKey(b, call.question) && b.parse(call.question) == Done(item.1)
  }

  // Some call came with these versions, and a run of this spec for it gave this value.
  ghost predicate Computed<S(!new), C(!new), R, F>(b: Backend<S, C, R, F>, calls: seq<Call<S, C>>, item: (CacheKey<S>, R)) {
    exists call :: call in calls && item.0 == RunKey(b, item.0.keyHash, call.context) && b.run(item.0.keyHash, call.context) == Done(item.1)
  }

  ghost predicate Sound<S(!new), C(!new), R(!new), F>(b: Backend<S, C, R, F>, max: nat, calls: seq<Call<S, C>>, c: Caches<S, R>) {
    && DistinctKeys(c.specs) && DistinctKeys(c.runs) && |c.specs| <= max && |c.runs| <= max
    && (forall item :: item in c.specs ==> Parsed(b, calls, item))
    && (forall item :: item in c.runs ==> Computed(b, calls, item))
  }

  lemma MoreCalls<S(!new), C(!new), R(!new), F>(b: Backend<S, C, R, F>, max: nat, calls: seq<Call<S, C>>, call: Call<S, C>, c: Caches<S, R>)
    requires Sound(b, max, calls, c)
    ensures Sound(b, max, calls + [call], c)
  {
    forall item | item in c.specs ensures Parsed(b, calls + [call], item) { assert Parsed(b, calls, item); }
    forall item | item in c.runs ensures Computed(b, calls + [call], item) { assert Computed(b, calls, item); }
  }

  // A lookup keeps the run cache sound, and so does a put of a computed value.
  lemma RunsStaySound<S(!new), C(!new), R(!new), F>(b: Backend<S, C, R, F>, max: nat, calls: seq<Call<S, C>>, c: Caches<S, R>,
                                                   op: Op<CacheKey<S>, R>)
    requires Sound(b, max, calls, c) && (op.Put? ==> Computed(b, calls, (op.key, op.value)))
    ensures Sound(b, max, calls, Caches(c.specs, Step(c.runs, max, op)))
  {
    StepKeysDistinct(c.runs, max, op);
    forall item | item in Step(c.runs, max, op) ensures Computed(b, calls, item) {
      StepMembers(c.runs, max, op, item);
    }
  }

  lemma SpecsStaySound<S(!new), C(!new), R(!new), F>(b: Backend<S, C, R, F>, max: nat, calls: seq<Call<S, C>>, c: Caches<S, R>,
                                                    op: Op<CacheKey<string>, S>)
    requires Sound(b, max, calls, c) && (op.Put? ==> Parsed(b, calls, (op.key, op.value)))
    ensures Sound(b, max, calls, Caches(Step(c.specs, max, op), c.runs))
  {
    StepKeysDistinct(c.specs, max, op);
    forall item | item in Step(c.specs, max, op) ensures Parsed(b, calls, item) {
      StepMembers(c.specs, max, op, item);
    }
  }

  lemma SpecStepIsSound<S(!new), C(!new), R(!new), F>(b: Backend<S, C, R, F>, max: nat, calls: seq<Call<S, C>>, c: Caches<S, R>,
                                                         spec: S, call: Call<S, C>)
    requires max >= 1 && Sound(b, max, calls, c) && call in calls
    ensures var step := SpecStep(b, max, c.runs, spec, call.context);
      && Sound(b, max, calls, Caches(c.specs, step.0))
      && (step.1.Done? ==> Computed(b, calls, (RunKey(b, spec, call.context), step.1.value)))
      && (step.1.Failed? ==> b.run(spec, call.context) == step.1)
  {
    var key := RunKey(b, spec, call.context);
    FindIsMember(c.runs, key);
    RunsStaySound(b, max, calls, c, Get(key));
    if b.run(spec, call.context).Done? {
      RunsStaySound(b, max, calls, c, Put(key, b.run(spec, call.context).value));
    }
  }

  lemma ParseStepIsSound<S(!new), C(!new), R(!new), F>(b: Backend<S, C, R, F>, max: nat, calls: seq<Call<S, C>>, c: Caches<S, R>,
                                                          call: Call<S, C>)
    requires max >= 1 && Sound(b, max, calls, c) && call in calls && call.Ask?
    ensures var step := ParseStep(b, max, c.specs, call.question);
      && Sound(b, max, calls, Caches(step.0, c.runs))
      && (step.1.Done? ==> Parsed(b, calls, (SpecKey(b, call.question), step.1.value)))
      && (step.1.Failed? ==> b.parse(call.question) == step.1)
  {
    var key := SpecKey(b, call.question);
    FindIsMember(c.specs, key);
    SpecsStaySound(b, max, calls, c, Get(key));
    if b.parse(call.question).Done? {
      SpecsStaySound(b, max, calls, c, Put(key, b.parse(call.question).value));
    }
  }

  lemma {:induction false} AlwaysSound<S(!new), C(!new), R(!new), F>(b: Backend<S, C, R, F>, max: nat, calls: seq<Call<S, C>>)
    requires max >= 1
    ensures Sound(b, max, calls, After(b, max, calls))
  {
    if calls != [] {
      var before, call := calls[..|calls| - 1], calls[|calls| - 1];
      AlwaysSound(b, max, before);
      CallIsSound(b, max, before, call);
      assert calls == before + [call];
    }
  }

  lemma CallIsSound<S(!new), C(!new), R(!new), F>(b: Backend<S, C, R, F>, max: nat, before: seq<Call<S, C>>, call: Call<S, C>)
    requires max >= 1 && Sound(b, max, before, After(b, max, before))
    ensures Sound(b, max, before + [call], CallStep(b, max, After(b, max, before), call).0)
  {
    var c, calls := After(b, max, before), before + [call];
    MoreCalls(b, max, before, call, c);
    assert call in calls;
    match call
    case RunSpec(spec, _) => SpecStepIsSound(b, max, calls, c, spec, call);
    case Ask(question, _) =>
      ParseStepIsSound(b, max, calls, c, call);
      var parsed := ParseStep(b, max, c.specs, question);
      if parsed.1.Done? {
        SpecStepIsSound(b, max, calls, Caches(parsed.0, c.runs), parsed.1.value, call);
      }
  }

  // ---- What a response can be ----

  // A value comes from a run of this spec under these versions; a failure is this call's own.
  ghost predicate Served<S(!new), C(!new), R(!new), F>(b: Backend<S, C, R, F>, calls: seq<Call<S, C>>, spec: S, context: C, r: Response<R, F>) {
    match r
    case Done(value) => Computed(b, calls, (RunKey(b, spec, context), value))
    case Failed(_) => b.run(spec, context) == r
  }

  // The response to a call: served for its spec, or for a spec that the parser
  // gave for the same normal form, or this question's own parse failure.
  ghost predicate Answered<S(!new), C(!new), R(!new), F>(b: Backend<S, C, R, F>, calls: seq<Call<S, C>>, call: Call<S, C>, r: Response<R, F>) {
    match call
    case RunSpec(spec, context) => Served(b, calls, spec, context, r)
    case Ask(question, context) =>
      || (r.Failed? && b.parse(question) == Response<S, F>.Failed(r.reason))
      || exists spec :: Parsed(b, calls, (SpecKey(b, question), spec)) && Served(b, calls, spec, context, r)
  }

  /** No hit crosses versions and no failure is cached: with no assumption on the
      parser or the pipeline, every value was computed for the same dataset and
      external version, from a spec that the parser gave for the same normal form. */
  lemma ResponsesKeepVersions<S(!new), C(!new), R(!new), F>(b: Backend<S, C, R, F>, max: nat, calls: seq<Call<S, C>>)
    requires max >= 1 && calls != []
    ensures Answered(b, calls, calls[|calls| - 1], LastResponse(b, max, calls))
  {
    var before, call := calls[..|calls| - 1], calls[|calls| - 1];
    assert calls == before + [call];
    var c := After(b, max, before);
    AlwaysSound(b, max, before);
    MoreCalls(b, max, before, call, c);
    match call
    case RunSpec(spec, _) => SpecStepIsSound(b, max, calls, c, spec, call);
    case Ask(question, _) =>
      ParseStepIsSound(b, max, calls, c, call);
      var parsed := ParseStep(b, max, c.specs, question);
      if parsed.1.Done? {
        SpecStepIsSound(b, max, calls, Caches(parsed.0, c.runs), parsed.1.value, call);
        assert Parsed(b, calls, (SpecKey(b, question), parsed.1.value));
      }
  }

  // ---- When caching is invisible ----

  ghost predicate VersionsDetermineRuns<S(!new), C(!new), R, F>(b: Backend<S, C, R, F>) {
    forall spec, c1, c2 :: b.versions(c1) == b.versions(c2) && b.run(spec, c1).Done? ==> b.run(spec, c2) == b.run(spec, c1)
  }

  ghost predicate NormalFormDeterminesAnswer<S, C(!new), R, F>(b: Backend<S, C, R, F>) {
    forall q1, q2, context :: CacheNormal(q1) == CacheNormal(q2) && b.parse(q1).Done? ==>
      Direct(b, Ask(q2, context)) == b.run(b.parse(q1).value, context)
  }

  ghost predicate Transparent<S(!new), C(!new), R(!new), F>(b: Backend<S, C, R, F>, max: nat) {
    forall calls: seq<Call<S, C>> :: calls != [] ==> LastResponse(b, max, calls) == Direct(b, calls[|calls| - 1])
  }

  lemma ServedDirectly<S(!new), C(!new), R(!new), F>(b: Backend<S, C, R, F>, calls: seq<Call<S, C>>, spec: S, context: C, r: Response<R, F>)
    requires VersionsDetermineRuns(b) && Served(b, calls, spec, context, r)
    ensures r == b.run(spec, context)
  {
    if r.Done? {
      var call :| call in calls && RunKey(b, spec, context) == RunKey(b, spec, call.context) && b.run(spec, call.context) == r;
    }
  }

  lemma AnsweredDirectly<S(!new), C(!new), R(!new), F>(b: Backend<S, C, R, F>, calls: seq<Call<S, C>>, call: Call<S, C>, r: Response<R, F>)
    requires VersionsDetermineRuns(b) && NormalFormDeterminesAnswer(b) && Answered(b, calls, call, r)
    ensures r == Direct(b, call)
  {
    if call.RunSpec? {
      ServedDirectly(b, calls, call.spec, call.context, r);
    } else if !(r.Failed? && b.parse(call.question) == Response<S, F>.Failed(r.reason)) {
      var spec :| Parsed(b, calls, (SpecKey(b, call.question), spec)) && Served(b, calls, spec, call.context, r);
      ServedDirectly(b, calls, spec, call.context, r);
      var asked :| asked in calls && asked.Ask? && SpecKey(b, call.question) == SpecKey(b, asked.question)
                   && b.parse(asked.question) == Done(spec);
    }
  }

  lemma FirstPut<K, V>(max: nat, key: K, value: V)
    requires max >= 1
    ensures AfterPut([], max, key, value) == [(key, value)]
  {
    var none: seq<(K, V)> := [];
    assert Without(none, key) + [(key, value)] == [(key, value)];
  }

  lemma TwoSpecCalls<S(!new), C(!new), R(!new), F>(b: Backend<S, C, R, F>, max: nat, spec: S, c1: C, c2: C)
    requires max >= 1 && b.versions(c1) == b.versions(c2) && b.run(spec, c1).Done?
    ensures LastResponse(b, max, [RunSpec(spec, c1), RunSpec(spec, c2)]) == b.run(spec, c1)
  {
    var calls := [RunSpec(spec, c1), RunSpec(spec, c2)];
    assert calls[..1] == [RunSpec(spec, c1)] && calls[..1][..0] == [];
    var key := RunKey(b, spec, c1);
    assert After(b, max, calls[..1]).runs == [(key, b.run(spec, c1).value)];
  }

  lemma TwoQuestions<S(!new), C(!new), R(!new), F>(b: Backend<S, C, R, F>, max: nat, q1: string, q2: string, context: C)
    requires max >= 1 && CacheNormal(q1) == CacheNormal(q2) && b.parse(q1).Done?
    ensures LastResponse(b, max, [Ask(q1, context), Ask(q2, context)]) == b.run(b.parse(q1).value, context)
  {
    var calls: seq<Call<S, C>> := [Ask(q1, context), Ask(q2, context)];
    assert calls[..1] == [Ask(q1, context)] && calls[..1][..0] == [];
    var spec := b.parse(q1).value;
    var key := RunKey(b, spec, context);
    var none: Caches<S, R> := Caches([], []);
    var c := CallStep(b, max, none, Ask(q1, context)).0;
    assert After(b, max, calls[..1]) == c;
    var parsed := ParseStep(b, max, none.specs, q1);
    FirstPut(max, SpecKey(b, q1), spec);
    assert parsed == ([(SpecKey(b, q1), spec)], Done(spec));
    assert c.specs == [(SpecKey(b, q1), spec)];
    assert c.runs == match b.run(spec, context) case Done(run) => [(key, run)] case Failed(_) => [];
  }

  /** Caching is invisible, for every capacity and every call sequence, exactly
      when the versions determine the completed runs and the whitespace-normal
      form of a question determines its answer. */
  lemma TransparentExactlyWhen<S(!new), C(!new), R(!new), F>(b: Backend<S, C, R, F>, max: nat)
    requires max >= 1
    ensures Transparent(b, max) <==> VersionsDetermineRuns(b) && NormalFormDeterminesAnswer(b)
  {
    if Transparent(b, max) {
      forall spec, c1, c2 | b.versions(c1) == b.versions(c2) && b.run(spec, c1).Done?
        ensures b.run(spec, c2) == b.run(spec, c1)
      {
        TwoSpecCalls(b, max, spec, c1, c2);
      }
      forall q1, q2, context | CacheNormal(q1) == CacheNormal(q2) && b.parse(q1).Done?
        ensures Direct(b, Ask(q2, context)) == b.run(b.parse(q1).value, context)
      {
        TwoQuestions(b, max, q1, q2, context);
      }
    }
    if VersionsDetermineRuns(b) && NormalFormDeterminesAnswer(b) {
      forall calls: seq<Call<S, C>> | calls != [] ensures LastResponse(b, max, calls) == Direct(b, calls[|calls| - 1]) {
        ResponsesKeepVersions(b, max, calls);
        AnsweredDirectly(b, calls, calls[|calls| - 1], LastResponse(b, max, calls));
      }
    }
  }

  lemma SameVersionsOtherRun<S(!new), C(!new), R(!new), F>(b: Backend<S, C, R, F>, max: nat, spec: S, c1: C, c2: C)
    requires max >= 1 && b.versions(c1) == b.versions(c2)
    requires b.run(spec, c1).Done? && b.run(spec, c2) != b.run(spec, c1)
    ensures !Transparent(b, max)
  {
    TransparentExactlyWhen(b, max);
  }
}
