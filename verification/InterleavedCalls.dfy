/** The orchestrator's calls as tasks of one event loop: between two awaits a call
    runs alone, at an await any other call may run. */
module InterleavedCalls {
  import opened Text
  import opened VersionedCache
  import opened CachedPipeline

  // Where a call stands: awaiting the parser after a miss, awaiting the
  // retrievers after a miss, or finished.
  datatype Task<S, C, R, F> =
    | Parsing(question: string, context: C)
    | Running(call: Call<S, C>, spec: S)
    | Finished(call: Call<S, C>, response: Response<R, F>)

  datatype Event<S, C> = Start(call: Call<S, C>) | Resume(task: nat)

  // Tasks stand in the order in which they started.
  datatype System<S, C, R, F> = System(caches: Caches<S, R>, tasks: seq<Task<S, C, R, F>>)

  function CallOf<S, C, R, F>(task: Task<S, C, R, F>): Call<S, C> {
    match task
    case Parsing(question, context) => Ask(question, context)
    case Running(call, _) => call
    case Finished(call, _) => call
  }

  function Calls<S, C, R, F>(tasks: seq<Task<S, C, R, F>>): (calls: seq<Call<S, C>>)
    ensures |calls| == |tasks|
  {
    seq(|tasks|, i requires 0 <= i < |tasks| => CallOf(tasks[i]))
  }

  // ---- The segments between awaits ----

  // The start of run_with_spec.
  function Lookup<S(==), C, R, F>(b: Backend<S, C, R, F>, c: Caches<S, R>, call: Call<S, C>, spec: S): (Caches<S, R>, Task<S, C, R, F>) {
    var key := RunKey(b, spec, call.context);
    match Find(c.runs, key)
    case Some(run) => (Caches(c.specs, AfterGet(c.runs, key)), Finished(call, Done(run)))
    case None => (c, Running(call, spec))
  }

  function Enter<S(==), C, R, F>(b: Backend<S, C, R, F>, c: Caches<S, R>, call: Call<S, C>): (Caches<S, R>, Task<S, C, R, F>) {
    match call
    case RunSpec(spec, _) => Lookup(b, c, call, spec)
    case Ask(question, context) =>
      var key := SpecKey(b, question);
      match Find(c.specs, key)
      case Some(spec) => Lookup(b, Caches(AfterGet(c.specs, key), c.runs), call, spec)
      case None => (c, Parsing(question, context))
  }

  // What was awaited has come: a spec or a run is put, an exception is not.
  function Proceed<S(==), C, R, F>(b: Backend<S, C, R, F>, max: nat, c: Caches<S, R>, task: Task<S, C, R, F>)
    : (Caches<S, R>, Task<S, C, R, F>)
  {
    match task
    case Parsing(question, _) =>
      (match b.parse(question)
       case Done(spec) => Lookup(b, Caches(AfterPut(c.specs, max, SpecKey(b, question), spec), c.runs), CallOf(task), spec)
       case Failed(reason) => (c, Finished(CallOf(task), Failed(reason))))
    case Running(call, spec) =>
      (match b.run(spec, call.context)
       case Done(run) => (Caches(c.specs, AfterPut(c.runs, max, RunKey(b, spec, call.context), run)), Finished(call, Done(run)))
       case Failed(reason) => (c, Finished(call, Failed(reason))))
    case Finished(_, _) => (c, task)
  }

  function Next<S(==), C, R, F>(b: Backend<S, C, R, F>, max: nat, s: System<S, C, R, F>, e: Event<S, C>): System<S, C, R, F> {
    match e
    case Start(call) =>
      var entered := Enter(b, s.caches, call);
      System(entered.0, s.tasks + [entered.1])
    case Resume(t) =>
      if t < |s.tasks| then
        var resumed := Proceed(b, max, s.caches, s.tasks[t]);
        System(resumed.0, s.tasks[t := resumed.1])
      else s
  }

  function Execute<S(==), C, R, F>(b: Backend<S, C, R, F>, max: nat, events: seq<Event<S, C>>): System<S, C, R, F> {
    if events == [] then System(Caches([], []), [])
    else Next(b, max, Execute(b, max, events[..|events| - 1]), events[|events| - 1])
  }

  function Started<S, C>(events: seq<Event<S, C>>): seq<Call<S, C>> {
    if events == [] then []
    else Started(events[..|events| - 1]) + (match events[|events| - 1] case Start(call) => [call] case Resume(_) => [])
  }

  lemma ExecuteLast<S, C, R, F>(b: Backend<S, C, R, F>, max: nat, events: seq<Event<S, C>>, e: Event<S, C>)
    ensures Execute(b, max, events + [e]) == Next(b, max, Execute(b, max, events), e)
    ensures Started(events + [e]) == Started(events) + (match e case Start(call) => [call] case Resume(_) => [])
  {
    assert (events + [e])[..|events|] == events;
  }

  // ---- What every reachable state keeps ----

  // A running task has its own spec, or one the parser gave for its normal form.
  ghost predicate TaskSound<S(!new), C(!new), R(!new), F>(b: Backend<S, C, R, F>, calls: seq<Call<S, C>>, task: Task<S, C, R, F>) {
    match task
    case Parsing(_, _) => true
    case Running(RunSpec(own, _), spec) => spec == own
    case Running(Ask(question, _), spec) => Parsed(b, calls, (SpecKey(b, question), spec))
    case Finished(call, response) => Answered(b, calls, call, response)
  }

  ghost predicate Inv<S(!new), C(!new), R(!new), F>(b: Backend<S, C, R, F>, max: nat, s: System<S, C, R, F>) {
    && Sound(b, max, Calls(s.tasks), s.caches)
    && forall task :: task in s.tasks ==> TaskSound(b, Calls(s.tasks), task)
  }

  // What one segment promises: the caches stay sound and the task is well placed.
  ghost predicate Moved<S(!new), C(!new), R(!new), F>(b: Backend<S, C, R, F>, max: nat, calls: seq<Call<S, C>>, call: Call<S, C>,
                                                     moved: (Caches<S, R>, Task<S, C, R, F>)) {
    Sound(b, max, calls, moved.0) && TaskSound(b, calls, moved.1) && CallOf(moved.1) == call
  }

  // The spec with which a call comes to its run.
  ghost predicate Ready<S(!new), C(!new), R, F>(b: Backend<S, C, R, F>, calls: seq<Call<S, C>>, call: Call<S, C>, spec: S) {
    match call
    case RunSpec(own, _) => spec == own
    case Ask(question, _) => Parsed(b, calls, (SpecKey(b, question), spec))
  }

  lemma ServedIsAnswered<S(!new), C(!new), R(!new), F>(b: Backend<S, C, R, F>, calls: seq<Call<S, C>>, call: Call<S, C>, spec: S, r: Response<R, F>)
    requires Ready(b, calls, call, spec) && Served(b, calls, spec, call.context, r)
    ensures Answered(b, calls, call, r)
  {
  }

  lemma LookupMoves<S(!new), C(!new), R(!new), F>(b: Backend<S, C, R, F>, max: nat, calls: seq<Call<S, C>>, c: Caches<S, R>,
                                                 call: Call<S, C>, spec: S)
    requires Sound(b, max, calls, c) && Ready(b, calls, call, spec)
    ensures Moved(b, max, calls, call, Lookup(b, c, call, spec))
  {
    var key := RunKey(b, spec, call.context);
    FindIsMember(c.runs, key);
    RunsStaySound(b, max, calls, c, Get(key));
    if Find(c.runs, key).Some? {
      var r: Response<R, F> := Done(Find(c.runs, key).value);
      ServedIsAnswered(b, calls, call, spec, r);
    }
  }

  lemma EnterMoves<S(!new), C(!new), R(!new), F>(b: Backend<S, C, R, F>, max: nat, calls: seq<Call<S, C>>, c: Caches<S, R>, call: Call<S, C>)
    requires Sound(b, max, calls, c)
    ensures Moved(b, max, calls, call, Enter(b, c, call))
  {
    match call
    case RunSpec(spec, _) => LookupMoves(b, max, calls, c, call, spec);
    case Ask(question, _) =>
      var key := SpecKey(b, question);
      FindIsMember(c.specs, key);
      if Find(c.specs, key).Some? {
        SpecsStaySound(b, max, calls, c, Get(key));
        LookupMoves(b, max, calls, Caches(AfterGet(c.specs, key), c.runs), call, Find(c.specs, key).value);
      }
  }

  lemma ProceedMoves<S(!new), C(!new), R(!new), F>(b: Backend<S, C, R, F>, max: nat, calls: seq<Call<S, C>>, c: Caches<S, R>,
                                                  task: Task<S, C, R, F>)
    requires Sound(b, max, calls, c) && TaskSound(b, calls, task) && CallOf(task) in calls
    ensures Moved(b, max, calls, CallOf(task), Proceed(b, max, c, task))
  {
    var call := CallOf(task);
    match task
    case Parsing(question, _) =>
      if b.parse(question).Done? {
        var key, spec := SpecKey(b, question), b.parse(question).value;
        assert Parsed(b, calls, (key, spec));
        SpecsStaySound(b, max, calls, c, Put(key, spec));
        LookupMoves(b, max, calls, Caches(AfterPut(c.specs, max, key, spec), c.runs), call, spec);
      }
    case Running(_, spec) =>
      var r := b.run(spec, call.context);
      if r.Done? {
        var key := RunKey(b, spec, call.context);
        assert Computed(b, calls, (key, r.value));
        RunsStaySound(b, max, calls, c, Put(key, r.value));
      }
      ServedIsAnswered(b, calls, call, spec, r);
    case Finished(_, _) =>
  }

  lemma MoreCallsForTask<S(!new), C(!new), R(!new), F>(b: Backend<S, C, R, F>, calls: seq<Call<S, C>>, call: Call<S, C>, task: Task<S, C, R, F>)
    requires TaskSound(b, calls, task)
    ensures TaskSound(b, calls + [call], task)
  {
    var more := calls + [call];
    match task
    case Parsing(_, _) =>
    case Running(RunSpec(_, _), _) =>
    case Running(Ask(question, _), spec) => MoreCallsParsed(b, calls, call, (SpecKey(b, question), spec));
    case Finished(RunSpec(spec, context), r) => MoreCallsServed(b, calls, call, spec, context, r);
    case Finished(Ask(question, context), r) =>
      if !(r.Failed? && b.parse(question) == Response<S, F>.Failed(r.reason)) {
        var spec :| Parsed(b, calls, (SpecKey(b, question), spec)) && Served(b, calls, spec, context, r);
        MoreCallsParsed(b, calls, call, (SpecKey(b, question), spec));
        MoreCallsServed(b, calls, call, spec, context, r);
      }
  }

  lemma MoreCallsParsed<S(!new), C(!new), R(!new), F>(b: Backend<S, C, R, F>, calls: seq<Call<S, C>>, call: Call<S, C>, item: (CacheKey<string>, S))
    requires Parsed(b, calls, item)
    ensures Parsed(b, calls + [call], item)
  {
  }

  lemma MoreCallsServed<S(!new), C(!new), R(!new), F>(b: Backend<S, C, R, F>, calls: seq<Call<S, C>>, call: Call<S, C>,
                                                     spec: S, context: C, r: Response<R, F>)
    requires Served(b, calls, spec, context, r)
    ensures Served(b, calls + [call], spec, context, r)
  {
    if r.Done? { assert Computed(b, calls, (RunKey(b, spec, context), r.value)); }
  }

  lemma NextKeepsInv<S(!new), C(!new), R(!new), F>(b: Backend<S, C, R, F>, max: nat, s: System<S, C, R, F>, e: Event<S, C>)
    requires Inv(b, max, s)
    ensures Inv(b, max, Next(b, max, s, e))
    ensures Calls(Next(b, max, s, e).tasks) == Calls(s.tasks) + (match e case Start(call) => [call] case Resume(_) => [])
  {
    var calls := Calls(s.tasks);
    match e
    case Start(call) =>
      MoreCalls(b, max, calls, call, s.caches);
      EnterMoves(b, max, calls + [call], s.caches, call);
      forall task | task in s.tasks ensures TaskSound(b, calls + [call], task) { MoreCallsForTask(b, calls, call, task); }
      var entered := Enter(b, s.caches, call);
      assert Calls(s.tasks + [entered.1]) == calls + [call];
    case Resume(t) =>
      if t < |s.tasks| {
        assert CallOf(s.tasks[t]) == calls[t];
        ProceedMoves(b, max, calls, s.caches, s.tasks[t]);
        var resumed := Proceed(b, max, s.caches, s.tasks[t]);
        assert Calls(s.tasks[t := resumed.1]) == calls;
      }
  }

  /** In every order of segments of any number of calls, the caches hold only
      what some started call parsed or computed, and every finished call has an
      answer that keeps its versions. */
  lemma {:induction false} EverySchedule<S(!new), C(!new), R(!new), F>(b: Backend<S, C, R, F>, max: nat, events: seq<Event<S, C>>)
    ensures Inv(b, max, Execute(b, max, events))
    ensures Calls(Execute(b, max, events).tasks) == Started(events)
  {
    if events != [] {
      var before, e := events[..|events| - 1], events[|events| - 1];
      EverySchedule(b, max, before);
      NextKeepsInv(b, max, Execute(b, max, before), e);
    }
  }

  // ---- Calls one after another are one of the schedules ----

  function InTurn<S, C>(calls: seq<Call<S, C>>): seq<Event<S, C>> {
    if calls == [] then []
    else InTurn(calls[..|calls| - 1]) + [Start(calls[|calls| - 1])] + [Resume(|calls| - 1)] + [Resume(|calls| - 1)]
  }

  // A call that is not interrupted: it enters and is resumed at most twice.
  lemma UninterruptedCall<S(!new), C(!new), R(!new), F>(b: Backend<S, C, R, F>, max: nat, c: Caches<S, R>, call: Call<S, C>)
    ensures var entered := Enter(b, c, call);
            var once := Proceed(b, max, entered.0, entered.1);
            var step := CallStep(b, max, c, call);
            Proceed(b, max, once.0, once.1) == (step.0, Finished(call, step.1))
  {
  }

  lemma {:induction false} SequentialIsASchedule<S(!new), C(!new), R(!new), F>(b: Backend<S, C, R, F>, max: nat, calls: seq<Call<S, C>>)
    ensures var s := Execute(b, max, InTurn(calls));
      && s.caches == After(b, max, calls) && |s.tasks| == |calls|
      && (calls != [] ==> s.tasks[|calls| - 1] == Finished(calls[|calls| - 1], LastResponse(b, max, calls)))
  {
    if calls != [] {
      var before, call, n := calls[..|calls| - 1], calls[|calls| - 1], |calls| - 1;
      SequentialIsASchedule(b, max, before);
      var events := InTurn(before);
      ExecuteLast(b, max, events, Start(call));
      ExecuteLast(b, max, events + [Start(call)], Resume(n));
      ExecuteLast(b, max, events + [Start(call)] + [Resume(n)], Resume(n));
      UninterruptedCall(b, max, After(b, max, before), call);
    }
  }

  // ---- When caching is invisible to interleaved calls ----

  ghost predicate TransparentInEverySchedule<S(!new), C(!new), R(!new), F>(b: Backend<S, C, R, F>, max: nat) {
    forall events: seq<Event<S, C>>, t :: 0 <= t < |Execute(b, max, events).tasks| && Execute(b, max, events).tasks[t].Finished? ==>
      Execute(b, max, events).tasks[t].response == Direct(b, CallOf(Execute(b, max, events).tasks[t]))
  }

  /** Interleaving adds no way to see the caches: every finished call of every
      schedule has its uncached response exactly when this holds of calls that
      run one after another. */
  lemma SchedulesAreTransparentExactlyWhen<S(!new), C(!new), R(!new), F>(b: Backend<S, C, R, F>, max: nat)
    requires max >= 1
    ensures TransparentInEverySchedule(b, max) <==> VersionsDetermineRuns(b) && NormalFormDeterminesAnswer(b)
    ensures TransparentInEverySchedule(b, max) <==> Transparent(b, max)
  {
    TransparentExactlyWhen(b, max);
    if VersionsDetermineRuns(b) && NormalFormDeterminesAnswer(b) {
      forall events: seq<Event<S, C>>, t | 0 <= t < |Execute(b, max, events).tasks| && Execute(b, max, events).tasks[t].Finished?
        ensures Execute(b, max, events).tasks[t].response == Direct(b, CallOf(Execute(b, max, events).tasks[t]))
      {
        var tasks := Execute(b, max, events).tasks;
        EverySchedule(b, max, events);
        assert TaskSound(b, Calls(tasks), tasks[t]);
        AnsweredDirectly(b, Calls(tasks), tasks[t].call, tasks[t].response);
      }
    }
    if TransparentInEverySchedule(b, max) {
      forall calls: seq<Call<S, C>> | calls != [] ensures LastResponse(b, max, calls) == Direct(b, calls[|calls| - 1]) {
        SequentialIsASchedule(b, max, calls);
        assert Execute(b, max, InTurn(calls)).tasks[|calls| - 1].Finished?;
      }
    }
  }
}
