/** ReadinessService.check: a double-checked lock that coalesces refreshes.
    A coroutine runs atomically between its await points, so the service is a
    class with one method per segment, any number of concurrent callers is a state
    machine, and each of its events is shown to be what the class does. */
module Readiness {
  import opened Text

  // The fields `_snapshot` and `_checked_monotonic`.
  datatype Core<+S> = Core(snapshot: Option<S>, checkedAt: real)

  predicate IsFresh<S>(c: Core<S>, now: real, ttl: real) {
    c.snapshot.Some? && now - c.checkedAt < ttl
  }

  class ReadinessService<S> {
    const ttl: real
    var snapshot: Option<S>
    var checkedAt: real

    constructor (cacheSeconds: real)
      ensures ttl == cacheSeconds && snapshot == None && checkedAt == 0.0
    {
      ttl, snapshot, checkedAt := cacheSeconds, None, 0.0;
    }

    function State(): Core<S>
      reads this
    {
      Core(snapshot, checkedAt)
    }

    // Entry, and again once the lock is held: return the snapshot while it is fresh.
    method ReturnIfFresh(now: real) returns (r: Option<S>)
      ensures r == if IsFresh(State(), now, ttl) then snapshot else None
    {
      if snapshot.Some? && now - checkedAt < ttl { return snapshot; }
      return None;
    }

    // The segment after `await self._refresh()`; `now` is monotonic() there.
    method StoreRefreshed(now: real, refreshed: S) returns (r: S)
      modifies this
      ensures State() == Core(Some(refreshed), now) && r == refreshed
    {
      snapshot := Some(refreshed);
      checkedAt := now;
      r := refreshed;
    }
  }

  // ---- Concurrent callers ----

  datatype Phase<+S> =
    | Waiting                                                     // for the lock
    | Refreshing                                                  // holds the lock
    | Returned(value: S, at: real, takenAt: real, own: bool)      // own: refreshed by this call
    | Failed                                                      // the refresh raised, or the wait was cancelled

  datatype System<+S> = System(now: real, core: Core<S>, holder: Option<nat>, phases: map<nat, Phase<S>>,
                               refreshes: seq<(real, S)>)         // completed refreshes, oldest first

  datatype Event<+S> =
    | Tick(elapsed: real)
    | Call(task: nat)
    | Acquire(task: nat)
    | RefreshDone(task: nat, result: S)
    | RefreshRaised(task: nat)
    | CancelWaiting(task: nat)

  function Start<S>(now: real): System<S> {
    System(now, Core(None, 0.0), None, map[], [])
  }

  predicate Enabled<S>(s: System<S>, e: Event<S>) {
    match e
    case Tick(elapsed) => elapsed >= 0.0
    case Call(t) => t !in s.phases
    case Acquire(t) => t in s.phases && s.phases[t].Waiting? && s.holder.None?
    case RefreshDone(t, _) => t in s.phases && s.phases[t].Refreshing?
    case RefreshRaised(t) => t in s.phases && s.phases[t].Refreshing?
    case CancelWaiting(t) => t in s.phases && s.phases[t].Waiting?
  }

  function ReturnCached<S>(s: System<S>, t: nat): System<S>
    requires s.core.snapshot.Some?
  {
    s.(phases := s.phases[t := Returned(s.core.snapshot.value, s.now, s.core.checkedAt, false)])
  }

  function Next<S>(s: System<S>, ttl: real, e: Event<S>): System<S>
    requires Enabled(s, e)
  {
    match e
    case Tick(elapsed) => s.(now := s.now + elapsed)
    case Call(t) =>
      if IsFresh(s.core, s.now, ttl) then ReturnCached(s, t) else s.(phases := s.phases[t := Waiting])
    case Acquire(t) =>
      if IsFresh(s.core, s.now, ttl) then ReturnCached(s, t)
      else s.(holder := Some(t), phases := s.phases[t := Refreshing])
    case RefreshDone(t, v) =>
      s.(core := Core(Some(v), s.now), holder := None, phases := s.phases[t := Returned(v, s.now, s.now, true)],
         refreshes := s.refreshes + [(s.now, v)])
    case RefreshRaised(t) => s.(holder := None, phases := s.phases[t := Failed])
    case CancelWaiting(t) => s.(phases := s.phases[t := Failed])
  }

  // The events of a run, in order, from the state s; every event must be enabled.
  ghost predicate IsRun<S>(s: System<S>, ttl: real, events: seq<Event<S>>)
    decreases |events|
  {
    events == [] || (Enabled(s, events[0]) && IsRun(Next(s, ttl, events[0]), ttl, events[1..]))
  }

  ghost function End<S>(s: System<S>, ttl: real, events: seq<Event<S>>): System<S>
    requires IsRun(s, ttl, events)
    decreases |events|
  {
    if events == [] then s else End(Next(s, ttl, events[0]), ttl, events[1..])
  }

  // Only the lock holder refreshes, and it started because the snapshot was stale.
  ghost predicate OneRefresher<S>(s: System<S>, ttl: real) {
    && (forall t :: t in s.phases && s.phases[t].Refreshing? <==> s.holder == Some(t))
    && (s.holder.Some? ==> !IsFresh(s.core, s.now, ttl))
  }

  ghost predicate Spaced<S>(refreshes: seq<(real, S)>, ttl: real) {
    forall i :: 0 < i < |refreshes| ==> refreshes[i].0 - refreshes[i - 1].0 >= ttl
  }

  ghost predicate SnapshotIsLatest<S>(s: System<S>) {
    if s.refreshes == [] then s.core.snapshot == None
    else var last := s.refreshes[|s.refreshes| - 1];
         s.core == Core(Some(last.1), last.0) && last.0 <= s.now
  }

  // What a caller got: a completed refresh, younger than ttl or made by itself
  // in that moment.
  ghost predicate GoodReturn<S>(p: Phase<S>, refreshes: seq<(real, S)>, ttl: real) {
    p.Returned? ==> (p.takenAt, p.value) in refreshes && if p.own then p.at == p.takenAt else p.at - p.takenAt < ttl
  }

  ghost predicate Inv<S>(s: System<S>, ttl: real) {
    && OneRefresher(s, ttl)
    && Spaced(s.refreshes, ttl)
    && SnapshotIsLatest(s)
    && forall t :: t in s.phases ==> GoodReturn(s.phases[t], s.refreshes, ttl)
  }

  lemma StepKeepsInv<S(!new)>(s: System<S>, ttl: real, e: Event<S>)
    requires Inv(s, ttl) && Enabled(s, e)
    ensures Inv(Next(s, ttl, e), ttl)
  {
    var s' := Next(s, ttl, e);
    forall t | t in s'.phases ensures GoodReturn(s'.phases[t], s'.refreshes, ttl) {
      if t in s.phases { assert GoodReturn(s.phases[t], s.refreshes, ttl); }
      if e.RefreshDone? && t == e.task {
        assert s'.refreshes[|s.refreshes|] == (s.now, e.result);
      }
    }
  }

  /** In every run, with any number of callers: at most one refresh is in
      flight, completed refreshes are at least ttl apart, and every returned
      snapshot is fresh or was produced by the call that returned it. */
  lemma {:induction false} RunsKeepInv<S(!new)>(s: System<S>, ttl: real, events: seq<Event<S>>)
    requires Inv(s, ttl) && IsRun(s, ttl, events)
    ensures Inv(End(s, ttl, events), ttl)
    decreases |events|
  {
    if events != [] {
      StepKeepsInv(s, ttl, events[0]);
      RunsKeepInv(Next(s, ttl, events[0]), ttl, events[1..]);
    }
  }

  lemma EveryRun<S(!new)>(began: real, ttl: real, events: seq<Event<S>>)
    requires IsRun(Start<S>(began), ttl, events)
    ensures var s := End(Start<S>(began), ttl, events);
      && (forall t, u :: t in s.phases && u in s.phases && s.phases[t].Refreshing? && s.phases[u].Refreshing? ==> t == u)
      && Spaced(s.refreshes, ttl)
      && (forall t :: t in s.phases ==> GoodReturn(s.phases[t], s.refreshes, ttl))
  {
    assert Inv(Start<S>(began), ttl);
    RunsKeepInv(Start<S>(began), ttl, events);
  }

  /** A refresh starts only when there is no snapshot or the last one is at least
      ttl old, and only by the caller that then holds the lock. */
  lemma RefreshStartsOnlyWhenStale<S(!new)>(s: System<S>, ttl: real, e: Event<S>)
    requires Inv(s, ttl) && Enabled(s, e) && s.holder.None?
    ensures Next(s, ttl, e).holder.Some? <==>
            e.Acquire? && (s.refreshes == [] || s.now - s.refreshes[|s.refreshes| - 1].0 >= ttl)
  {
  }

  /** The bound this gives a provider: k further refreshes take at least k * ttl. */
  lemma {:induction false} RefreshRateBound<S>(refreshes: seq<(real, S)>, ttl: real, i: nat, j: nat)
    requires Spaced(refreshes, ttl) && i <= j < |refreshes|
    ensures refreshes[j].0 - refreshes[i].0 >= (j - i) as real * ttl
  {
    if i < j {
      RefreshRateBound(refreshes, ttl, i, j - 1);
      assert (j - i) as real * ttl == (j - 1 - i) as real * ttl + ttl;
    }
  }

  /** Coalescing: once a refresh has completed, no caller that was waiting, and
      no later one, starts another before ttl has passed. */
  lemma {:induction false} WaitersShareOneRefresh<S(!new)>(s: System<S>, ttl: real, events: seq<Event<S>>)
    requires Inv(s, ttl) && IsRun(s, ttl, events)
    requires s.refreshes != [] && s.holder.None?
    requires End(s, ttl, events).now - s.core.checkedAt < ttl
    ensures End(s, ttl, events).refreshes == s.refreshes && End(s, ttl, events).core == s.core
    ensures End(s, ttl, events).holder.None?
    decreases |events|
  {
    if events != [] {
      StepKeepsInv(s, ttl, events[0]);
      TimeMovesForward(Next(s, ttl, events[0]), ttl, events[1..]);
      WaitersShareOneRefresh(Next(s, ttl, events[0]), ttl, events[1..]);
    }
  }

  lemma {:induction false} TimeMovesForward<S(!new)>(s: System<S>, ttl: real, events: seq<Event<S>>)
    requires IsRun(s, ttl, events)
    ensures End(s, ttl, events).now >= s.now
    decreases |events|
  {
    if events != [] {
      TimeMovesForward(Next(s, ttl, events[0]), ttl, events[1..]);
    }
  }

  // ---- The service behind the state machine ----

  /** One event, performed by the service's own code: each segment of check()
      leaves the fields, and hands its caller what Next says. */
  method Handle<S(0)>(service: ReadinessService<S>, s: System<S>, e: Event<S>) returns (next: System<S>)
    requires service.State() == s.core && Enabled(s, e)
    modifies service
    ensures next == Next(s, service.ttl, e) && service.State() == next.core
  {
    next := s;
    match e {
      case Tick(elapsed) =>
        next := s.(now := s.now + elapsed);
      case Call(t) =>
        var cached := service.ReturnIfFresh(s.now);
        var phase := if cached.Some? then Returned(cached.value, s.now, service.checkedAt, false) else Waiting;
        next := s.(phases := s.phases[t := phase]);
      case Acquire(t) =>
        var cached := service.ReturnIfFresh(s.now);
        if cached.Some? {
          next := s.(phases := s.phases[t := Returned(cached.value, s.now, service.checkedAt, false)]);
        } else {
          next := s.(holder := Some(t), phases := s.phases[t := Refreshing]);
        }
      case RefreshDone(t, result) =>
        var own := service.StoreRefreshed(s.now, result);
        next := System(s.now, service.State(), None, s.phases[t := Returned(own, s.now, service.checkedAt, true)], s.refreshes + [(s.now, result)]);
      case RefreshRaised(t) =>
        next := s.(holder := None, phases := s.phases[t := Failed]);
      case CancelWaiting(t) =>
        next := s.(phases := s.phases[t := Failed]);
    }
  }

  /** Every run of the service, whatever its callers do, has the properties of
      the state machine: its fields end as the run ends, and the invariant holds. */
  method Serve<S(0, !new)>(service: ReadinessService<S>, began: real, events: seq<Event<S>>) returns (s: System<S>)
    requires service.State() == Core(None, 0.0) && IsRun(Start<S>(began), service.ttl, events)
    modifies service
    ensures s == End(Start<S>(began), service.ttl, events) && service.State() == s.core
    ensures Inv(s, service.ttl)
  {
    s := Start<S>(began);
    RunsKeepInv(s, service.ttl, events);
    for i := 0 to |events|
      invariant service.State() == s.core && IsRun(s, service.ttl, events[i..])
      invariant End(s, service.ttl, events[i..]) == End(Start<S>(began), service.ttl, events)
    {
      assert events[i..][0] == events[i] && events[i..][1..] == events[i + 1..];
      s := Handle(service, s, events[i]);
    }
  }
}
