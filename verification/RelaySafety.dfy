/** What holds in every reachable state of the relay, whatever its exchanges do at once. */
module RelaySafety {
  import opened Wrappers
  import opened RelayDeadline
  import opened Relay

  /** The fetches of one exchange, in order. */
  function Of(fetches: seq<Fetch>, id: int): seq<Fetch> {
    if fetches == [] then []
    else
      var last := fetches[|fetches| - 1];
      Of(fetches[..|fetches| - 1], id) + if last.exchange == id then [last] else []
  }

  function NamedOperation(o: Options, entry: Entry): Option<ApiOperation> {
    match entry
    case Relayed(_, pathOperation, _, _) => if pathOperation.Some? then Find(o.catalog, pathOperation.value) else None
    case Native(operation, _) => Some(operation)
  }

  /** Everything that has to be settled before the fetcher may be called on a target. */
  predicate Cleared(o: Options, entry: Entry, operation: ApiOperation, target: Url) {
    && NamedOperation(o, entry) == Some(operation) && operation.semanticClass == KnownRead
    && (entry.Relayed? ==> entry.plain && entry.safeHeaders && entry.headerOperation == entry.pathOperation && operation.eligible)
    && (Target(o, operation) == Some(target) || o.resolve(operation) == Some(target))
    && PolicyAllowsTarget(o, target, operation) && Admitted(o, target)
  }

  predicate RedirectCleared(o: Options, target: Url, redirect: Url) {
    SameOrigin(redirect, target) && (o.mode == DevMode ==> redirect.path == target.path) && Admitted(o, redirect)
  }

  /** At most two fetches: a cleared target, then perhaps a cleared redirect from it. */
  predicate FetchesOk(o: Options, entry: Entry, fs: seq<Fetch>) {
    && |fs| <= 2
    && (|fs| >= 1 ==>
          !fs[0].redirected && NamedOperation(o, entry).Some?
          && Cleared(o, entry, NamedOperation(o, entry).value, fs[0].target))
    && (|fs| == 2 ==> !fs[0].settled && fs[1].redirected && RedirectCleared(o, fs[0].target, fs[1].target))
  }

  /** What the fetches say about the way an exchange ended. */
  predicate EndingOk(fs: seq<Fetch>, ending: Ending) {
    match ending
    case Refusal(_) => fs == []
    case NetworkFailure(_) => true
    case Answered(_, redirect) =>
      && |fs| >= 1 && (forall i :: 0 <= i < |fs| ==> !fs[i].settled)
      && (redirect == NoRedirect ==> |fs| == 1) && (redirect == ApprovedSameOrigin ==> |fs| == 2)
  }

  predicate RaceOk(d: Deadline, race: Race) {
    (race.Cut? ==> d.cause == Some(race.cause)) && (d.cause.Some? ==> !race.Open?)
  }

  /** An answered exchange on a catalogued operation has left an observation, its own or an earlier one. */
  predicate Witnessed(o: Options, entry: Entry, observed: set<string>) {
    entry.Relayed? && NamedOperation(o, entry).Some? ==> entry.pathOperation.value in observed
  }

  predicate ExchangeOk(o: Options, e: Exchange, id: int, fs: seq<Fetch>, observed: set<string>) {
    match e.point
    case Waiting => fs == [] && e.deadline == Deadline(None, false, false, false)
    case Crashed => fs == []
    case Authorising(operation, target, race) =>
      fs == [] && Cleared(o, e.entry, operation, target) && RaceOk(e.deadline, race) && !e.deadline.disposed
    case Requesting(operation, target, race) =>
      fs == [Fetch(id, target, false, false)] && Cleared(o, e.entry, operation, target) && RaceOk(e.deadline, race) && !e.deadline.disposed
    case Redirecting(operation, target, redirect, race) =>
      && fs == [Fetch(id, target, false, false), Fetch(id, redirect, true, false)] && Cleared(o, e.entry, operation, target)
      && RedirectCleared(o, target, redirect) && RaceOk(e.deadline, race) && !e.deadline.disposed
    case Done(ending) =>
      && FetchesOk(o, e.entry, fs) && EndingOk(fs, ending) && Witnessed(o, e.entry, observed)
      && !e.deadline.timerArmed && !e.deadline.listening
  }

  function Count(violations: seq<Violation>): nat {
    if violations == [] then 0
    else Count(violations[..|violations| - 1]) + if violations[|violations| - 1] == ObservationAlreadyRecorded then 1 else 0
  }

  predicate ObservationOk(exchanges: map<int, Exchange>, operationId: string, observation: Observation) {
    && observation.writer in exchanges
    && var e := exchanges[observation.writer];
    && e.entry.Relayed? && e.entry.pathOperation == Some(operationId)
    && e.point == Done(observation.ending)
  }

  ghost predicate RecordsOk(s: System) {
    && (forall operationId :: operationId in s.observations ==> ObservationOk(s.exchanges, operationId, s.observations[operationId]))
    && s.attempts == |s.observations| + Count(s.violations)
  }

  ghost predicate OthersOk(o: Options, s: System, id: int) {
    forall q :: q in s.exchanges && q != id ==> ExchangeOk(o, s.exchanges[q], q, Of(s.fetches, q), s.observations.Keys)
  }

  ghost predicate Invariant(o: Options, s: System) {
    && RecordsOk(s)
    && forall q :: q in s.exchanges ==> ExchangeOk(o, s.exchanges[q], q, Of(s.fetches, q), s.observations.Keys)
  }

  predicate Live(s: System, id: int) {
    id in s.exchanges && !s.exchanges[id].point.Done?
  }

  // ----- the writes, one by one -----

  lemma FindNames(catalog: seq<ApiOperation>, operationId: string)
    ensures Find(catalog, operationId).Some? ==> Find(catalog, operationId).value.operationId == operationId
  {
  }

  lemma MoreObserved(o: Options, e: Exchange, id: int, fs: seq<Fetch>, observed: set<string>, more: set<string>)
    requires ExchangeOk(o, e, id, fs, observed) && observed <= more
    ensures ExchangeOk(o, e, id, fs, more)
  {
    hide Cleared;
    hide RedirectCleared;
    hide NamedOperation;
  }

  lemma OneMoreViolation(violations: seq<Violation>, v: Violation)
    ensures Count(violations + [v]) == Count(violations) + if v == ObservationAlreadyRecorded then 1 else 0
  {
    assert (violations + [v])[..|violations|] == violations;
  }

  lemma PlaceKeeps(o: Options, s: System, id: int, d: Deadline, point: Point)
    requires RecordsOk(s) && OthersOk(o, s, id) && Live(s, id)
    requires ExchangeOk(o, Exchange(s.exchanges[id].entry, d, point), id, Of(s.fetches, id), s.observations.Keys)
    ensures Invariant(o, AtPoint(s, id, d, point))
  {
    hide ExchangeOk;
    var t := AtPoint(s, id, d, point);
    forall operationId | operationId in t.observations ensures ObservationOk(t.exchanges, operationId, t.observations[operationId]) {
      assert ObservationOk(s.exchanges, operationId, s.observations[operationId]);
    }
  }

  lemma RecordKeepsRecords(s: System, id: int, d: Deadline, operationId: string, ending: Ending)
    requires RecordsOk(s) && Live(s, id)
    requires s.exchanges[id].entry.Relayed? && s.exchanges[id].entry.pathOperation == Some(operationId)
    ensures RecordsOk(AtPoint(Recorded(s, operationId, Observation(id, ending)), id, d, Done(ending)))
  {
    var t := AtPoint(Recorded(s, operationId, Observation(id, ending)), id, d, Done(ending));
    RecordingCounted(s, operationId, Observation(id, ending));
    hide Count;
    forall name | name in t.observations ensures ObservationOk(t.exchanges, name, t.observations[name]) {
      if name in s.observations { assert ObservationOk(s.exchanges, name, s.observations[name]); }
    }
  }

  lemma RecordingCounted(s: System, operationId: string, observation: Observation)
    requires s.attempts == |s.observations| + Count(s.violations)
    ensures var t := Recorded(s, operationId, observation); t.attempts == |t.observations| + Count(t.violations)
  {
    OneMoreViolation(s.violations, ObservationAlreadyRecorded);
    hide Count;
  }

  /** Recording and finishing in one go: the observation, if it is the first, is this exchange's. */
  lemma RecordKeeps(o: Options, s: System, id: int, d: Deadline, operationId: string, ending: Ending)
    requires RecordsOk(s) && OthersOk(o, s, id) && Live(s, id)
    requires s.exchanges[id].entry.Relayed? && s.exchanges[id].entry.pathOperation == Some(operationId)
    requires FetchesOk(o, s.exchanges[id].entry, Of(s.fetches, id)) && EndingOk(Of(s.fetches, id), ending)
    requires !d.timerArmed && !d.listening
    ensures Invariant(o, AtPoint(Recorded(s, operationId, Observation(id, ending)), id, d, Done(ending)))
  {
    hide FetchesOk;
    hide EndingOk;
    var t := AtPoint(Recorded(s, operationId, Observation(id, ending)), id, d, Done(ending));
    RecordKeepsRecords(s, id, d, operationId, ending);
    hide RecordsOk;
    assert ExchangeOk(o, t.exchanges[id], id, Of(t.fetches, id), t.observations.Keys);
    hide ExchangeOk;
    forall q | q in t.exchanges ensures ExchangeOk(o, t.exchanges[q], q, Of(t.fetches, q), t.observations.Keys) {
      if q != id {
        MoreObserved(o, s.exchanges[q], q, Of(s.fetches, q), s.observations.Keys, t.observations.Keys);
      }
    }
  }

  lemma FinishKeeps(o: Options, s: System, id: int, operation: ApiOperation, ending: Ending)
    requires RecordsOk(s) && OthersOk(o, s, id) && Live(s, id)
    requires NamedOperation(o, s.exchanges[id].entry) == Some(operation)
    requires FetchesOk(o, s.exchanges[id].entry, Of(s.fetches, id)) && EndingOk(Of(s.fetches, id), ending)
    requires !s.exchanges[id].deadline.disposed
    ensures Invariant(o, Finish(s, id, operation, ending))
  {
    hide FetchesOk;
    hide EndingOk;
    var e := s.exchanges[id];
    var d := Happens(e.deadline, Disposes);
    if e.entry.Relayed? {
      FindNames(o.catalog, e.entry.pathOperation.value);
      RecordKeeps(o, s, id, d, operation.operationId, ending);
    } else {
      PlaceKeeps(o, s, id, d, Done(ending));
    }
  }

  lemma ViolationKeeps(o: Options, s: System, reason: Block)
    requires Invariant(o, s)
    ensures Invariant(o, s.(violations := s.violations + [Blocked(reason)]))
  {
    hide ExchangeOk;
    OneMoreViolation(s.violations, Blocked(reason));
  }

  lemma RejectKeeps(o: Options, s: System, id: int, reason: Block)
    requires Invariant(o, s) && id in s.exchanges && s.exchanges[id].point.Waiting? && s.exchanges[id].entry.Relayed?
    ensures Invariant(o, Reject(o, s, id, reason))
  {
    var e := s.exchanges[id];
    var t := Reject(o, s, id, reason);
    assert ExchangeOk(o, e, id, Of(s.fetches, id), s.observations.Keys);
    if NamedOperation(o, e.entry).Some? {
      var operationId := e.entry.pathOperation.value;
      RecordKeeps(o, s, id, e.deadline, operationId, Refusal(reason));
      var r := AtPoint(Recorded(s, operationId, Observation(id, Refusal(reason))), id, e.deadline, Done(Refusal(reason)));
      hide Invariant;
      ViolationKeeps(o, r, reason);
      assert t == r.(violations := r.violations + [Blocked(reason)]);
    } else {
      PlaceKeeps(o, s, id, e.deadline, Done(Refusal(reason)));
      var r := AtPoint(s, id, e.deadline, Done(Refusal(reason)));
      hide Invariant;
      ViolationKeeps(o, r, reason);
      assert t == r.(violations := r.violations + [Blocked(reason)]);
    }
  }

  lemma OfAppend(fetches: seq<Fetch>, f: Fetch)
    ensures Of(fetches + [f], f.exchange) == Of(fetches, f.exchange) + [f]
    ensures forall q :: q != f.exchange ==> Of(fetches + [f], q) == Of(fetches, q)
  {
    assert (fetches + [f])[..|fetches|] == fetches;
  }

  lemma AttemptKeeps(o: Options, s: System, id: int, operation: ApiOperation, target: Url, redirected: bool,
      next: Point, thrown: Option<FailureClass>)
    requires RecordsOk(s) && OthersOk(o, s, id) && Live(s, id)
    requires NamedOperation(o, s.exchanges[id].entry) == Some(operation) && !s.exchanges[id].deadline.disposed
    requires var f := Fetch(id, target, redirected, s.exchanges[id].deadline.cause.Some?);
             FetchesOk(o, s.exchanges[id].entry, Of(s.fetches, id) + [f])
    requires s.exchanges[id].deadline.cause.None? ==>
               ExchangeOk(o, Exchange(s.exchanges[id].entry, s.exchanges[id].deadline, next), id,
                          Of(s.fetches, id) + [Fetch(id, target, redirected, false)], s.observations.Keys)
    ensures Invariant(o, Attempt(s, id, operation, target, redirected, next, thrown))
  {
    hide FetchesOk;
    var e := s.exchanges[id];
    var f := Fetch(id, target, redirected, e.deadline.cause.Some?);
    var t := s.(fetches := s.fetches + [f]);
    OfAppend(s.fetches, f);
    assert RecordsOk(t) && Live(t, id) && t.exchanges == s.exchanges;
    hide ExchangeOk;
    assert OthersOk(o, t, id);
    hide OthersOk;
    if thrown.Some? {
      FinishKeeps(o, t, id, operation, NetworkFailure(thrown.value));
    } else if e.deadline.cause.Some? {
      FinishKeeps(o, t, id, operation, NetworkFailure(e.deadline.cause.value));
    } else {
      PlaceKeeps(o, t, id, e.deadline, next);
    }
  }

  // ----- one step -----

  lemma BeginKeeps(o: Options, s: System, id: int, operation: ApiOperation, target: Url, caller: Caller,
      thrown: Option<FailureClass>)
    requires Invariant(o, s) && id in s.exchanges && s.exchanges[id].point.Waiting?
    requires Cleared(o, s.exchanges[id].entry, operation, target)
    ensures Invariant(o, Begin(o, s, id, operation, target, caller, thrown))
  {
    hide Cleared;
    hide NamedOperation;
    assert NamedOperation(o, s.exchanges[id].entry) == Some(operation) by { ClearedNames(o, s.exchanges[id].entry, operation, target); }
    var d := Created(caller);
    var t := AtPoint(s, id, d, Waiting);
    assert ExchangeOk(o, s.exchanges[id], id, Of(s.fetches, id), s.observations.Keys);
    WaitingKeepsRecords(s, id, d);
    hide RecordsOk;
    assert OthersOk(o, t, id) by { hide ExchangeOk; }
    if o.authenticates {
      if d.cause.Some? {
        FinishKeeps(o, t, id, operation, NetworkFailure(d.cause.value));
      } else {
        PlaceKeeps(o, t, id, d, Authorising(operation, target, Open));
        assert AtPoint(t, id, d, Authorising(operation, target, Open)).exchanges
               == t.exchanges[id := Exchange(t.exchanges[id].entry, d, Authorising(operation, target, Open))];
      }
    } else {
      AttemptKeeps(o, t, id, operation, target, false, Requesting(operation, target, Open), thrown);
    }
  }

  lemma ClearedNames(o: Options, entry: Entry, operation: ApiOperation, target: Url)
    requires Cleared(o, entry, operation, target)
    ensures NamedOperation(o, entry) == Some(operation)
  {
  }

  lemma WaitingKeepsRecords(s: System, id: int, d: Deadline)
    requires RecordsOk(s) && Live(s, id)
    ensures RecordsOk(AtPoint(s, id, d, Waiting))
  {
    var t := AtPoint(s, id, d, Waiting);
    forall name | name in t.observations ensures ObservationOk(t.exchanges, name, t.observations[name]) {
      assert ObservationOk(s.exchanges, name, s.observations[name]);
    }
  }

  lemma RelayedKeeps(o: Options, s: System, id: int, thrown: Option<FailureClass>)
    requires Invariant(o, s) && id in s.exchanges && s.exchanges[id].point.Waiting? && s.exchanges[id].entry.Relayed?
    ensures Invariant(o, HandleArrival(o, s, id, thrown))
  {
    hide Invariant;
    hide Begin;
    hide Reject;
    hide PolicyAllowsTarget;
    hide Admitted;
    var entry := s.exchanges[id].entry;
    RejectKeeps(o, s, id, UnsafeInboundHeader);
    RejectKeeps(o, s, id, OperationMismatch);
    RejectKeeps(o, s, id, UnknownOperation);
    RejectKeeps(o, s, id, MutationBlocked);
    RejectKeeps(o, s, id, UnknownDestination);
    RejectKeeps(o, s, id, ProductionDestination);
    RejectKeeps(o, s, id, SemanticAdmissionRefused);
    CrashKeeps(o, s, id);
    if entry.pathOperation.Some? && Find(o.catalog, entry.pathOperation.value).Some? {
      var operation := Find(o.catalog, entry.pathOperation.value).value;
      var target := Target(o, operation);
      if target.Some? && Cleared(o, entry, operation, target.value) {
        BeginKeeps(o, s, id, operation, target.value, NoCaller, thrown);
      }
    }
  }

  lemma CrashKeeps(o: Options, s: System, id: int)
    requires Invariant(o, s) && id in s.exchanges && s.exchanges[id].point.Waiting?
    ensures Invariant(o, AtPoint(s, id, s.exchanges[id].deadline, Crashed))
  {
    assert ExchangeOk(o, s.exchanges[id], id, Of(s.fetches, id), s.observations.Keys);
    PlaceKeeps(o, s, id, s.exchanges[id].deadline, Crashed);
  }

  lemma NativeKeeps(o: Options, s: System, id: int, thrown: Option<FailureClass>)
    requires Invariant(o, s) && id in s.exchanges && s.exchanges[id].point.Waiting? && s.exchanges[id].entry.Native?
    ensures Invariant(o, NativeArrival(o, s, id, thrown))
  {
    hide Invariant;
    hide Begin;
    var entry := s.exchanges[id].entry;
    var target := o.resolve(entry.operation);
    CrashKeeps(o, s, id);
    if entry.operation.semanticClass == KnownRead && target.Some?
       && PolicyAllowsTarget(o, target.value, entry.operation) && Admitted(o, target.value) {
      BeginKeeps(o, s, id, entry.operation, target.value, entry.caller, thrown);
    }
  }

  lemma FiredKeeps(o: Options, s: System, id: int, event: Event)
    requires Invariant(o, s) && id in s.exchanges
    ensures Invariant(o, Fired(s, id, event))
  {
    hide RecordsOk;
    hide Cleared;
    hide RedirectCleared;
    var e := s.exchanges[id];
    assert ExchangeOk(o, e, id, Of(s.fetches, id), s.observations.Keys);
    if !e.point.Waiting? && !e.point.Done? && !e.point.Crashed? && event != Disposes {
      var d := Happens(e.deadline, event);
      var point := if e.deadline.cause.None? && d.cause.Some? then Decide(e.point, Cut(d.cause.value)) else e.point;
      PlaceKeeps(o, s, id, d, point);
    }
  }

  lemma WorkKeeps(o: Options, s: System, id: int, work: Work)
    requires Invariant(o, s) && id in s.exchanges && WorkFits(s.exchanges[id].point, work)
    requires !s.exchanges[id].point.Done?
    ensures Invariant(o, AtPoint(s, id, s.exchanges[id].deadline, Decide(s.exchanges[id].point, Won(work))))
  {
    hide RecordsOk;
    hide Cleared;
    hide RedirectCleared;
    var e := s.exchanges[id];
    assert ExchangeOk(o, e, id, Of(s.fetches, id), s.observations.Keys);
    PlaceKeeps(o, s, id, e.deadline, Decide(e.point, Won(work)));
  }

  lemma FirstResponseKeeps(o: Options, s: System, id: int, operation: ApiOperation, target: Url, status: nat,
      location: Location, thrown: Option<FailureClass>)
    requires Invariant(o, s) && id in s.exchanges
    requires s.exchanges[id].point == Requesting(operation, target, Won(Response(status, location)))
    ensures Invariant(o, FirstResponse(o, s, id, operation, target, status, location, thrown))
  {
    hide RecordsOk;
    hide Cleared;
    hide Admitted;
    hide Finish;
    hide Attempt;
    hide NamedOperation;
    var e := s.exchanges[id];
    assert ExchangeOk(o, e, id, Of(s.fetches, id), s.observations.Keys);
    ClearedNames(o, e.entry, operation, target);
    assert FetchesOk(o, e.entry, [Fetch(id, target, false, false)]);
    if RedirectStatus(status) && location.Location? && RedirectCleared(o, target, location.url) {
      var redirected := Redirecting(operation, target, location.url, Open);
      assert Of(s.fetches, id) + [Fetch(id, location.url, true, e.deadline.cause.Some?)]
             == [Fetch(id, target, false, false), Fetch(id, location.url, true, e.deadline.cause.Some?)];
      AttemptKeeps(o, s, id, operation, location.url, true, redirected, thrown);
    } else {
      FinishKeeps(o, s, id, operation, Answered(status, if RedirectStatus(status) then RedirectBlocked else NoRedirect));
    }
  }

  lemma ContinuedKeeps(o: Options, s: System, id: int, thrown: Option<FailureClass>)
    requires Invariant(o, s) && id in s.exchanges
    ensures Invariant(o, Continued(o, s, id, thrown))
  {
    hide RecordsOk;
    hide Cleared;
    hide RedirectCleared;
    hide Finish;
    hide Attempt;
    hide FirstResponse;
    hide NamedOperation;
    var e := s.exchanges[id];
    var p := e.point;
    assert ExchangeOk(o, e, id, Of(s.fetches, id), s.observations.Keys);
    if p.Authorising? || p.Requesting? || p.Redirecting? {
      ClearedNames(o, e.entry, p.operation, p.target);
      assert FetchesOk(o, e.entry, Of(s.fetches, id));
      if p.race.Cut? {
        FinishKeeps(o, s, id, p.operation, NetworkFailure(p.race.cause));
      } else if p.race.Won? && p.race.work.WorkFailed? {
        FinishKeeps(o, s, id, p.operation, NetworkFailure(p.race.work.failure));
      } else if p.race.Won? && p.race.work.AuthReady? && p.Authorising? {
        AttemptKeeps(o, s, id, p.operation, p.target, false, Requesting(p.operation, p.target, Open), thrown);
      } else if p.race.Won? && p.race.work.Response? && p.Requesting? {
        FirstResponseKeeps(o, s, id, p.operation, p.target, p.race.work.status, p.race.work.location, thrown);
      } else if p.race.Won? && p.race.work.Response? && p.Redirecting? {
        var status := p.race.work.status;
        FinishKeeps(o, s, id, p.operation, Answered(status, if RedirectStatus(status) then RedirectBlocked else ApprovedSameOrigin));
      }
    }
  }

  lemma StepKeeps(o: Options, s: System, a: Action)
    requires Invariant(o, s)
    ensures Invariant(o, Step(o, s, a))
  {
    hide Invariant;
    hide HandleArrival;
    hide NativeArrival;
    hide Fired;
    hide Continued;
    hide Decide;
    if a.id in s.exchanges {
      match a
      case Arrive(id, thrown) =>
        if s.exchanges[id].point.Waiting? {
          if s.exchanges[id].entry.Relayed? { RelayedKeeps(o, s, id, thrown); } else { NativeKeeps(o, s, id, thrown); }
        }
      case Fire(id, event) => FiredKeeps(o, s, id, event);
      case WorkSettles(id, work) =>
        if WorkFits(s.exchanges[id].point, work) {
          if s.exchanges[id].point.Done? {
            DecideDone(s, id, work);
          } else {
            WorkKeeps(o, s, id, work);
          }
        }
      case Continue(id, thrown) => ContinuedKeeps(o, s, id, thrown);
    }
  }

  /** Work that settles after its exchange has ended changes nothing. */
  lemma DecideDone(s: System, id: int, work: Work)
    requires id in s.exchanges && s.exchanges[id].point.Done?
    ensures AtPoint(s, id, s.exchanges[id].deadline, Decide(s.exchanges[id].point, Won(work))) == s
  {
  }

  lemma InitialHolds(o: Options, entries: map<int, Entry>)
    ensures Invariant(o, Initial(entries))
  {
  }

  lemma {:induction false} RunKeeps(o: Options, entries: map<int, Entry>, actions: seq<Action>)
    ensures Invariant(o, Run(o, entries, actions))
  {
    hide Step;
    hide Invariant;
    if actions == [] {
      InitialHolds(o, entries);
    } else {
      RunKeeps(o, entries, actions[..|actions| - 1]);
      StepKeeps(o, Run(o, entries, actions[..|actions| - 1]), actions[|actions| - 1]);
    }
  }

  // ----- what one step leaves alone -----

  /** The first observation stands, violations only grow, and an exchange keeps its entry and its deadline's cause. */
  ghost predicate Grows(s: System, t: System) {
    && t.exchanges.Keys == s.exchanges.Keys
    && (forall operationId :: operationId in s.observations ==>
          operationId in t.observations && t.observations[operationId] == s.observations[operationId])
    && s.violations <= t.violations && s.fetches <= t.fetches
    && (forall i :: |s.fetches| <= i < |t.fetches| ==> t.fetches[i].exchange in t.exchanges)
    && forall id :: id in s.exchanges ==> ExchangeGrows(s.exchanges[id], t.exchanges[id])
  }

  predicate ExchangeGrows(e: Exchange, f: Exchange) {
    && f.entry == e.entry
    && (!e.point.Waiting? && e.deadline.cause.Some? ==> f.deadline.cause == e.deadline.cause)
    && (!e.point.Waiting? ==> !f.point.Waiting?)
    && (e.point.Done? ==> f == e)
  }

  lemma GrowsTrans(s: System, t: System, u: System)
    requires Grows(s, t) && Grows(t, u)
    ensures Grows(s, u)
  {
    hide ExchangeGrows;
    forall id | id in s.exchanges ensures ExchangeGrows(s.exchanges[id], u.exchanges[id]) {
      ExchangeGrowsTrans(s.exchanges[id], t.exchanges[id], u.exchanges[id]);
    }
  }

  lemma ExchangeGrowsTrans(e: Exchange, f: Exchange, g: Exchange)
    requires ExchangeGrows(e, f) && ExchangeGrows(f, g)
    ensures ExchangeGrows(e, g)
  {
  }

  lemma PointGrows(s: System, id: int, d: Deadline, point: Point)
    requires id in s.exchanges && ExchangeGrows(s.exchanges[id], Exchange(s.exchanges[id].entry, d, point))
    ensures Grows(s, AtPoint(s, id, d, point))
  {
  }

  lemma FinishGrows(s: System, id: int, operation: ApiOperation, ending: Ending)
    requires Live(s, id)
    ensures Grows(s, Finish(s, id, operation, ending))
  {
    var e := s.exchanges[id];
    var t := if e.entry.Relayed? then Recorded(s, operation.operationId, Observation(id, ending)) else s;
    assert Grows(s, t);
    PointGrows(t, id, Happens(e.deadline, Disposes), Done(ending));
    GrowsTrans(s, t, Finish(s, id, operation, ending));
  }

  lemma RecordedGrows(s: System, t: System, reason: Block)
    requires t == s || exists operationId, observation :: t == Recorded(s, operationId, observation)
    ensures Grows(s, t.(violations := t.violations + [Blocked(reason)]))
  {
  }

  lemma RejectGrows(o: Options, s: System, id: int, reason: Block)
    requires Live(s, id) && s.exchanges[id].entry.Relayed?
    ensures Grows(s, Reject(o, s, id, reason))
  {
    var e := s.exchanges[id];
    var known := e.entry.pathOperation.Some? && Find(o.catalog, e.entry.pathOperation.value).Some?;
    var t := if known then Recorded(s, e.entry.pathOperation.value, Observation(id, Refusal(reason))) else s;
    var u := t.(violations := t.violations + [Blocked(reason)]);
    assert Grows(s, u) by { RecordedGrows(s, t, reason); }
    hide Recorded;
    PointGrows(u, id, e.deadline, Done(Refusal(reason)));
    GrowsTrans(s, u, Reject(o, s, id, reason));
  }

  lemma AttemptGrows(s: System, id: int, operation: ApiOperation, target: Url, redirected: bool, next: Point,
      thrown: Option<FailureClass>)
    requires Live(s, id) && !next.Waiting? && !next.Done?
    ensures Grows(s, Attempt(s, id, operation, target, redirected, next, thrown))
  {
    var e := s.exchanges[id];
    var t := s.(fetches := s.fetches + [Fetch(id, target, redirected, e.deadline.cause.Some?)]);
    assert Grows(s, t);
    if thrown.Some? {
      FinishGrows(t, id, operation, NetworkFailure(thrown.value));
    } else if e.deadline.cause.Some? {
      FinishGrows(t, id, operation, NetworkFailure(e.deadline.cause.value));
    } else {
      PointGrows(t, id, e.deadline, next);
    }
    hide Grows;
    GrowsTrans(s, t, Attempt(s, id, operation, target, redirected, next, thrown));
  }

  lemma BeginGrows(o: Options, s: System, id: int, operation: ApiOperation, target: Url, caller: Caller,
      thrown: Option<FailureClass>)
    requires id in s.exchanges && s.exchanges[id].point.Waiting?
    ensures Grows(s, Begin(o, s, id, operation, target, caller, thrown))
  {
    var d := Created(caller);
    var t := AtPoint(s, id, d, Waiting);
    PointGrows(s, id, d, Waiting);
    if o.authenticates {
      if d.cause.Some? {
        FinishGrows(t, id, operation, NetworkFailure(d.cause.value));
      } else {
        PointGrows(t, id, d, Authorising(operation, target, Open));
      }
    } else {
      AttemptGrows(t, id, operation, target, false, Requesting(operation, target, Open), thrown);
    }
    hide Grows;
    GrowsTrans(s, t, Begin(o, s, id, operation, target, caller, thrown));
  }

  lemma GrowsSelf(s: System)
    ensures Grows(s, s)
  {
  }

  lemma CrashGrows(s: System, id: int)
    requires id in s.exchanges && s.exchanges[id].point.Waiting?
    ensures Grows(s, AtPoint(s, id, s.exchanges[id].deadline, Crashed))
  {
    PointGrows(s, id, s.exchanges[id].deadline, Crashed);
  }

  lemma KnownGrows(o: Options, s: System, id: int, operation: ApiOperation, thrown: Option<FailureClass>)
    requires id in s.exchanges && s.exchanges[id].point.Waiting? && s.exchanges[id].entry.Relayed?
    ensures Grows(s, HandleKnown(o, s, id, operation, thrown))
  {
    hide Grows;
    hide Begin;
    hide Reject;
    hide AtPoint;
    CrashGrows(s, id);
    RejectGrows(o, s, id, OperationMismatch);
    RejectGrows(o, s, id, UnknownOperation);
    RejectGrows(o, s, id, MutationBlocked);
    RejectGrows(o, s, id, UnknownDestination);
    RejectGrows(o, s, id, ProductionDestination);
    RejectGrows(o, s, id, SemanticAdmissionRefused);
    if Target(o, operation).Some? {
      BeginGrows(o, s, id, operation, Target(o, operation).value, NoCaller, thrown);
    }
  }

  lemma RelayedGrows(o: Options, s: System, id: int, thrown: Option<FailureClass>)
    requires id in s.exchanges && s.exchanges[id].point.Waiting? && s.exchanges[id].entry.Relayed?
    ensures Grows(s, HandleArrival(o, s, id, thrown))
  {
    hide Grows;
    hide HandleKnown;
    hide Reject;
    var entry := s.exchanges[id].entry;
    if !entry.plain || (entry.pathOperation == entry.headerOperation && entry.pathOperation.Some? && !entry.safeHeaders) {
      RejectGrows(o, s, id, UnsafeInboundHeader);
    }
    if entry.pathOperation.None? || entry.headerOperation != entry.pathOperation {
      RejectGrows(o, s, id, OperationMismatch);
    } else if Find(o.catalog, entry.pathOperation.value).None? {
      RejectGrows(o, s, id, UnknownOperation);
    } else {
      KnownGrows(o, s, id, Find(o.catalog, entry.pathOperation.value).value, thrown);
    }
  }

  lemma NativeGrows(o: Options, s: System, id: int, thrown: Option<FailureClass>)
    requires id in s.exchanges && s.exchanges[id].point.Waiting? && s.exchanges[id].entry.Native?
    ensures Grows(s, NativeArrival(o, s, id, thrown))
  {
    var entry := s.exchanges[id].entry;
    PointGrows(s, id, s.exchanges[id].deadline, Crashed);
    hide Grows;
    hide Begin;
    hide AtPoint;
    if o.resolve(entry.operation).Some? {
      BeginGrows(o, s, id, entry.operation, o.resolve(entry.operation).value, entry.caller, thrown);
    }
  }

  lemma FirstResponseGrows(o: Options, s: System, id: int, operation: ApiOperation, target: Url, status: nat,
      location: Location, thrown: Option<FailureClass>)
    requires Live(s, id)
    ensures Grows(s, FirstResponse(o, s, id, operation, target, status, location, thrown))
  {
    hide Grows;
    hide Finish;
    hide Attempt;
    FinishGrows(s, id, operation, Answered(status, NoRedirect));
    FinishGrows(s, id, operation, Answered(status, RedirectBlocked));
    if location.Location? {
      AttemptGrows(s, id, operation, location.url, true, Redirecting(operation, target, location.url, Open), thrown);
    }
  }

  lemma ContinuedGrows(o: Options, s: System, id: int, thrown: Option<FailureClass>)
    requires id in s.exchanges
    ensures Grows(s, Continued(o, s, id, thrown))
  {
    hide Grows;
    hide Finish;
    hide Attempt;
    hide FirstResponse;
    GrowsSelf(s);
    var p := s.exchanges[id].point;
    if p.Authorising? || p.Requesting? || p.Redirecting? {
      if p.race.Cut? {
        FinishGrows(s, id, p.operation, NetworkFailure(p.race.cause));
      } else if p.race.Won? && p.race.work.WorkFailed? {
        FinishGrows(s, id, p.operation, NetworkFailure(p.race.work.failure));
      } else if p.race.Won? && p.race.work.AuthReady? {
        AttemptGrows(s, id, p.operation, p.target, false, Requesting(p.operation, p.target, Open), thrown);
      } else if p.race.Won? && p.race.work.Response? {
        var status := p.race.work.status;
        FirstResponseGrows(o, s, id, p.operation, p.target, status, p.race.work.location, thrown);
        FinishGrows(s, id, p.operation, Answered(status, if RedirectStatus(status) then RedirectBlocked else ApprovedSameOrigin));
      }
    }
  }

  lemma StepGrows(o: Options, s: System, a: Action)
    ensures Grows(s, Step(o, s, a))
  {
    GrowsSelf(s);
    hide Grows;
    hide AtPoint;
    hide HandleArrival;
    hide NativeArrival;
    hide Continued;
    if a.id in s.exchanges {
      var e := s.exchanges[a.id];
      match a
      case Arrive(id, thrown) =>
        if e.point.Waiting? && e.entry.Relayed? { RelayedGrows(o, s, id, thrown); }
        if e.point.Waiting? && e.entry.Native? { NativeGrows(o, s, id, thrown); }
      case Fire(id, event) =>
        if !e.point.Waiting? && !e.point.Done? {
          var d := Happens(e.deadline, event);
          PointGrows(s, id, d, if e.deadline.cause.None? && d.cause.Some? then Decide(e.point, Cut(d.cause.value)) else e.point);
        }
      case WorkSettles(id, work) => PointGrows(s, id, e.deadline, Decide(e.point, Won(work)));
      case Continue(id, thrown) => ContinuedGrows(o, s, id, thrown);
    }
  }

  lemma {:induction false} RunGrows(o: Options, entries: map<int, Entry>, before: seq<Action>, after: seq<Action>)
    ensures Grows(Run(o, entries, before), Run(o, entries, before + after))
  {
    hide Step;
    if after == [] {
      assert before + after == before;
      assert forall id :: id in Run(o, entries, before).exchanges ==> ExchangeGrows(Run(o, entries, before).exchanges[id], Run(o, entries, before).exchanges[id]);
    } else {
      hide Grows;
      var all := before + after;
      assert all[..|all| - 1] == before + after[..|after| - 1];
      RunGrows(o, entries, before, after[..|after| - 1]);
      var middle := Run(o, entries, all[..|all| - 1]);
      StepGrows(o, middle, all[|all| - 1]);
      GrowsTrans(Run(o, entries, before), middle, Run(o, entries, all));
    }
  }

  // ----- the main results -----

  /**
    Under any interleaving the fetcher runs at most twice for an exchange: first on the target that
    resolution, policy and admission cleared for a known read of the catalogue, then at most on an
    admitted redirect of the same origin, and of the same path in dev mode.
   */
  lemma FetchesAreCleared(o: Options, entries: map<int, Entry>, actions: seq<Action>, id: int)
    requires id in Run(o, entries, actions).exchanges
    ensures var s := Run(o, entries, actions);
            FetchesOk(o, s.exchanges[id].entry, Of(s.fetches, id))
  {
    RunKeeps(o, entries, actions);
    hide Run;
    hide Cleared;
    hide RedirectCleared;
    hide NamedOperation;
    var s := Run(o, entries, actions);
    assert ExchangeOk(o, s.exchanges[id], id, Of(s.fetches, id), s.observations.Keys);
    if s.exchanges[id].point.Authorising? || s.exchanges[id].point.Requesting? || s.exchanges[id].point.Redirecting? {
      ClearedNames(o, s.exchanges[id].entry, s.exchanges[id].point.operation, s.exchanges[id].point.target);
    }
  }

  /** Every fetch belongs to an exchange of the system. */
  lemma FetchesBelong(o: Options, entries: map<int, Entry>, actions: seq<Action>)
    ensures var s := Run(o, entries, actions);
            forall i :: 0 <= i < |s.fetches| ==> s.fetches[i].exchange in s.exchanges
  {
    RunGrows(o, entries, [], actions);
    assert [] + actions == actions;
    assert Run(o, entries, []) == Initial(entries);
    hide Run;
  }

  /** A dev relay does not start without an admission authority, so every target it fetches was admitted. */
  lemma DevFetchesAreAdmitted(o: Options, entries: map<int, Entry>, actions: seq<Action>, i: nat)
    requires o.mode == DevMode && o.admission.Some?
    requires i < |Run(o, entries, actions).fetches|
    ensures o.admission.value(Run(o, entries, actions).fetches[i].target)
  {
    FetchesBelong(o, entries, actions);
    var s := Run(o, entries, actions);
    var f := s.fetches[i];
    FetchesAreCleared(o, entries, actions, f.exchange);
    InOf(s.fetches, i);
    hide Run;
    hide NamedOperation;
    var k :| 0 <= k < |Of(s.fetches, f.exchange)| && Of(s.fetches, f.exchange)[k] == f;
    assert k == 0 || k == 1;
  }

  /** A fetch made after its deadline had settled is never answered: the exchange has failed already. */
  lemma SettledFetchIsDiscarded(o: Options, entries: map<int, Entry>, actions: seq<Action>, i: nat)
    requires i < |Run(o, entries, actions).fetches| && Run(o, entries, actions).fetches[i].settled
    ensures var s := Run(o, entries, actions);
            && s.fetches[i].exchange in s.exchanges
            && var point := s.exchanges[s.fetches[i].exchange].point;
            && point.Done? && point.ending.NetworkFailure?
  {
    FetchesBelong(o, entries, actions);
    RunKeeps(o, entries, actions);
    hide Run;
    hide Cleared;
    hide RedirectCleared;
    hide NamedOperation;
    var s := Run(o, entries, actions);
    var id := s.fetches[i].exchange;
    assert ExchangeOk(o, s.exchanges[id], id, Of(s.fetches, id), s.observations.Keys);
    InOf(s.fetches, i);
    var k :| 0 <= k < |Of(s.fetches, id)| && Of(s.fetches, id)[k] == s.fetches[i];
  }

  lemma {:induction false} InOf(fetches: seq<Fetch>, i: nat)
    requires i < |fetches|
    ensures fetches[i] in Of(fetches, fetches[i].exchange)
  {
    if i < |fetches| - 1 { InOf(fetches[..|fetches| - 1], i); }
  }

  /** All stages of an exchange share one deadline: once it has a cause, no later event changes it. */
  lemma CauseIsSetOnce(o: Options, entries: map<int, Entry>, before: seq<Action>, after: seq<Action>, id: int)
    requires id in Run(o, entries, before).exchanges
    requires !Run(o, entries, before).exchanges[id].point.Waiting? && Run(o, entries, before).exchanges[id].deadline.cause.Some?
    ensures id in Run(o, entries, before + after).exchanges
    ensures Run(o, entries, before + after).exchanges[id].deadline.cause == Run(o, entries, before).exchanges[id].deadline.cause
  {
    RunGrows(o, entries, before, after);
    hide Run;
    assert ExchangeGrows(Run(o, entries, before).exchanges[id], Run(o, entries, before + after).exchanges[id]);
  }

  /** Whatever way an exchange ended, its timer and its listener are gone: its deadline never fires again. */
  lemma EndedDeadlinesAreSilent(o: Options, entries: map<int, Entry>, actions: seq<Action>, id: int, event: Event)
    requires id in Run(o, entries, actions).exchanges && Run(o, entries, actions).exchanges[id].point.Done?
    ensures Happens(Run(o, entries, actions).exchanges[id].deadline, event).cause == Run(o, entries, actions).exchanges[id].deadline.cause
  {
    RunKeeps(o, entries, actions);
    hide Run;
    var s := Run(o, entries, actions);
    assert ExchangeOk(o, s.exchanges[id], id, Of(s.fetches, id), s.observations.Keys);
  }

  /** Observations are written once: the first one for an operation is never replaced. */
  lemma FirstObservationStands(o: Options, entries: map<int, Entry>, before: seq<Action>, after: seq<Action>,
      operationId: string)
    requires operationId in Run(o, entries, before).observations
    ensures operationId in Run(o, entries, before + after).observations
    ensures Run(o, entries, before + after).observations[operationId] == Run(o, entries, before).observations[operationId]
  {
    RunGrows(o, entries, before, after);
  }

  /** A relayed exchange on this operation has ended. */
  predicate EndedOn(s: System, operationId: string) {
    exists id :: id in s.exchanges && s.exchanges[id].point.Done?
      && s.exchanges[id].entry.Relayed? && s.exchanges[id].entry.pathOperation == Some(operationId)
  }

  /**
    What `takeObservation` answers: for a catalogued operation nothing until an exchange on it has
    ended and something ever after, always how one exchange on it ended, and, however the run goes on,
    the same each time.
   */
  lemma TakenIsFirst(o: Options, entries: map<int, Entry>, before: seq<Action>, after: seq<Action>, operationId: string)
    ensures var (s, t) := (Run(o, entries, before), Run(o, entries, before + after));
            var taken := Taken(s.observations, operationId);
            && (Find(o.catalog, operationId).Some? ==> (taken.Some? <==> EndedOn(s, operationId)))
            && (taken.Some? ==> ObservationOk(s.exchanges, operationId, taken.value))
            && (taken.Some? ==> Taken(t.observations, operationId) == taken)
  {
    ObservationsAccountForEndings(o, entries, before);
    var s := Run(o, entries, before);
    if operationId in s.observations {
      FirstObservationStands(o, entries, before, after, operationId);
      assert ObservationOk(s.exchanges, operationId, s.observations[operationId]);
    }
    hide Run;
    if EndedOn(s, operationId) && Find(o.catalog, operationId).Some? {
      var id :| id in s.exchanges && s.exchanges[id].point.Done?
        && s.exchanges[id].entry.Relayed? && s.exchanges[id].entry.pathOperation == Some(operationId);
      assert Witnessed(o, s.exchanges[id].entry, s.observations.Keys);
    }
  }

  /**
    Every observation is the ending of one relayed exchange on that operation, every recording is
    either kept or reported as a violation, and every relayed exchange that has ended on a catalogued
    operation has left one.
   */
  lemma ObservationsAccountForEndings(o: Options, entries: map<int, Entry>, actions: seq<Action>)
    ensures var s := Run(o, entries, actions);
            && (forall operationId :: operationId in s.observations ==> ObservationOk(s.exchanges, operationId, s.observations[operationId]))
            && s.attempts == |s.observations| + Count(s.violations)
            && forall id :: id in s.exchanges && s.exchanges[id].point.Done? ==>
                 Witnessed(o, s.exchanges[id].entry, s.observations.Keys)
  {
    RunKeeps(o, entries, actions);
    hide Run;
    var s := Run(o, entries, actions);
    forall id | id in s.exchanges && s.exchanges[id].point.Done? ensures Witnessed(o, s.exchanges[id].entry, s.observations.Keys) {
      assert ExchangeOk(o, s.exchanges[id], id, Of(s.fetches, id), s.observations.Keys);
    }
  }

  /**
    A native run whose caller had aborted beforehand: without credentials to fetch, the fetcher is
    called all the same, since its call is evaluated before `withDeadline` looks; with credentials it
    is not. Either way the run fails as aborted.
   */
  lemma AbortedCallerStillFetches(o: Options, operation: ApiOperation, target: Url)
    requires o.resolve(operation) == Some(target) && operation.semanticClass == KnownRead
    requires PolicyAllowsTarget(o, target, operation) && Admitted(o, target)
    ensures var s := Run(o, map[0 := Native(operation, AlreadyAborted)], [Arrive(0, None)]);
            && 0 in s.exchanges && s.exchanges[0].point == Done(NetworkFailure(AbortedByCaller))
            && s.fetches == if o.authenticates then [] else [Fetch(0, target, false, true)]
  {
    var entries := map[0 := Native(operation, AlreadyAborted)];
    assert [Arrive(0, None)][..0] == [];
    assert Run(o, entries, []) == Initial(entries);
    assert Run(o, entries, [Arrive(0, None)]) == Step(o, Initial(entries), Arrive(0, None));
    hide Run;
    hide HandleArrival;
  }
}
