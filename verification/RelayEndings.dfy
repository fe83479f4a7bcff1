/**
  How the exchanges of the relay end, and why: every ending and every fetch of a run is explained by
  the action that made it, and every settled race leads to the ending that belongs to it.
 */
module RelayEndings {
  import opened Wrappers
  import opened RelayDeadline
  import opened Relay
  import opened RelaySafety

  predicate InStage(p: Point) {
    p.Authorising? || p.Requesting? || p.Redirecting?
  }

  // ----- refusals -----

  /** The request itself is in order, and its path and its header name the same operation. */
  predicate InOrder(entry: Entry) {
    && entry.Relayed? && entry.plain && entry.safeHeaders
    && entry.pathOperation.Some? && entry.headerOperation == entry.pathOperation
  }

  predicate Names(o: Options, entry: Entry, operation: ApiOperation) {
    InOrder(entry) && Find(o.catalog, entry.pathOperation.value) == Some(operation)
  }

  predicate Offered(o: Options, entry: Entry, operation: ApiOperation) {
    Names(o, entry, operation) && operation.semanticClass == KnownRead && operation.eligible
  }

  predicate OnLoopbackName(url: Url) {
    url.hostname == "127.0.0.1" || url.hostname == "localhost"
  }

  /** Each refusal with its exact condition. */
  ghost predicate RefusedFor(o: Options, entry: Entry, reason: Block) {
    match reason
    case UnsafeInboundHeader =>
      entry.Relayed? && (!entry.plain || (!entry.safeHeaders && entry.pathOperation.Some? && entry.headerOperation == entry.pathOperation))
    case OperationMismatch =>
      || (entry.Relayed? && entry.plain && (entry.pathOperation.None? || entry.headerOperation != entry.pathOperation))
      || (exists operation :: Names(o, entry, operation) && operation.semanticClass == KnownRead && !operation.eligible)
    case UnknownOperation =>
      || (InOrder(entry) && Find(o.catalog, entry.pathOperation.value).None?)
      || (exists operation :: Names(o, entry, operation) && operation.semanticClass == UnknownSemantics)
    case MutationBlocked => exists operation :: Names(o, entry, operation) && operation.semanticClass == KnownMutation
    case UnknownDestination =>
      || (exists operation :: Offered(o, entry, operation) && Target(o, operation).None? && o.mode == DevMode)
      || (exists operation, target :: Aims(o, entry, operation, target) && !PolicyAllowsTarget(o, target, operation) && OnLoopbackName(target))
    case ProductionDestination =>
      exists operation, target :: Aims(o, entry, operation, target) && !PolicyAllowsTarget(o, target, operation) && !OnLoopbackName(target)
    case SemanticAdmissionRefused =>
      exists operation, target :: Aims(o, entry, operation, target) && PolicyAllowsTarget(o, target, operation)
        && o.admission.Some? && !o.admission.value(target)
  }

  predicate Aims(o: Options, entry: Entry, operation: ApiOperation, target: Url) {
    Offered(o, entry, operation) && Target(o, operation) == Some(target)
  }

  /** The catalogue lookup finds the first operation with the id, and fails iff there is none. */
  lemma {:induction false} FindExactly(catalog: seq<ApiOperation>, operationId: string)
    ensures Find(catalog, operationId).None? <==> forall i :: 0 <= i < |catalog| ==> catalog[i].operationId != operationId
    ensures Find(catalog, operationId).Some? ==>
              exists i :: 0 <= i < |catalog| && catalog[i] == Find(catalog, operationId).value && catalog[i].operationId == operationId
                          && forall j :: 0 <= j < i ==> catalog[j].operationId != operationId
  {
    if catalog != [] {
      FindExactly(catalog[1..], operationId);
      assert forall i :: 1 <= i < |catalog| ==> catalog[i] == catalog[1..][i - 1];
      if catalog[0].operationId == operationId {
        assert catalog[0] == Find(catalog, operationId).value;
      } else if Find(catalog, operationId).Some? {
        var i :| 0 <= i < |catalog[1..]| && catalog[1..][i] == Find(catalog, operationId).value && catalog[1..][i].operationId == operationId
                 && forall j :: 0 <= j < i ==> catalog[1..][j].operationId != operationId;
        assert catalog[i + 1] == catalog[1..][i];
        assert forall j :: 1 <= j < i + 1 ==> catalog[j] == catalog[1..][j - 1];
      }
    }
  }

  lemma RejectEffect(o: Options, s: System, id: int, reason: Block)
    requires id in s.exchanges && s.exchanges[id].entry.Relayed?
    ensures var t := Reject(o, s, id, reason);
            && id in t.exchanges && t.exchanges[id].point == Done(Refusal(reason)) && t.fetches == s.fetches
            && t.violations != [] && t.violations[|t.violations| - 1] == Blocked(reason)
  {
  }

  lemma UnsafeRejects(o: Options, s: System, id: int, thrown: Option<FailureClass>, reason: Block)
    requires id in s.exchanges && s.exchanges[id].entry.Relayed? && !InOrder(s.exchanges[id].entry)
    ensures RefusedFor(o, s.exchanges[id].entry, reason) ==> HandleArrival(o, s, id, thrown) == Reject(o, s, id, reason)
    ensures RefusedFor(o, s.exchanges[id].entry, UnsafeInboundHeader) || RefusedFor(o, s.exchanges[id].entry, OperationMismatch)
  {
    hide Reject;
    hide HandleKnown;
  }

  lemma KnownRejects(o: Options, s: System, id: int, operation: ApiOperation, thrown: Option<FailureClass>, reason: Block)
    requires id in s.exchanges && Names(o, s.exchanges[id].entry, operation)
    ensures RefusedFor(o, s.exchanges[id].entry, reason) ==> HandleKnown(o, s, id, operation, thrown) == Reject(o, s, id, reason)
  {
    hide Reject;
    hide Begin;
    hide Find;
    hide PolicyAllowsTarget;
  }

  /** What becomes of a relayed request that is not refused. */
  ghost predicate Proceeds(o: Options, s: System, id: int, thrown: Option<FailureClass>, t: System)
    requires id in s.exchanges
  {
    || (o.mode == LocalMode && t == AtPoint(s, id, s.exchanges[id].deadline, Crashed))
    || (exists operation, target :: BeginsOn(o, s, id, operation, target, thrown, t))
  }

  /** The target of a readable operation is allowed and admitted, and the exchange begins on it. */
  ghost predicate BeginsOn(o: Options, s: System, id: int, operation: ApiOperation, target: Url, thrown: Option<FailureClass>, t: System)
    requires id in s.exchanges
  {
    && Aims(o, s.exchanges[id].entry, operation, target) && PolicyAllowsTarget(o, target, operation) && Admitted(o, target)
    && t == Begin(o, s, id, operation, target, NoCaller, thrown)
  }

  lemma KnownProceeds(o: Options, s: System, id: int, operation: ApiOperation, thrown: Option<FailureClass>)
    requires id in s.exchanges && Names(o, s.exchanges[id].entry, operation)
    ensures Proceeds(o, s, id, thrown, HandleKnown(o, s, id, operation, thrown))
            || exists reason :: RefusedFor(o, s.exchanges[id].entry, reason)
  {
    hide Reject;
    hide Begin;
    hide Find;
    hide PolicyAllowsTarget;
    var entry := s.exchanges[id].entry;
    if operation.semanticClass == KnownMutation {
      assert RefusedFor(o, entry, MutationBlocked);
    } else if operation.semanticClass == UnknownSemantics {
      assert RefusedFor(o, entry, UnknownOperation);
    } else if !operation.eligible {
      assert RefusedFor(o, entry, OperationMismatch);
    } else if Target(o, operation).None? {
      assert o.mode == DevMode ==> RefusedFor(o, entry, UnknownDestination);
    } else {
      var target := Target(o, operation).value;
      assert Aims(o, entry, operation, target);
      if !PolicyAllowsTarget(o, target, operation) {
        assert RefusedFor(o, entry, UnknownDestination) || RefusedFor(o, entry, ProductionDestination);
      } else if !Admitted(o, target) {
        assert RefusedFor(o, entry, SemanticAdmissionRefused);
      } else {
        assert BeginsOn(o, s, id, operation, target, thrown, HandleKnown(o, s, id, operation, thrown));
      }
    }
  }

  lemma BeginsUnrefused(o: Options, s: System, id: int, operation: ApiOperation, target: Url, caller: Caller, thrown: Option<FailureClass>)
    requires id in s.exchanges
    ensures id in Begin(o, s, id, operation, target, caller, thrown).exchanges
    ensures var p := Begin(o, s, id, operation, target, caller, thrown).exchanges[id].point; !(p.Done? && p.ending.Refusal?)
  {
    hide Recorded;
  }

  lemma ProceedsUnrefused(o: Options, s: System, id: int, thrown: Option<FailureClass>, t: System)
    requires id in s.exchanges && Proceeds(o, s, id, thrown, t)
    ensures id in t.exchanges && !(t.exchanges[id].point.Done? && t.exchanges[id].point.ending.Refusal?)
  {
    hide Begin;
    hide Aims;
    hide PolicyAllowsTarget;
    if exists operation, target :: BeginsOn(o, s, id, operation, target, thrown, t) {
      var operation, target :| BeginsOn(o, s, id, operation, target, thrown, t);
      BeginsUnrefused(o, s, id, operation, target, NoCaller, thrown);
    }
  }

  /** How the arrival of a relayed request goes: rejected for the one reason that applies, or it proceeds. */
  lemma ArrivalCases(o: Options, s: System, id: int, thrown: Option<FailureClass>)
    requires id in s.exchanges && s.exchanges[id].entry.Relayed?
    ensures forall reason :: RefusedFor(o, s.exchanges[id].entry, reason) ==> HandleArrival(o, s, id, thrown) == Reject(o, s, id, reason)
    ensures Proceeds(o, s, id, thrown, HandleArrival(o, s, id, thrown)) || exists reason :: RefusedFor(o, s.exchanges[id].entry, reason)
  {
    hide Reject;
    hide HandleKnown;
    hide Proceeds;
    var entry := s.exchanges[id].entry;
    forall reason ensures RefusedFor(o, entry, reason) ==> HandleArrival(o, s, id, thrown) == Reject(o, s, id, reason) {
      if !InOrder(entry) {
        UnsafeRejects(o, s, id, thrown, reason);
      } else if Find(o.catalog, entry.pathOperation.value).Some? {
        KnownRejects(o, s, id, Find(o.catalog, entry.pathOperation.value).value, thrown, reason);
      } else {
        UncataloguedRejects(o, s, id, thrown, reason);
      }
    }
    hide RefusedFor;
    if !InOrder(entry) {
      UnsafeRejects(o, s, id, thrown, OperationMismatch);
    } else if Find(o.catalog, entry.pathOperation.value).Some? {
      KnownProceeds(o, s, id, Find(o.catalog, entry.pathOperation.value).value, thrown);
    } else {
      UncataloguedRejects(o, s, id, thrown, UnknownOperation);
    }
  }

  lemma UncataloguedRejects(o: Options, s: System, id: int, thrown: Option<FailureClass>, reason: Block)
    requires id in s.exchanges && InOrder(s.exchanges[id].entry) && Find(o.catalog, s.exchanges[id].entry.pathOperation.value).None?
    ensures RefusedFor(o, s.exchanges[id].entry, reason) ==> HandleArrival(o, s, id, thrown) == Reject(o, s, id, reason)
    ensures RefusedFor(o, s.exchanges[id].entry, UnknownOperation)
  {
    hide Reject;
    hide HandleKnown;
    hide Find;
  }

  /** A relayed request ends refused on arrival for a reason iff that reason applies; then nothing is fetched. */
  lemma RefusedExactly(o: Options, s: System, id: int, thrown: Option<FailureClass>, reason: Block)
    requires id in s.exchanges && s.exchanges[id].point.Waiting? && s.exchanges[id].entry.Relayed?
    ensures var t := Step(o, s, Arrive(id, thrown));
            && id in t.exchanges
            && (RefusedFor(o, s.exchanges[id].entry, reason) <==> t.exchanges[id].point == Done(Refusal(reason)))
            && (RefusedFor(o, s.exchanges[id].entry, reason) ==>
                  t.fetches == s.fetches && t.violations != [] && t.violations[|t.violations| - 1] == Blocked(reason))
  {
    ArrivalCases(o, s, id, thrown);
    hide HandleArrival;
    hide Proceeds;
    hide RefusedFor;
    hide Reject;
    var entry, t := s.exchanges[id].entry, HandleArrival(o, s, id, thrown);
    if RefusedFor(o, entry, reason) {
      RejectEffect(o, s, id, reason);
    } else if r :| RefusedFor(o, entry, r) {
      RejectEffect(o, s, id, r);
    } else {
      ProceedsUnrefused(o, s, id, thrown, t);
    }
  }

  // ----- one fetch, one race -----

  /** A redirect that may be followed from a target. */
  predicate Follows(o: Options, target: Url, location: Location) {
    && location.Location?
    && location.url.protocol == target.protocol && location.url.hostname == target.hostname && location.url.port == target.port
    && (o.mode == DevMode ==> location.url.path == target.path)
    && (o.admission.Some? ==> o.admission.value(location.url))
  }

  predicate Redirects(status: nat) {
    300 <= status <= 399
  }

  /**
    The fetcher is called once, on this target: a throw of its own fails the exchange, then a deadline
    that had settled, and otherwise the exchange waits for the response.
   */
  predicate Fetches(s: System, t: System, id: int, deadline: Deadline, target: Url, redirected: bool, thrown: Option<FailureClass>, next: Point) {
    && t.fetches == s.fetches + [Fetch(id, target, redirected, deadline.cause.Some?)]
    && id in t.exchanges
    && t.exchanges[id].point ==
         if thrown.Some? then Done(NetworkFailure(thrown.value))
         else if deadline.cause.Some? then Done(NetworkFailure(deadline.cause.value))
         else next
  }

  lemma AttemptFetches(s: System, id: int, operation: ApiOperation, target: Url, redirected: bool, next: Point, thrown: Option<FailureClass>)
    requires id in s.exchanges
    ensures Fetches(s, Attempt(s, id, operation, target, redirected, next, thrown), id, s.exchanges[id].deadline, target, redirected, thrown, next)
  {
    var e := s.exchanges[id];
    var t := s.(fetches := s.fetches + [Fetch(id, target, redirected, e.deadline.cause.Some?)]);
    if thrown.Some? {
      FinishEnds(t, id, operation, NetworkFailure(thrown.value));
    } else if e.deadline.cause.Some? {
      FinishEnds(t, id, operation, NetworkFailure(e.deadline.cause.value));
    }
    hide Finish;
  }

  lemma FinishEnds(s: System, id: int, operation: ApiOperation, ending: Ending)
    requires id in s.exchanges
    ensures EndsAt(s, Finish(s, id, operation, ending), id, ending)
  {
  }

  predicate EndsAt(s: System, t: System, id: int, ending: Ending) {
    id in t.exchanges && t.exchanges[id].point == Done(ending) && t.fetches == s.fetches
  }

  /**
    Where an exchange goes once its race is decided, for every stage and every way to win or lose it. The
    status that is reported is the one of the response that won.
   */
  ghost predicate Goes(o: Options, s: System, t: System, id: int, thrown: Option<FailureClass>)
    requires id in s.exchanges && InStage(s.exchanges[id].point)
  {
    var (p, d) := (s.exchanges[id].point, s.exchanges[id].deadline);
    match p.race
    case Open => t == s
    case Cut(cause) => EndsAt(s, t, id, NetworkFailure(cause))
    case Won(WorkFailed(failure)) => EndsAt(s, t, id, NetworkFailure(failure))
    case Won(AuthReady) =>
      if p.Authorising? then Fetches(s, t, id, d, p.target, false, thrown, Requesting(p.operation, p.target, Open)) else t == s
    case Won(Response(status, location)) =>
      if p.Authorising? then t == s
      else if !Redirects(status) then EndsAt(s, t, id, Answered(status, if p.Requesting? then NoRedirect else ApprovedSameOrigin))
      else if p.Requesting? && Follows(o, p.target, location) then
        Fetches(s, t, id, d, location.url, true, thrown, Redirecting(p.operation, p.target, location.url, Open))
      else EndsAt(s, t, id, Answered(status, RedirectBlocked))
  }

  lemma ContinueExactly(o: Options, s: System, id: int, thrown: Option<FailureClass>)
    requires id in s.exchanges && InStage(s.exchanges[id].point)
    ensures Goes(o, s, Step(o, s, Continue(id, thrown)), id, thrown)
  {
    var p := s.exchanges[id].point;
    hide Finish;
    hide Attempt;
    forall ending ensures EndsAt(s, Finish(s, id, p.operation, ending), id, ending) {
      FinishEnds(s, id, p.operation, ending);
    }
    if p.race.Won? && p.race.work.AuthReady? && p.Authorising? {
      AttemptFetches(s, id, p.operation, p.target, false, Requesting(p.operation, p.target, Open), thrown);
    }
    if p.race.Won? && p.race.work.Response? && p.race.work.location.Location? && p.Requesting? {
      var url := p.race.work.location.url;
      AttemptFetches(s, id, p.operation, url, true, Redirecting(p.operation, p.target, url, Open), thrown);
    }
    hide EndsAt;
    hide Fetches;
  }

  /** The exchange may begin: on this operation and target, with this caller. */
  ghost predicate MayBegin(o: Options, entry: Entry, operation: ApiOperation, target: Url, caller: Caller) {
    && PolicyAllowsTarget(o, target, operation) && (o.admission.Some? ==> o.admission.value(target))
    && match entry
       case Relayed(_, _, _, _) => Aims(o, entry, operation, target) && caller == NoCaller
       case Native(named, signal) =>
         operation == named && operation.semanticClass == KnownRead && o.resolve(operation) == Some(target) && caller == signal
  }

  /** Credentials come first where there are any to get; otherwise the first request is made at once. */
  predicate Begins(o: Options, s: System, t: System, id: int, operation: ApiOperation, target: Url, caller: Caller, thrown: Option<FailureClass>) {
    if !o.authenticates then Fetches(s, t, id, Created(caller), target, false, thrown, Requesting(operation, target, Open))
    else if caller == AlreadyAborted then EndsAt(s, t, id, NetworkFailure(AbortedByCaller))
    else id in t.exchanges && t.fetches == s.fetches && t.exchanges[id].point == Authorising(operation, target, Open)
  }

  lemma BeginExactly(o: Options, s: System, id: int, operation: ApiOperation, target: Url, caller: Caller, thrown: Option<FailureClass>)
    requires id in s.exchanges
    ensures Begins(o, s, Begin(o, s, id, operation, target, caller, thrown), id, operation, target, caller, thrown)
  {
    var t := AtPoint(s, id, Created(caller), Waiting);
    hide Finish;
    hide Attempt;
    FinishEnds(t, id, operation, NetworkFailure(AbortedByCaller));
    AttemptFetches(t, id, operation, target, false, Requesting(operation, target, Open), thrown);
  }

  /** How an exchange arrives: refused, crashed before there is a deadline, or begun. */
  ghost predicate Arrives(o: Options, s: System, t: System, id: int, thrown: Option<FailureClass>)
    requires id in s.exchanges
  {
    || (exists reason :: RefusedFor(o, s.exchanges[id].entry, reason) && EndsAt(s, t, id, Refusal(reason)))
    || (id in t.exchanges && t.exchanges[id].point.Crashed? && t.fetches == s.fetches)
    || (exists operation, target, caller ::
          MayBegin(o, s.exchanges[id].entry, operation, target, caller) && Begins(o, s, t, id, operation, target, caller, thrown))
  }

  lemma ArriveExactly(o: Options, s: System, id: int, thrown: Option<FailureClass>)
    requires id in s.exchanges && s.exchanges[id].point.Waiting?
    ensures Arrives(o, s, Step(o, s, Arrive(id, thrown)), id, thrown)
  {
    hide HandleArrival;
    hide NativeArrival;
    if s.exchanges[id].entry.Relayed? { RelayedArrives(o, s, id, thrown); } else { NativeArrives(o, s, id, thrown); }
    hide Arrives;
  }

  lemma RelayedArrives(o: Options, s: System, id: int, thrown: Option<FailureClass>)
    requires id in s.exchanges && s.exchanges[id].entry.Relayed?
    ensures Arrives(o, s, HandleArrival(o, s, id, thrown), id, thrown)
  {
    ArrivalCases(o, s, id, thrown);
    var t := HandleArrival(o, s, id, thrown);
    hide HandleArrival;
    hide RefusedFor;
    hide Begin;
    if reason :| RefusedFor(o, s.exchanges[id].entry, reason) {
      RejectEffect(o, s, id, reason);
      assert EndsAt(s, t, id, Refusal(reason));
    } else if exists operation, target :: BeginsOn(o, s, id, operation, target, thrown, t) {
      var operation, target :| BeginsOn(o, s, id, operation, target, thrown, t);
      BeginExactly(o, s, id, operation, target, NoCaller, thrown);
      hide Begins;
      assert MayBegin(o, s.exchanges[id].entry, operation, target, NoCaller);
    }
  }

  lemma NativeArrives(o: Options, s: System, id: int, thrown: Option<FailureClass>)
    requires id in s.exchanges && s.exchanges[id].entry.Native?
    ensures Arrives(o, s, NativeArrival(o, s, id, thrown), id, thrown)
    ensures var entry := s.exchanges[id].entry;
            NativeArrival(o, s, id, thrown).exchanges[id].point.Crashed? <==>
              !(exists target :: MayBegin(o, entry, entry.operation, target, entry.caller))
  {
    hide Begin;
    hide Begins;
    var entry := s.exchanges[id].entry;
    var target := o.resolve(entry.operation);
    if target.Some? && MayBegin(o, entry, entry.operation, target.value, entry.caller) {
      BeginExactly(o, s, id, entry.operation, target.value, entry.caller, thrown);
      BeginsUncrashed(o, s, NativeArrival(o, s, id, thrown), id, entry.operation, target.value, entry.caller, thrown);
    }
  }

  lemma BeginsUncrashed(o: Options, s: System, t: System, id: int, operation: ApiOperation, target: Url, caller: Caller, thrown: Option<FailureClass>)
    requires Begins(o, s, t, id, operation, target, caller, thrown)
    ensures id in t.exchanges && !t.exchanges[id].point.Crashed?
  {
  }

  // ----- every ending of a run -----

  /** The exchange is about to call the fetcher when it continues. */
  predicate FetchesNext(o: Options, p: Point) {
    || (p.Authorising? && p.race == Won(AuthReady))
    || (p.Requesting? && p.race.Won? && p.race.work.Response? && Redirects(p.race.work.status) && Follows(o, p.target, p.race.work.location))
  }

  /** What an action finds when it ends an exchange in this way. */
  ghost predicate Ends(o: Options, s: System, a: Action, id: int, ending: Ending) {
    && a.id == id && id in s.exchanges
    && var (p, d, entry) := (s.exchanges[id].point, s.exchanges[id].deadline, s.exchanges[id].entry);
    match ending
    case Refusal(reason) => a.Arrive? && p.Waiting? && RefusedFor(o, entry, reason)
    case Answered(status, redirect) =>
      && a.Continue? && (p.Requesting? || p.Redirecting?)
      && p.race.Won? && p.race.work.Response? && p.race.work.status == status
      && (redirect == NoRedirect ==> p.Requesting? && !Redirects(status))
      && (redirect == ApprovedSameOrigin ==> p.Redirecting? && !Redirects(status))
      && (redirect == RedirectBlocked ==> Redirects(status) && (p.Requesting? ==> !Follows(o, p.target, p.race.work.location)))
    case NetworkFailure(failure) =>
      || (a.Continue? && InStage(p) && (p.race == Cut(failure) || p.race == Won(WorkFailed(failure))))
      || (a.Continue? && FetchesNext(o, p) && (a.thrown == Some(failure) || (a.thrown.None? && d.cause == Some(failure))))
      || (a.Arrive? && p.Waiting? && FailsAtOnce(o, entry, a.thrown, failure))
  }

  /** The first fetch throws, or the caller had aborted before anything began. */
  ghost predicate FailsAtOnce(o: Options, entry: Entry, thrown: Option<FailureClass>, failure: FailureClass) {
    exists operation, target, caller :: MayBegin(o, entry, operation, target, caller)
      && ((!o.authenticates && thrown == Some(failure))
          || (caller == AlreadyAborted && failure == AbortedByCaller && (o.authenticates || thrown.None?)))
  }

  lemma ContinueEnds(o: Options, s: System, id: int, thrown: Option<FailureClass>, ending: Ending)
    requires id in s.exchanges && !s.exchanges[id].point.Done?
    requires Step(o, s, Continue(id, thrown)).exchanges[id].point == Done(ending)
    ensures InStage(s.exchanges[id].point) && Ends(o, s, Continue(id, thrown), id, ending)
  {
    if InStage(s.exchanges[id].point) {
      ContinueExactly(o, s, id, thrown);
      hide Step;
    }
  }

  lemma ArriveEnds(o: Options, s: System, id: int, thrown: Option<FailureClass>, ending: Ending)
    requires id in s.exchanges && s.exchanges[id].point.Waiting?
    requires Step(o, s, Arrive(id, thrown)).exchanges[id].point == Done(ending)
    ensures Ends(o, s, Arrive(id, thrown), id, ending)
  {
    ArriveExactly(o, s, id, thrown);
    hide Step;
    hide RefusedFor;
    hide MayBegin;
    var t := Step(o, s, Arrive(id, thrown));
    if operation, target, caller :|
          MayBegin(o, s.exchanges[id].entry, operation, target, caller) && Begins(o, s, t, id, operation, target, caller, thrown) {
      if !(exists reason :: RefusedFor(o, s.exchanges[id].entry, reason) && EndsAt(s, t, id, Refusal(reason))) {
        assert FailsAtOnce(o, s.exchanges[id].entry, thrown, ending.failure);
      }
    }
  }

  lemma StepEnds(o: Options, s: System, a: Action, id: int, ending: Ending)
    requires id in s.exchanges && !s.exchanges[id].point.Done?
    requires id in Step(o, s, a).exchanges && Step(o, s, a).exchanges[id].point == Done(ending)
    ensures Ends(o, s, a, id, ending)
  {
    if a.id == id && a.Continue? {
      ContinueEnds(o, s, id, a.thrown, ending);
      hide Ends;
    } else if a.id == id && a.Arrive? && s.exchanges[id].point.Waiting? {
      ArriveEnds(o, s, id, a.thrown, ending);
      hide Ends;
    } else {
      OtherStep(o, s, a, id);
    }
  }

  /** Only this exchange is touched. */
  predicate Touches(s: System, t: System, id: int) {
    id in t.exchanges && t.exchanges == s.exchanges[id := t.exchanges[id]]
  }

  lemma FinishTouches(s: System, id: int, operation: ApiOperation, ending: Ending)
    requires id in s.exchanges
    ensures Touches(s, Finish(s, id, operation, ending), id)
  {
  }

  lemma AttemptTouches(s: System, id: int, operation: ApiOperation, target: Url, redirected: bool, next: Point, thrown: Option<FailureClass>)
    requires id in s.exchanges
    ensures Touches(s, Attempt(s, id, operation, target, redirected, next, thrown), id)
  {
    var t := s.(fetches := s.fetches + [Fetch(id, target, redirected, s.exchanges[id].deadline.cause.Some?)]);
    if thrown.Some? { FinishTouches(t, id, operation, NetworkFailure(thrown.value)); }
    if s.exchanges[id].deadline.cause.Some? { FinishTouches(t, id, operation, NetworkFailure(s.exchanges[id].deadline.cause.value)); }
    hide Finish;
  }

  lemma BeginTouches(o: Options, s: System, id: int, operation: ApiOperation, target: Url, caller: Caller, thrown: Option<FailureClass>)
    requires id in s.exchanges
    ensures Touches(s, Begin(o, s, id, operation, target, caller, thrown), id)
  {
    var t := AtPoint(s, id, Created(caller), Waiting);
    hide Finish;
    hide Attempt;
    FinishTouches(t, id, operation, NetworkFailure(AbortedByCaller));
    AttemptTouches(t, id, operation, target, false, Requesting(operation, target, Open), thrown);
  }

  lemma RejectTouches(o: Options, s: System, id: int, reason: Block)
    requires id in s.exchanges && s.exchanges[id].entry.Relayed?
    ensures Touches(s, Reject(o, s, id, reason), id)
  {
  }

  lemma ArrivalTouches(o: Options, s: System, id: int, thrown: Option<FailureClass>)
    requires id in s.exchanges && s.exchanges[id].point.Waiting?
    ensures Touches(s, Step(o, s, Arrive(id, thrown)), id)
  {
    hide Begin;
    hide Reject;
    hide Find;
    hide PolicyAllowsTarget;
    forall operation, target, caller ensures Touches(s, Begin(o, s, id, operation, target, caller, thrown), id) {
      BeginTouches(o, s, id, operation, target, caller, thrown);
    }
    if s.exchanges[id].entry.Relayed? {
      forall reason ensures Touches(s, Reject(o, s, id, reason), id) {
        RejectTouches(o, s, id, reason);
      }
    }
  }

  lemma ContinueTouches(o: Options, s: System, id: int, thrown: Option<FailureClass>)
    requires id in s.exchanges
    ensures Touches(s, Step(o, s, Continue(id, thrown)), id)
  {
    hide Finish;
    hide Attempt;
    forall operation, ending ensures Touches(s, Finish(s, id, operation, ending), id) {
      FinishTouches(s, id, operation, ending);
    }
    forall operation, target, redirected, next ensures Touches(s, Attempt(s, id, operation, target, redirected, next, thrown), id) {
      AttemptTouches(s, id, operation, target, redirected, next, thrown);
    }
  }

  lemma StepTouches(o: Options, s: System, a: Action)
    requires a.id in s.exchanges
    ensures Touches(s, Step(o, s, a), a.id)
  {
    match a
    case Arrive(id, thrown) => if s.exchanges[id].point.Waiting? { ArrivalTouches(o, s, id, thrown); }
    case Fire(_, _) =>
    case WorkSettles(_, _) =>
    case Continue(id, thrown) => ContinueTouches(o, s, id, thrown);
    hide HandleArrival;
    hide NativeArrival;
    hide Continued;
  }

  /** Only an exchange's own arrivals and continuations change its stage; the other actions may settle its race. */
  lemma OtherStep(o: Options, s: System, a: Action, id: int)
    requires id in s.exchanges
    requires a.id != id || a.Fire? || a.WorkSettles? || (a.Arrive? && !s.exchanges[id].point.Waiting?)
    ensures id in Step(o, s, a).exchanges && Step(o, s, a).exchanges[id].entry == s.exchanges[id].entry
    ensures var (p, q) := (s.exchanges[id].point, Step(o, s, a).exchanges[id].point);
            q == p || (InStage(p) && InStage(q) && q == p.(race := q.race) && Decides(s, a, id, q.race))
  {
    if a.id in s.exchanges && a.id != id {
      StepTouches(o, s, a);
      hide Step;
    }
  }

  /** The action settles the exchange's race in this way: its work is done, or its deadline gets its cause. */
  predicate Decides(s: System, a: Action, id: int, race: Race) {
    && a.id == id && id in s.exchanges
    && var (p, d) := (s.exchanges[id].point, s.exchanges[id].deadline);
    && InStage(p) && p.race.Open?
    && match race
       case Open => false
       case Won(work) => a == WorkSettles(id, work) && WorkFits(p, work)
       case Cut(cause) => a.Fire? && d.cause.None? && Happens(d, a.event).cause == Some(cause)
  }

  /** The race of an exchange was decided by action `j`, in the stage it is in. */
  ghost predicate DecidedAt(o: Options, entries: map<int, Entry>, actions: seq<Action>, j: nat, id: int, p: Point)
    requires InStage(p)
  {
    && j < |actions| && Decides(Run(o, entries, actions[..j]), actions[j], id, p.race)
    && p == Run(o, entries, actions[..j]).exchanges[id].point.(race := p.race)
  }

  ghost predicate RaceDecided(o: Options, entries: map<int, Entry>, actions: seq<Action>, id: int) {
    && id in Run(o, entries, actions).exchanges && InStage(Run(o, entries, actions).exchanges[id].point)
    && exists j: nat :: DecidedAt(o, entries, actions, j, id, Run(o, entries, actions).exchanges[id].point)
  }

  /** A decided race was decided by one action of the run, in the very stage it still is in. */
  lemma {:induction false} RaceWasDecided(o: Options, entries: map<int, Entry>, actions: seq<Action>, id: int)
    requires id in Run(o, entries, actions).exchanges
    requires var p := Run(o, entries, actions).exchanges[id].point; InStage(p) && !p.race.Open?
    ensures RaceDecided(o, entries, actions, id)
  {
    if actions != [] {
      var front, a := actions[..|actions| - 1], actions[|actions| - 1];
      var s, q := Run(o, entries, front), Run(o, entries, actions).exchanges[id].point;
      SameExchanges(o, s, a, id);
      StageBefore(o, s, a, id);
      hide Step;
      hide Decides;
      if s.exchanges[id].point == q {
        RaceWasDecided(o, entries, front, id);
        var j: nat :| DecidedAt(o, entries, front, j, id, q);
        assert actions[..j] == front[..j];
        assert DecidedAt(o, entries, actions, j, id, q);
      } else {
        assert DecidedAt(o, entries, actions, |front|, id, q);
      }
    }
  }

  lemma SameExchanges(o: Options, s: System, a: Action, id: int)
    ensures id in Step(o, s, a).exchanges <==> id in s.exchanges
  {
    if a.id in s.exchanges { StepTouches(o, s, a); }
    hide HandleArrival;
    hide NativeArrival;
    hide Continued;
    hide Fired;
  }

  /** A stage with a decided race was entered before, and this action decided its race unless it was decided already. */
  lemma StageBefore(o: Options, s: System, a: Action, id: int)
    requires id in s.exchanges && id in Step(o, s, a).exchanges
    requires var q := Step(o, s, a).exchanges[id].point; InStage(q) && !q.race.Open?
    ensures var (p, q) := (s.exchanges[id].point, Step(o, s, a).exchanges[id].point);
            q == p || (InStage(p) && q == p.(race := q.race) && Decides(s, a, id, q.race))
  {
    if a.id == id && a.Continue? {
      if InStage(s.exchanges[id].point) {
        ContinueExactly(o, s, id, a.thrown);
        hide Step;
        hide Follows;
      }
    } else if a.id == id && a.Arrive? && s.exchanges[id].point.Waiting? {
      ArriveExactly(o, s, id, a.thrown);
      hide Step;
      hide MayBegin;
      hide RefusedFor;
    } else {
      OtherStep(o, s, a, id);
      hide Step;
    }
  }

  /** Action `k` ends the exchange, and an earlier one decided its race if it had come as far as one. */
  ghost predicate EndedAt(o: Options, entries: map<int, Entry>, actions: seq<Action>, k: nat, id: int, ending: Ending) {
    && k < |actions| && Ends(o, Run(o, entries, actions[..k]), actions[k], id, ending)
    && (actions[k].Continue? ==> RaceDecided(o, entries, actions[..k], id))
  }

  /**
    Every ending of a run is explained: a refusal by the reason that applies on arrival; an answer by the
    response that won the last race, with that very status, first or redirected; a failure by the abort
    or the failed work that won it, or by a fetch that threw or came too late.
   */
  lemma {:induction false} EndingsAreExplained(o: Options, entries: map<int, Entry>, actions: seq<Action>, id: int)
    requires id in Run(o, entries, actions).exchanges && Run(o, entries, actions).exchanges[id].point.Done?
    ensures exists k: nat :: EndedAt(o, entries, actions, k, id, Run(o, entries, actions).exchanges[id].point.ending)
  {
    if actions != [] {
      var front, a := actions[..|actions| - 1], actions[|actions| - 1];
      var s, ending := Run(o, entries, front), Run(o, entries, actions).exchanges[id].point.ending;
      SameExchanges(o, s, a, id);
      StepGrows(o, s, a);
      if s.exchanges[id].point.Done? {
        assert ExchangeGrows(s.exchanges[id], Step(o, s, a).exchanges[id]);
        hide Step;
        EndingsAreExplained(o, entries, front, id);
        var k: nat :| EndedAt(o, entries, front, k, id, ending);
        assert actions[..k] == front[..k];
        assert EndedAt(o, entries, actions, k, id, ending);
      } else {
        LastEnds(o, entries, actions, id);
      }
    }
  }

  lemma LastEnds(o: Options, entries: map<int, Entry>, actions: seq<Action>, id: int)
    requires actions != [] && id in Run(o, entries, actions).exchanges && Run(o, entries, actions).exchanges[id].point.Done?
    requires var s := Run(o, entries, actions[..|actions| - 1]); id in s.exchanges && !s.exchanges[id].point.Done?
    ensures EndedAt(o, entries, actions, |actions| - 1, id, Run(o, entries, actions).exchanges[id].point.ending)
  {
    var front, a := actions[..|actions| - 1], actions[|actions| - 1];
    var s, ending := Run(o, entries, front), Run(o, entries, actions).exchanges[id].point.ending;
    StepEnds(o, s, a, id, ending);
    if a.Continue? {
      ContinueEnds(o, s, id, a.thrown, ending);
      OnlyDecidedEnd(o, s, id, a.thrown);
      RaceWasDecided(o, entries, front, id);
    }
    hide Step;
    hide Ends;
  }

  lemma OnlyDecidedEnd(o: Options, s: System, id: int, thrown: Option<FailureClass>)
    requires id in s.exchanges && InStage(s.exchanges[id].point) && Step(o, s, Continue(id, thrown)).exchanges[id].point.Done?
    ensures !s.exchanges[id].point.race.Open?
  {
  }

  // ----- every fetch of a run -----

  /** What an action finds when it makes this fetch. */
  ghost predicate Makes(o: Options, s: System, a: Action, f: Fetch) {
    && a.id == f.exchange && f.exchange in s.exchanges
    && var (p, d, entry) := (s.exchanges[f.exchange].point, s.exchanges[f.exchange].deadline, s.exchanges[f.exchange].entry);
    if a.Continue? then
      && f.settled == d.cause.Some? && FetchesNext(o, p)
      && (f.redirected <==> p.Requesting?)
      && f.target == if p.Requesting? then p.race.work.location.url else p.target
    else
      && a.Arrive? && p.Waiting? && !f.redirected && !o.authenticates
      && exists operation, caller :: MayBegin(o, entry, operation, f.target, caller) && (f.settled <==> caller == AlreadyAborted)
  }

  lemma ArrivalFetches(o: Options, s: System, id: int, thrown: Option<FailureClass>)
    requires id in s.exchanges && s.exchanges[id].point.Waiting?
    ensures var t := Step(o, s, Arrive(id, thrown));
            || t.fetches == s.fetches
            || (|t.fetches| == |s.fetches| + 1 && s.fetches <= t.fetches && Makes(o, s, Arrive(id, thrown), t.fetches[|s.fetches|]))
  {
    ArriveExactly(o, s, id, thrown);
    hide Step;
    hide RefusedFor;
    hide MayBegin;
    var t := Step(o, s, Arrive(id, thrown));
    if t.fetches != s.fetches {
      var operation, target, caller :|
        MayBegin(o, s.exchanges[id].entry, operation, target, caller) && Begins(o, s, t, id, operation, target, caller, thrown);
      var f := t.fetches[|s.fetches|];
      assert f == Fetch(id, target, false, Created(caller).cause.Some?);
      assert MayBegin(o, s.exchanges[id].entry, operation, f.target, caller) && (f.settled <==> caller == AlreadyAborted);
      assert Makes(o, s, Arrive(id, thrown), f);
      hide Makes;
    }
  }

  lemma StepFetches(o: Options, s: System, a: Action)
    ensures var t := Step(o, s, a);
            || t.fetches == s.fetches
            || (|t.fetches| == |s.fetches| + 1 && s.fetches <= t.fetches && Makes(o, s, a, t.fetches[|s.fetches|]))
  {
    if a.id in s.exchanges {
      var id := a.id;
      match a
      case Arrive(_, thrown) =>
        if s.exchanges[id].point.Waiting? {
          ArrivalFetches(o, s, id, thrown);
          hide Step;
          hide Makes;
        }
      case Continue(_, thrown) =>
        if InStage(s.exchanges[id].point) {
          ContinueExactly(o, s, id, thrown);
          hide Step;
          hide Follows;
        }
      case Fire(_, _) =>
      case WorkSettles(_, _) =>
    }
  }

  ghost predicate MadeAt(o: Options, entries: map<int, Entry>, actions: seq<Action>, k: nat, i: nat, f: Fetch) {
    && k < |actions| && |Run(o, entries, actions[..k]).fetches| == i && Makes(o, Run(o, entries, actions[..k]), actions[k], f)
    && (actions[k].Continue? ==> RaceDecided(o, entries, actions[..k], f.exchange))
  }

  /**
    Every fetch of a run is explained: the first one of an exchange is made where it may begin, on
    arrival if there are no credentials to get and otherwise when they have come; a second one when the
    first response redirects to where it may follow.
   */
  lemma {:induction false} FetchesAreExplained(o: Options, entries: map<int, Entry>, actions: seq<Action>, i: nat)
    requires i < |Run(o, entries, actions).fetches|
    ensures exists k: nat :: MadeAt(o, entries, actions, k, i, Run(o, entries, actions).fetches[i])
  {
    if actions != [] {
      var front, a := actions[..|actions| - 1], actions[|actions| - 1];
      var s, f := Run(o, entries, front), Run(o, entries, actions).fetches[i];
      StepFetches(o, s, a);
      hide Step;
      hide MadeAt;
      if i < |s.fetches| {
        hide Makes;
        FetchesAreExplained(o, entries, front, i);
        assert s.fetches[i] == f;
        var k: nat :| MadeAt(o, entries, front, k, i, f);
        MadeStays(o, entries, actions, k, i, f);
      } else {
        LastMakes(o, entries, actions, i, f);
      }
    }
  }

  lemma MadeStays(o: Options, entries: map<int, Entry>, actions: seq<Action>, k: nat, i: nat, f: Fetch)
    requires actions != [] && MadeAt(o, entries, actions[..|actions| - 1], k, i, f)
    ensures MadeAt(o, entries, actions, k, i, f)
  {
    hide Run;
    hide Makes;
    hide RaceDecided;
    assert actions[..k] == actions[..|actions| - 1][..k];
  }

  lemma LastMakes(o: Options, entries: map<int, Entry>, actions: seq<Action>, i: nat, f: Fetch)
    requires actions != [] && |Run(o, entries, actions[..|actions| - 1]).fetches| == i
    requires Makes(o, Run(o, entries, actions[..|actions| - 1]), actions[|actions| - 1], f)
    ensures MadeAt(o, entries, actions, |actions| - 1, i, f)
  {
    if actions[|actions| - 1].Continue? {
      RaceWasDecided(o, entries, actions[..|actions| - 1], f.exchange);
    }
    hide Run;
    hide RaceDecided;
  }

  /** A local relay fetches from http://127.0.0.1 only, redirects included. */
  lemma LocalFetchesAreLoopback(o: Options, entries: map<int, Entry>, actions: seq<Action>, i: nat)
    requires o.mode == LocalMode && i < |Run(o, entries, actions).fetches|
    ensures var f := Run(o, entries, actions).fetches[i]; f.target.protocol == "http:" && f.target.hostname == "127.0.0.1"
  {
    FetchesBelong(o, entries, actions);
    var s := Run(o, entries, actions);
    var f := s.fetches[i];
    FetchesAreCleared(o, entries, actions, f.exchange);
    InOf(s.fetches, i);
    hide Run;
    hide NamedOperation;
    var k :| 0 <= k < |Of(s.fetches, f.exchange)| && Of(s.fetches, f.exchange)[k] == f;
    assert k == 0 || k == 1;
  }
}
