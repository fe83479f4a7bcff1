/**
  The relay's exchanges and the native runner, any number of them at once on one event loop. An
  exchange runs without interruption up to an `await`; there the work it waits for, its deadline and
  the other exchanges may go on in any order.
 */
module Relay {
  import opened Wrappers
  import opened RelayDeadline

  datatype Mode = LocalMode | DevMode

  datatype Url = Url(protocol: string, hostname: string, port: string, path: string, query: string)

  predicate SameOrigin(a: Url, b: Url) {
    a.protocol == b.protocol && a.hostname == b.hostname && a.port == b.port
  }

  datatype SemanticClass = KnownRead | KnownMutation | UnknownSemantics

  datatype ApiOperation = ApiOperation(operationId: string, semanticClass: SemanticClass, eligible: bool)

  datatype Block =
    | UnknownOperation | MutationBlocked | UnknownDestination | ProductionDestination
    | OperationMismatch | UnsafeInboundHeader | SemanticAdmissionRefused

  datatype Violation = Blocked(reason: Block) | ObservationAlreadyRecorded

  datatype RedirectClass = NoRedirect | ApprovedSameOrigin | RedirectBlocked

  /** How the operation ended; an observation is this, under the operation's id, though the failure class goes to the response header. */
  datatype Ending =
    | Refusal(reason: Block)
    | NetworkFailure(failure: FailureClass)
    | Answered(status: nat, redirect: RedirectClass)

  /** `writer` is the exchange that recorded it. */
  datatype Observation = Observation(writer: int, ending: Ending)

  /** The parts of the relay's world that are foreign code: resolvers, policy and admission. */
  datatype Options = Options(
    mode: Mode,
    catalog: seq<ApiOperation>,
    resolve: ApiOperation -> Option<Url>,
    fallback: ApiOperation -> Option<Url>,
    devPolicy: (Url, ApiOperation) -> bool,
    admission: Option<Url -> bool>,
    authenticates: bool)

  /** `plain` is a GET without query; `safeHeaders` covers header names and content length. */
  datatype Entry =
    | Relayed(plain: bool, pathOperation: Option<string>, headerOperation: Option<string>, safeHeaders: bool)
    | Native(operation: ApiOperation, caller: Caller)

  /** A redirect target that is absent, does not parse, or is this one. */
  datatype Location = NoLocation | BadLocation | Location(url: Url)

  datatype Work = AuthReady | Response(status: nat, location: Location) | WorkFailed(failure: FailureClass)

  datatype Race = Open | Won(work: Work) | Cut(cause: FailureClass)

  datatype Point =
    | Waiting
    | Authorising(operation: ApiOperation, target: Url, race: Race)
    | Requesting(operation: ApiOperation, target: Url, race: Race)
    | Redirecting(operation: ApiOperation, target: Url, redirect: Url, race: Race)
    | Done(ending: Ending)
    /** It threw before there was a deadline: nothing is recorded. */
    | Crashed

  datatype Exchange = Exchange(entry: Entry, deadline: Deadline, point: Point)

  /** One call of the fetcher; `settled` says whether the deadline had settled by then. */
  datatype Fetch = Fetch(exchange: int, target: Url, redirected: bool, settled: bool)

  /** `attempts` counts the calls of `recordObservation`. */
  datatype System = System(
    exchanges: map<int, Exchange>,
    observations: map<string, Observation>,
    violations: seq<Violation>,
    fetches: seq<Fetch>,
    attempts: nat)

  datatype Action =
    | Arrive(id: int, thrown: Option<FailureClass>)
    | Fire(id: int, event: Event)
    /** The work an exchange waits for resolves or rejects. */
    | WorkSettles(id: int, work: Work)
    /** The exchange goes on after its race is decided; `thrown` if the fetcher throws instead of returning a promise. */
    | Continue(id: int, thrown: Option<FailureClass>)

  function Find(catalog: seq<ApiOperation>, operationId: string): Option<ApiOperation> {
    if catalog == [] then None
    else if catalog[0].operationId == operationId then Some(catalog[0])
    else Find(catalog[1..], operationId)
  }

  function PolicyAllowsTarget(o: Options, target: Url, operation: ApiOperation): bool {
    if o.mode == LocalMode then target.protocol == "http:" && target.hostname == "127.0.0.1"
    else o.devPolicy(target, operation)
  }

  predicate Admitted(o: Options, target: Url) {
    o.admission.Some? ==> o.admission.value(target)
  }

  // ----- what an exchange writes -----

  function Recorded(s: System, operationId: string, observation: Observation): System {
    if operationId in s.observations then
      s.(violations := s.violations + [ObservationAlreadyRecorded], attempts := s.attempts + 1)
    else s.(observations := s.observations[operationId := observation], attempts := s.attempts + 1)
  }

  /** `takeObservation` */
  function Taken(observations: map<string, Observation>, operationId: string): Option<Observation> {
    if operationId in observations then Some(observations[operationId]) else None
  }

  function AtPoint(s: System, id: int, deadline: Deadline, point: Point): System
    requires id in s.exchanges
  {
    s.(exchanges := s.exchanges[id := Exchange(s.exchanges[id].entry, deadline, point)])
  }

  /** `reject`: an observation when the path names a catalogued operation, and a violation in any case. */
  function Reject(o: Options, s: System, id: int, reason: Block): System
    requires id in s.exchanges && s.exchanges[id].entry.Relayed?
  {
    var e := s.exchanges[id];
    var t :=
      if e.entry.pathOperation.Some? && Find(o.catalog, e.entry.pathOperation.value).Some?
      then Recorded(s, e.entry.pathOperation.value, Observation(id, Refusal(reason)))
      else s;
    AtPoint(t.(violations := t.violations + [Blocked(reason)]), id, e.deadline, Done(Refusal(reason)))
  }

  /** The deadline is disposed of on every way out; only the relay keeps observations. */
  function Finish(s: System, id: int, operation: ApiOperation, ending: Ending): System
    requires id in s.exchanges
  {
    var e := s.exchanges[id];
    var t := if e.entry.Relayed? then Recorded(s, operation.operationId, Observation(id, ending)) else s;
    AtPoint(t, id, Happens(e.deadline, Disposes), Done(ending))
  }

  // ----- the stages -----

  /** The fetcher is called, and only then does `withDeadline` look whether the deadline has settled. */
  function Attempt(s: System, id: int, operation: ApiOperation, target: Url, redirected: bool, next: Point,
      thrown: Option<FailureClass>): System
    requires id in s.exchanges
  {
    var e := s.exchanges[id];
    var t := s.(fetches := s.fetches + [Fetch(id, target, redirected, e.deadline.cause.Some?)]);
    if thrown.Some? then Finish(t, id, operation, NetworkFailure(thrown.value))
    else if e.deadline.cause.Some? then Finish(t, id, operation, NetworkFailure(e.deadline.cause.value))
    else AtPoint(t, id, e.deadline, next)
  }

  /** From the admitted target on: the deadline, the credentials, the first request. */
  function Begin(o: Options, s: System, id: int, operation: ApiOperation, target: Url, caller: Caller,
      thrown: Option<FailureClass>): System
    requires id in s.exchanges
  {
    var d := Created(caller);
    var t := AtPoint(s, id, d, Waiting);
    if o.authenticates then
      if d.cause.Some? then Finish(t, id, operation, NetworkFailure(d.cause.value))
      else AtPoint(t, id, d, Authorising(operation, target, Open))
    else Attempt(t, id, operation, target, false, Requesting(operation, target, Open), thrown)
  }

  function BlockFor(target: Url): Block {
    if target.hostname == "127.0.0.1" || target.hostname == "localhost" then UnknownDestination else ProductionDestination
  }

  function Target(o: Options, operation: ApiOperation): Option<Url> {
    if o.resolve(operation).Some? then o.resolve(operation)
    else if o.mode == LocalMode then o.fallback(operation)
    else None
  }

  /** `handle` on an operation of the catalogue, up to its first await. */
  function HandleKnown(o: Options, s: System, id: int, operation: ApiOperation, thrown: Option<FailureClass>): System
    requires id in s.exchanges && s.exchanges[id].entry.Relayed?
  {
    if operation.semanticClass == KnownMutation then Reject(o, s, id, MutationBlocked)
    else if operation.semanticClass == UnknownSemantics then Reject(o, s, id, UnknownOperation)
    else if !operation.eligible then Reject(o, s, id, OperationMismatch)
    else
      var target := Target(o, operation);
      if target.None? then
        if o.mode == LocalMode then AtPoint(s, id, s.exchanges[id].deadline, Crashed) else Reject(o, s, id, UnknownDestination)
      else if !PolicyAllowsTarget(o, target.value, operation) then Reject(o, s, id, BlockFor(target.value))
      else if !Admitted(o, target.value) then Reject(o, s, id, SemanticAdmissionRefused)
      else Begin(o, s, id, operation, target.value, NoCaller, thrown)
  }

  /** `handle` up to its first await. */
  function HandleArrival(o: Options, s: System, id: int, thrown: Option<FailureClass>): System
    requires id in s.exchanges && s.exchanges[id].entry.Relayed?
  {
    var entry := s.exchanges[id].entry;
    if !entry.plain then Reject(o, s, id, UnsafeInboundHeader)
    else if entry.pathOperation.None? || entry.headerOperation != entry.pathOperation then Reject(o, s, id, OperationMismatch)
    else if !entry.safeHeaders then Reject(o, s, id, UnsafeInboundHeader)
    else
      var found := Find(o.catalog, entry.pathOperation.value);
      if found.None? then Reject(o, s, id, UnknownOperation) else HandleKnown(o, s, id, found.value, thrown)
  }

  /** `executeNativePhase5Operation` up to its first await; a failed check throws. */
  function NativeArrival(o: Options, s: System, id: int, thrown: Option<FailureClass>): System
    requires id in s.exchanges && s.exchanges[id].entry.Native?
  {
    var entry := s.exchanges[id].entry;
    var target := o.resolve(entry.operation);
    if entry.operation.semanticClass != KnownRead || target.None?
       || !PolicyAllowsTarget(o, target.value, entry.operation) || !Admitted(o, target.value)
    then AtPoint(s, id, s.exchanges[id].deadline, Crashed)
    else Begin(o, s, id, entry.operation, target.value, entry.caller, thrown)
  }

  predicate RedirectStatus(status: nat) {
    300 <= status < 400
  }

  /** What `callWithRedirectPolicy` does with the first response. */
  function FirstResponse(o: Options, s: System, id: int, operation: ApiOperation, target: Url, status: nat,
      location: Location, thrown: Option<FailureClass>): System
    requires id in s.exchanges
  {
    if !RedirectStatus(status) then Finish(s, id, operation, Answered(status, NoRedirect))
    else if !location.Location? then Finish(s, id, operation, Answered(status, RedirectBlocked))
    else if !SameOrigin(location.url, target) || (o.mode == DevMode && location.url.path != target.path) then
      Finish(s, id, operation, Answered(status, RedirectBlocked))
    else if !Admitted(o, location.url) then Finish(s, id, operation, Answered(status, RedirectBlocked))
    else Attempt(s, id, operation, location.url, true, Redirecting(operation, target, location.url, Open), thrown)
  }

  function SecondResponse(s: System, id: int, operation: ApiOperation, status: nat): System
    requires id in s.exchanges
  {
    Finish(s, id, operation, Answered(status, if RedirectStatus(status) then RedirectBlocked else ApprovedSameOrigin))
  }

  function Continued(o: Options, s: System, id: int, thrown: Option<FailureClass>): System
    requires id in s.exchanges
  {
    var p := s.exchanges[id].point;
    if !(p.Authorising? || p.Requesting? || p.Redirecting?) then s
    else if p.race.Open? then s
    else if p.race.Cut? then Finish(s, id, p.operation, NetworkFailure(p.race.cause))
    else
      match p.race.work
      case WorkFailed(failure) => Finish(s, id, p.operation, NetworkFailure(failure))
      case AuthReady =>
        if p.Authorising? then Attempt(s, id, p.operation, p.target, false, Requesting(p.operation, p.target, Open), thrown) else s
      case Response(status, location) =>
        if p.Requesting? then FirstResponse(o, s, id, p.operation, p.target, status, location, thrown)
        else if p.Redirecting? then SecondResponse(s, id, p.operation, status)
        else s
  }

  /** A race is decided by the work or by the abort, whichever comes first. */
  function Decide(p: Point, race: Race): Point {
    if (p.Authorising? || p.Requesting? || p.Redirecting?) && p.race.Open? then p.(race := race) else p
  }

  /** The deadline's own events; settling aborts the signal, and that rejects an open race. */
  function Fired(s: System, id: int, event: Event): System
    requires id in s.exchanges
  {
    var e := s.exchanges[id];
    if e.point.Waiting? || e.point.Done? || e.point.Crashed? || event == Disposes then s
    else
      var d := Happens(e.deadline, event);
      AtPoint(s, id, d, if e.deadline.cause.None? && d.cause.Some? then Decide(e.point, Cut(d.cause.value)) else e.point)
  }

  predicate WorkFits(p: Point, work: Work) {
    work.WorkFailed? || (p.Authorising? && work.AuthReady?) || ((p.Requesting? || p.Redirecting?) && work.Response?)
  }

  function Step(o: Options, s: System, a: Action): System {
    if a.id !in s.exchanges then s
    else
      var e := s.exchanges[a.id];
      match a
      case Arrive(id, thrown) =>
        if !e.point.Waiting? then s
        else if e.entry.Relayed? then HandleArrival(o, s, id, thrown)
        else NativeArrival(o, s, id, thrown)
      case Fire(id, event) => Fired(s, id, event)
      case WorkSettles(id, work) =>
        if WorkFits(e.point, work) then AtPoint(s, id, e.deadline, Decide(e.point, Won(work))) else s
      case Continue(id, thrown) => Continued(o, s, id, thrown)
  }

  function Initial(entries: map<int, Entry>): System {
    System(map id | id in entries :: Exchange(entries[id], Deadline(None, false, false, false), Waiting), map[], [], [], 0)
  }

  function Run(o: Options, entries: map<int, Entry>, actions: seq<Action>): System {
    if actions == [] then Initial(entries)
    else Step(o, Run(o, entries, actions[..|actions| - 1]), actions[|actions| - 1])
  }
}
