/**
  The effect journal of the outbound proxy. Any number of HTTP, CONNECT and Upgrade handlers share
  the event counter, the evidence flag and the log; each runs without interruption between its
  awaits. A run is a list of actions, each of which starts or resumes one handler; an action that
  is not enabled changes nothing. The handlers hand `record` an effect id and a phase, PREPARED before
  the dial and TERMINAL after it, which `record` leaves out of what it writes: `log` is what it writes,
  `intended` what it would have written with both.
 */
module ProxyJournal {
  import opened Wrappers
  import opened AddressText
  import opened AddressAdmission
  import opened AddressCase
  import opened EventLedger

  datatype Protocol = Http | HttpsConnect | WebSocket

  /** What a handler keeps of a classified request that was allowed. */
  datatype Request = Request(protocol: Protocol, hostname: string, hostClass: HostClass)

  /** Where a handler waits: for the resolver, for the upstream socket, or nowhere any more. */
  datatype Handler =
    | Resolving(request: Request)
    | Connecting(request: Request, resolution: Resolution, effectId: string)
    | Finished

  /** An upstream socket: who opened it, under which effect, where to, and the log length at that moment. */
  datatype Dial = Dial(handler: nat, effectId: string, target: Item, logLength: nat)

  /**
    What became of one append: stored, nothing written, written before a later step of the append
    failed, or torn in the middle of the line.
   */
  datatype AppendOutcome = Stored | Missed | StoredThenFailed | Torn

  /** How the checks between classification and the resolver end. */
  datatype Gate = TicketRefused | Pass

  datatype Config = Config(environment: Environment, less: Order)

  /**
    The closure variables, the log and the sockets. The rest is history: the log that would have
    been written had `record` copied the effect its caller names, whether an append was torn, and the
    effects whose dial threw, whose outcome record did not reach the log, whose first record reached
    it although its append failed, and whose dial threw without its failure record reaching the log.
   */
  datatype Server = Server(
    eventSeq: nat, evidenceWriteFailed: bool, shuttingDown: bool, log: seq<Line>,
    handlers: map<nat, Handler>, dials: seq<Dial>,
    intended: seq<Line>, torn: bool,
    threw: set<string>, lost: set<string>, unsent: set<string>, unwritten: set<string>)

  datatype Action =
    /** A request arrives and runs up to the resolver. */
    | Arrive(id: nat, protocol: Protocol, verdict: Verdict, hostClass: HostClass, hasTarget: bool,
             hostname: string, gate: Gate, cancelled: bool, append: AppendOutcome)
    /** The resolver settles; the handler journals and dials. */
    | Resolve(id: nat, settled: Settled, cancelled: bool, throws: bool, first: AppendOutcome, second: AppendOutcome)
    /** The upstream socket settles; the handler journals the outcome. */
    | Settle(id: nat, succeeded: bool, append: AppendOutcome)
    | Close

  /** `effect-${eventSeq}` */
  function EffectIdOf(n: nat): string {
    "effect-" + Digits(n, 10)
  }

  lemma EffectIdsDiffer(m: nat, n: nat)
    requires EffectIdOf(m) == EffectIdOf(n)
    ensures m == n
  {
    assert EffectIdOf(m)[7..] == Digits(m, 10) && EffectIdOf(n)[7..] == Digits(n, 10);
    DigitsRoundTrip(m, 10);
    DigitsRoundTrip(n, 10);
  }

  const Start := Server(0, false, false, [], map[], [], [], false, {}, {}, {}, {})

  // ----- the record function -----

  /** The new state and the returned sequence number, or -1 when the evidence did not get through. */
  datatype Recorded = Recorded(server: Server, seqNo: int)

  /**
    What `record` writes for the event its caller describes: the event object it builds takes over
    neither `effectId` nor `phase`.
   */
  function WrittenLine(event: Event, n: nat): Line {
    Good(event.(index := n, effect := None))
  }

  /** What it would write if it took over both. */
  function IntendedLine(event: Event, n: nat): Line {
    Good(event.(index := n))
  }

  function Appended(s: Server, line: Line, intended: Line): Server {
    s.(log := s.log + [line], intended := s.intended + [intended])
  }

  /** `validateProxyEventForPersistence`: of the modelled fields the number and the answer count can be out of range. */
  predicate Persistable(event: Event, n: nat) {
    n <= 1_000_000_000 && (event.answerCount.Some? ==> event.answerCount.value <= 8)
  }

  /** A record that fails validation never gets as far as the file. */
  function Validated(event: Event, n: nat, append: AppendOutcome): AppendOutcome {
    if Persistable(event, n) then append else Missed
  }

  /** `record` */
  function RecordOn(s: Server, event: Event, append: AppendOutcome): (r: Recorded)
    ensures r.server.handlers == s.handlers && r.server.dials == s.dials && r.server.shuttingDown == s.shuttingDown
    ensures r.server.threw == s.threw && r.server.lost == s.lost
    ensures r.server.unsent == s.unsent && r.server.unwritten == s.unwritten
  {
    if s.evidenceWriteFailed then Recorded(s, -1)
    else
      var next := s.(eventSeq := s.eventSeq + 1);
      var failed := next.(evidenceWriteFailed := true);
      var line, intended := WrittenLine(event, s.eventSeq), IntendedLine(event, s.eventSeq);
      match Validated(event, s.eventSeq, append)
      case Stored => Recorded(Appended(next, line, intended), s.eventSeq)
      case Missed => Recorded(failed, -1)
      case StoredThenFailed => Recorded(Appended(failed, line, intended), -1)
      case Torn => Recorded(Appended(failed, NotJson, NotJson).(torn := true), -1)
  }

  /** Whether the bytes of a record reach the log whole. */
  predicate Reaches(s: Server, event: Event, append: AppendOutcome) {
    !s.evidenceWriteFailed && Persistable(event, s.eventSeq) && (append == Stored || append == StoredThenFailed)
  }

  function PlainEvent(verdict: Verdict, hostClass: HostClass, resolution: ResolutionState): Event {
    Event(0, verdict, hostClass, Some(resolution), None, Some(ConnectionNotAttempted), None, None, None)
  }

  function ResolutionStateOf(r: Resolution): ResolutionState {
    match r.outcome
    case OutcomeAdmitted => ResolutionAdmitted
    case OutcomeDenied => ResolutionDenied
    case OutcomeFailed => ResolutionFailed
  }

  function ResolutionViolationOf(r: Resolution): Option<Violation> {
    match r.outcome
    case OutcomeAdmitted => None
    case OutcomeDenied => Some(AddressPolicyViolation)
    case OutcomeFailed => Some(ResolutionViolation)
  }

  /** A record made after resolution; only allowed requests get that far. */
  function LifecycleEvent(q: Request, r: Resolution, connection: Connection, effect: Option<Effect>): Event {
    Event(0, Allow, q.hostClass, Some(ResolutionStateOf(r)), Some(r.answerCount), Some(connection),
          ResolutionViolationOf(r), effect, None)
  }

  /** The address facts of a record. */
  function AddressOf(selected: Option<Item>): Option<Bound> {
    if selected.Some? then Some(Bound(selected.value.family, selected.value.kind)) else None
  }

  /** A record about the selected address. */
  function BoundEvent(q: Request, r: Resolution, connection: Connection, effect: Option<Effect>): Event {
    LifecycleEvent(q, r, connection, effect).(address := AddressOf(r.selected))
  }

  /** The failure record of a dial that threw: it names no effect and no phase. */
  function ThrownEvent(q: Request, r: Resolution): Event {
    BoundEvent(q, r, ConnectionFailed, None).(violation := Some(AddressBindingViolation))
  }

  // ----- one uninterrupted stretch of one handler -----

  function ArriveOn(s: Server, a: Action): Server
    requires a.Arrive? && a.id !in s.handlers
  {
    var finished := s.(handlers := s.handlers[a.id := Finished]);
    if s.evidenceWriteFailed then finished
    else if a.verdict != Allow || !a.hasTarget then
      RecordOn(finished, PlainEvent(a.verdict, a.hostClass, ResolutionNotAttempted), a.append).server
    else if a.gate == TicketRefused then
      RecordOn(finished, PlainEvent(Allow, a.hostClass, ResolutionNotAttempted), a.append).server
    else if a.cancelled || s.shuttingDown then
      RecordOn(finished, PlainEvent(Allow, a.hostClass, ResolutionFailed), a.append).server
    else s.(handlers := s.handlers[a.id := Resolving(Request(a.protocol, a.hostname, a.hostClass))])
  }

  function ResolveOn(config: Config, s: Server, a: Action): Server
    requires a.Resolve? && a.id in s.handlers && s.handlers[a.id].Resolving?
  {
    var h := s.handlers[a.id];
    var finished := s.(handlers := s.handlers[a.id := Finished]);
    var r := ResolveAndAdmit(h.request.hostname, config.environment, a.settled, config.less);
    if a.cancelled || s.shuttingDown || r.selected.None? then
      RecordOn(finished, LifecycleEvent(h.request, r, ConnectionNotAttempted, None), a.first).server
    else
      DialOn(finished, a, h.request, r)
  }

  /** The failure record of a dial that threw. */
  function RecordThrow(s: Server, q: Request, r: Resolution, id: string, append: AppendOutcome): Server {
    RecordOn(s, ThrownEvent(q, r), append).server.(
      unwritten := if Reaches(s, ThrownEvent(q, r), append) then s.unwritten else s.unwritten + {id})
  }

  /** The record made for the PREPARED half of the effect, and the dial behind it. */
  function DialOn(s: Server, a: Action, q: Request, r: Resolution): Server
    requires a.Resolve? && r.selected.Some?
  {
    var id := EffectIdOf(s.eventSeq);
    var event := BoundEvent(q, r, Attempted, Some(Effect(id, Prepared)));
    var prepared := RecordOn(s, event, a.first);
    if prepared.seqNo < 0 then
      prepared.server.(unsent := if Reaches(s, event, a.first) then s.unsent + {id} else s.unsent)
    else if a.throws then
      RecordThrow(prepared.server.(threw := s.threw + {id}), q, r, id, a.second)
    else
      prepared.server.(
        handlers := s.handlers[a.id := Connecting(q, r, id)],
        dials := s.dials + [Dial(a.id, id, r.selected.value, |prepared.server.log|)])
  }

  function SettleOn(s: Server, a: Action): Server
    requires a.Settle? && a.id in s.handlers && s.handlers[a.id].Connecting?
  {
    var h := s.handlers[a.id];
    var finished := s.(handlers := s.handlers[a.id := Finished]);
    var connection := if a.succeeded then Connected else ConnectionFailed;
    var event := BoundEvent(h.request, h.resolution, connection, Some(Effect(h.effectId, Terminal)));
    var recorded := RecordOn(finished, event, a.append).server;
    recorded.(lost := if Reaches(s, event, a.append) then s.lost else s.lost + {h.effectId})
  }

  /** One step of the server; a disabled action leaves it unchanged. */
  function Step(config: Config, s: Server, a: Action): Server {
    match a
    case Arrive(_, _, _, _, _, _, _, _, _) => if a.id in s.handlers then s else ArriveOn(s, a)
    case Resolve(_, _, _, _, _, _) =>
      if a.id in s.handlers && s.handlers[a.id].Resolving? then ResolveOn(config, s, a) else s
    case Settle(_, _, _) =>
      if a.id in s.handlers && s.handlers[a.id].Connecting? then SettleOn(s, a) else s
    case Close => s.(shuttingDown := true)
  }

  function Run(config: Config, actions: seq<Action>): Server {
    if actions == [] then Start
    else Step(config, Run(config, actions[..|actions| - 1]), actions[|actions| - 1])
  }

  // ----- the server object -----

  /** The proxy's closure: `record` and the handler stretches update it in place. */
  class ProxyServer {
    const config: Config
    var eventSeq: nat
    var evidenceWriteFailed: bool
    var shuttingDown: bool
    var log: seq<Line>
    var handlers: map<nat, Handler>
    var dials: seq<Dial>
    ghost var intended: seq<Line>
    ghost var torn: bool
    ghost var threw: set<string>
    ghost var lost: set<string>
    ghost var unsent: set<string>
    ghost var unwritten: set<string>

    ghost function State(): Server
      reads this
    {
      Server(eventSeq, evidenceWriteFailed, shuttingDown, log, handlers, dials, intended, torn,
             threw, lost, unsent, unwritten)
    }

    constructor (config: Config)
      ensures State() == Start && this.config == config
    {
      this.config := config;
      eventSeq, evidenceWriteFailed, shuttingDown := 0, false, false;
      log, handlers, dials := [], map[], [];
      intended, torn := [], false;
      threw, lost, unsent, unwritten := {}, {}, {}, {};
    }

    method Record(event: Event, append: AppendOutcome) returns (seqNo: int)
      modifies this
      ensures Recorded(State(), seqNo) == RecordOn(old(State()), event, append)
    {
      if evidenceWriteFailed { return -1; }
      var numbered := event.(index := eventSeq, effect := None);
      ghost var asked := event.(index := eventSeq);
      eventSeq := eventSeq + 1;
      match Validated(event, numbered.index, append) {
        case Stored =>
          log, intended := log + [Good(numbered)], intended + [Good(asked)];
          return numbered.index;
        case Missed =>
        case StoredThenFailed =>
          log, intended := log + [Good(numbered)], intended + [Good(asked)];
        case Torn =>
          log, intended, torn := log + [NotJson], intended + [NotJson], true;
      }
      evidenceWriteFailed := true;
      return -1;
    }

    method HandleArrival(a: Action)
      requires a.Arrive? && a.id !in handlers
      modifies this
      ensures State() == Step(config, old(State()), a)
    {
      hide RecordOn;
      handlers := handlers[a.id := Finished];
      if evidenceWriteFailed { return; }
      if a.verdict != Allow || !a.hasTarget {
        var _ := Record(PlainEvent(a.verdict, a.hostClass, ResolutionNotAttempted), a.append);
        return;
      }
      if a.gate == TicketRefused {
        var _ := Record(PlainEvent(Allow, a.hostClass, ResolutionNotAttempted), a.append);
        return;
      }
      if a.cancelled || shuttingDown {
        var _ := Record(PlainEvent(Allow, a.hostClass, ResolutionFailed), a.append);
        return;
      }
      handlers := handlers[a.id := Resolving(Request(a.protocol, a.hostname, a.hostClass))];
    }

    method HandleResolution(a: Action)
      requires a.Resolve? && a.id in handlers && handlers[a.id].Resolving?
      modifies this
      ensures State() == Step(config, old(State()), a)
    {
      hide RecordOn;
      hide ResolveAndAdmit;
      hide DialOn;
      var h := handlers[a.id];
      handlers := handlers[a.id := Finished];
      var resolution := ResolveAndAdmit(h.request.hostname, config.environment, a.settled, config.less);
      if a.cancelled || shuttingDown || resolution.selected.None? {
        var _ := Record(LifecycleEvent(h.request, resolution, ConnectionNotAttempted, None), a.first);
        return;
      }
      JournalAndDial(a, h.request, resolution);
    }

    /** The rest of the same stretch: no await lies between the first record and the dial. */
    method JournalAndDial(a: Action, request: Request, resolution: Resolution)
      requires a.Resolve? && resolution.selected.Some?
      modifies this
      ensures State() == DialOn(old(State()), a, request, resolution)
    {
      hide RecordOn;
      hide RecordThrow;
      hide EffectIdOf;
      var decisionEffectId := EffectIdOf(eventSeq);
      var decision := BoundEvent(request, resolution, Attempted, Some(Effect(decisionEffectId, Prepared)));
      ghost var reaches := Reaches(State(), decision, a.first);
      var decisionSeq := Record(decision, a.first);
      if decisionSeq < 0 {
        if reaches { unsent := unsent + {decisionEffectId}; }
        return;
      }
      if a.throws {
        JournalThrow(request, resolution, decisionEffectId, a.second);
        return;
      }
      dials := dials + [Dial(a.id, decisionEffectId, resolution.selected.value, |log|)];
      handlers := handlers[a.id := Connecting(request, resolution, decisionEffectId)];
    }

    /** The `catch` around the dial. */
    method JournalThrow(request: Request, resolution: Resolution, decisionEffectId: string, append: AppendOutcome)
      modifies this
      ensures State() == RecordThrow(old(State()).(threw := old(threw) + {decisionEffectId}), request, resolution, decisionEffectId, append)
    {
      hide RecordOn;
      var failure := ThrownEvent(request, resolution);
      ghost var reaches := Reaches(State(), failure, append);
      threw := threw + {decisionEffectId};
      var _ := Record(failure, append);
      if !reaches { unwritten := unwritten + {decisionEffectId}; }
    }

    method HandleConnection(a: Action)
      requires a.Settle? && a.id in handlers && handlers[a.id].Connecting?
      modifies this
      ensures State() == Step(config, old(State()), a)
    {
      hide RecordOn;
      var h := handlers[a.id];
      handlers := handlers[a.id := Finished];
      var connection := if a.succeeded then Connected else ConnectionFailed;
      var event := BoundEvent(h.request, h.resolution, connection, Some(Effect(h.effectId, Terminal)));
      ghost var reaches := Reaches(State(), event, a.append);
      var recorded := Record(event, a.append);
      if !reaches { lost := lost + {h.effectId}; }
    }
  }

  // ----- what every reachable state satisfies -----

  /** Sequence numbers are positions, and a PREPARED half names the effect id of its position. */
  predicate Numbered(intended: seq<Line>) {
    forall i :: 0 <= i < |intended| && intended[i].Good? ==>
      && intended[i].event.index == i
      && (InPhase(Prepared)(intended[i].event) ==> intended[i].event.effect.value.id == EffectIdOf(i))
  }

  function Stripped(line: Line): Line {
    if line.Good? then Good(line.event.(effect := None)) else line
  }

  /** The log is the intended one without any effect. */
  predicate Strips(log: seq<Line>, intended: seq<Line>) {
    && |log| == |intended|
    && forall i :: 0 <= i < |log| ==> log[i] == Stripped(intended[i])
  }

  predicate LogInvariant(s: Server) {
    && Numbered(s.intended) && Strips(s.log, s.intended) && |s.intended| <= s.eventSeq
    && (s.torn <==> !AllGood(s.intended))
    && (!s.evidenceWriteFailed ==> !s.torn && |s.intended| == s.eventSeq)
  }

  ghost predicate IsConnecting(s: Server, id: string) {
    exists h :: h in s.handlers && s.handlers[h].Connecting? && s.handlers[h].effectId == id
  }

  /** In the intended log an effect is half recorded exactly while its handler waits, or for one of three reasons. */
  ghost predicate EffectInvariant(s: Server, id: string) {
    var phases := PhasesOf(s.intended, id);
    && InOrder(phases)
    && (phases == [Prepared] <==> id in s.threw || id in s.lost || id in s.unsent || IsConnecting(s, id))
    && (IsConnecting(s, id) ==> id !in s.threw && id !in s.lost && id !in s.unsent)
    && (phases != [] ==> exists i :: 0 <= i < |s.intended| && id == EffectIdOf(i))
  }

  predicate OneHandlerPerEffect(s: Server) {
    forall g, h :: g in s.handlers && h in s.handlers && s.handlers[g].Connecting? && s.handlers[h].Connecting? && g != h ==>
      s.handlers[g].effectId != s.handlers[h].effectId
  }

  /** The record just before a dial is the dial's own, and the address is acceptable. */
  ghost predicate DialInvariant(config: Config, s: Server, d: Dial) {
    && 0 < d.logLength <= |s.intended| && PreparesDial(s.intended[d.logLength - 1], d)
    && Acceptable(config.environment, d.target)
    && d.effectId !in s.threw && d.effectId !in s.unsent
  }

  predicate PreparesDial(line: Line, d: Dial)
    requires 0 < d.logLength
  {
    && line.Good? && line.event.effect == Some(Effect(d.effectId, Prepared))
    && d.effectId == EffectIdOf(d.logLength - 1)
    && line.event.connection == Some(Attempted) && line.event.resolution == Some(ResolutionAdmitted)
    && line.event.address == AddressOf(Some(d.target))
  }

  predicate DialsDiffer(s: Server) {
    forall i, j :: 0 <= i < j < |s.dials| ==> s.dials[i].effectId != s.dials[j].effectId
  }

  ghost predicate Invariant(config: Config, s: Server) {
    && LogInvariant(s) && OneHandlerPerEffect(s) && DialsDiffer(s)
    && (forall id :: EffectInvariant(s, id))
    && (forall i :: 0 <= i < |s.dials| ==> DialInvariant(config, s, s.dials[i]))
  }

  // ----- one record -----

  /** A PREPARED record is only made under the number that the record is about to get. */
  predicate FitsNext(s: Server, event: Event) {
    InPhase(Prepared)(event) ==> event.effect.value.id == EffectIdOf(s.eventSeq)
  }

  lemma StripsAppend(log: seq<Line>, intended: seq<Line>, line: Line)
    requires Strips(log, intended)
    ensures Strips(log + [Stripped(line)], intended + [line])
    ensures AllGood(intended + [line]) <==> AllGood(intended) && line.Good?
  {
    assert (intended + [line])[|intended|] == line;
    assert forall i :: 0 <= i < |intended| ==> (intended + [line])[i] == intended[i];
  }

  lemma RecordLog(s: Server, event: Event, append: AppendOutcome)
    requires LogInvariant(s) && FitsNext(s, event)
    ensures var r := RecordOn(s, event, append);
            && LogInvariant(r.server) && s.intended <= r.server.intended
            && (s.evidenceWriteFailed ==> r.server == s && r.seqNo == -1)
            && (r.seqNo >= 0 ==> Reaches(s, event, append) && !r.server.evidenceWriteFailed)
            && (Reaches(s, event, append) ==> r.server.intended == s.intended + [IntendedLine(event, s.eventSeq)])
  {
    hide EffectIdOf;
    StripsAppend(s.log, s.intended, IntendedLine(event, s.eventSeq));
    StripsAppend(s.log, s.intended, NotJson);
    hide Strips;
    hide AllGood;
  }

  lemma RecordPhases(s: Server, event: Event, append: AppendOutcome, id: string)
    ensures var own := if Reaches(s, event, append) then PhaseOf(Good(event), id) else [];
            PhasesOf(RecordOn(s, event, append).server.intended, id) == PhasesOf(s.intended, id) + own
  {
    var asked := IntendedLine(event, s.eventSeq);
    PhasesAppend(s.intended, asked, id);
    PhasesAppend(s.intended, NotJson, id);
    assert PhaseOf(asked, id) == PhaseOf(Good(event), id) && PhaseOf(NotJson, id) == [];
    assert PhasesOf(s.intended, id) + [] == PhasesOf(s.intended, id);
    hide PhasesOf;
    hide PhaseOf;
  }

  /** What changes from one state to the next when no effect is touched. */
  ghost predicate SameEffects(s: Server, t: Server) {
    && t.threw == s.threw && t.lost == s.lost && t.unsent == s.unsent && t.dials == s.dials
    && (forall h :: h in t.handlers && t.handlers[h].Connecting? <==> h in s.handlers && s.handlers[h].Connecting?)
    && (forall h :: h in t.handlers && t.handlers[h].Connecting? ==> t.handlers[h] == s.handlers[h])
  }

  lemma QuietStep(config: Config, s: Server, t: Server)
    requires Invariant(config, s) && SameEffects(s, t) && LogInvariant(t) && s.intended <= t.intended
    requires forall id :: PhasesOf(t.intended, id) == PhasesOf(s.intended, id)
    ensures Invariant(config, t)
  {
    hide PhasesOf;
    hide EffectIdOf;
    hide LogInvariant;
    forall id ensures EffectInvariant(t, id) {
      assert EffectInvariant(s, id);
    }
    forall i | 0 <= i < |t.dials| ensures DialInvariant(config, t, t.dials[i]) {
      DialStays(config, s, t, t.dials[i]);
    }
  }

  lemma DialStays(config: Config, s: Server, t: Server, d: Dial)
    requires DialInvariant(config, s, d) && s.intended <= t.intended
    requires d.effectId !in t.threw && d.effectId !in t.unsent
    ensures DialInvariant(config, t, d)
  {
    assert t.intended[d.logLength - 1] == s.intended[d.logLength - 1];
  }

  /** A record without effect, made by a handler that then finishes. */
  lemma PlainRecord(config: Config, s: Server, t: Server, event: Event, append: AppendOutcome)
    requires Invariant(config, s) && event.effect.None?
    requires SameEffects(s, t) && t.intended == s.intended && t.log == s.log && t.torn == s.torn && t.eventSeq == s.eventSeq && t.evidenceWriteFailed == s.evidenceWriteFailed
    ensures Invariant(config, RecordOn(t, event, append).server)
  {
    hide RecordOn;
    hide PhasesOf;
    var u := RecordOn(t, event, append).server;
    RecordLog(t, event, append);
    forall id ensures PhasesOf(u.intended, id) == PhasesOf(s.intended, id) {
      RecordPhases(t, event, append, id);
    }
    QuietStep(config, s, u);
  }

  // ----- the steps that touch an effect -----

  /** The next effect id has not been used. */
  lemma FreshId(config: Config, s: Server)
    requires Invariant(config, s)
    ensures var id := EffectIdOf(s.eventSeq);
            PhasesOf(s.intended, id) == [] && id !in s.threw && id !in s.lost && id !in s.unsent && !IsConnecting(s, id)
  {
    hide PhasesOf;
    hide EffectIdOf;
    var id := EffectIdOf(s.eventSeq);
    assert EffectInvariant(s, id);
    if PhasesOf(s.intended, id) != [] {
      var i :| 0 <= i < |s.intended| && id == EffectIdOf(i);
      EffectIdsDiffer(i, s.eventSeq);
    }
  }

  lemma DialIsJournaled(config: Config, s: Server, d: Dial)
    requires DialInvariant(config, s, d)
    ensures PhasesOf(s.intended, d.effectId) != []
  {
    var prefix := s.intended[..d.logLength];
    assert prefix[|prefix| - 1] == s.intended[d.logLength - 1];
    PrefixPhases(s.intended, d.logLength, d.effectId);
  }

  /** A handler that was not connecting takes up a fresh effect and dials under it. */
  ghost predicate OpensDial(config: Config, s: Server, t: Server, id: string, h: nat, d: Dial) {
    && t.threw == s.threw && t.unsent == s.unsent && t.lost == s.lost
    && h in s.handlers && !s.handlers[h].Connecting? && h in t.handlers
    && t.handlers[h].Connecting? && t.handlers[h].effectId == id && t.handlers == s.handlers[h := t.handlers[h]]
    && d.effectId == id && t.dials == s.dials + [d] && DialInvariant(config, t, d)
  }

  /** A fresh effect is given up in one of the two ways that leave it half recorded. */
  predicate OpensNothing(s: Server, t: Server, id: string) {
    && t.lost == s.lost && t.handlers == s.handlers && t.dials == s.dials
    && ((t.threw == s.threw + {id} && t.unsent == s.unsent) || (t.threw == s.threw && t.unsent == s.unsent + {id}))
  }

  /** Exactly the fresh effect's PREPARED record is added to the intended log. */
  ghost predicate Prepares(s: Server, t: Server, id: string) {
    && LogInvariant(t) && s.intended <= t.intended && id == EffectIdOf(s.eventSeq) && s.eventSeq < |t.intended|
    && forall x :: PhasesOf(t.intended, x) == PhasesOf(s.intended, x) + if x == id then [Prepared] else []
  }

  lemma GivenUp(config: Config, s: Server, t: Server, id: string)
    requires Invariant(config, s) && Prepares(s, t, id) && OpensNothing(s, t, id)
    ensures Invariant(config, t)
  {
    hide PhasesOf;
    hide EffectIdOf;
    hide LogInvariant;
    FreshId(config, s);
    forall x ensures EffectInvariant(t, x) {
      assert EffectInvariant(s, x);
      assert IsConnecting(t, x) <==> IsConnecting(s, x);
      if x == id {
        assert PhasesOf(t.intended, x) == [Prepared];
      }
    }
    OtherDials(config, s, t, id);
  }

  lemma Dialled(config: Config, s: Server, t: Server, id: string, h: nat, d: Dial)
    requires Invariant(config, s) && Prepares(s, t, id) && OpensDial(config, s, t, id, h, d)
    ensures Invariant(config, t)
  {
    hide PhasesOf;
    hide EffectIdOf;
    hide LogInvariant;
    hide DialInvariant;
    FreshId(config, s);
    forall x ensures EffectInvariant(t, x) {
      assert EffectInvariant(s, x);
      if x == id {
        assert PhasesOf(t.intended, x) == [Prepared];
        assert IsConnecting(t, x);
      } else {
        ConnectingAfter(s, t, h, x);
      }
    }
    forall g | g in s.handlers && s.handlers[g].Connecting? ensures s.handlers[g].effectId != id {
      assert s.handlers[g].effectId == id ==> IsConnecting(s, id);
    }
    OtherDials(config, s, t, id);
  }

  lemma OtherDials(config: Config, s: Server, t: Server, id: string)
    requires Invariant(config, s) && s.intended <= t.intended && PhasesOf(s.intended, id) == []
    requires t.threw <= s.threw + {id} && t.unsent <= s.unsent + {id}
    ensures forall i :: 0 <= i < |s.dials| ==> s.dials[i].effectId != id && DialInvariant(config, t, s.dials[i])
  {
    hide PhasesOf;
    hide EffectIdOf;
    forall i | 0 <= i < |s.dials| ensures s.dials[i].effectId != id && DialInvariant(config, t, s.dials[i]) {
      DialIsJournaled(config, s, s.dials[i]);
      DialStays(config, s, t, s.dials[i]);
    }
  }

  lemma ConnectingAfter(s: Server, t: Server, h: nat, x: string)
    requires h in t.handlers && t.handlers == s.handlers[h := t.handlers[h]]
    requires h in s.handlers ==> !(s.handlers[h].Connecting? && s.handlers[h].effectId == x)
    requires !(t.handlers[h].Connecting? && t.handlers[h].effectId == x)
    ensures IsConnecting(t, x) <==> IsConnecting(s, x)
  {
    if IsConnecting(s, x) {
      var g :| g in s.handlers && s.handlers[g].Connecting? && s.handlers[g].effectId == x;
      assert g in t.handlers && t.handlers[g] == s.handlers[g];
    }
    if IsConnecting(t, x) {
      var g :| g in t.handlers && t.handlers[g].Connecting? && t.handlers[g].effectId == x;
      assert g in s.handlers && t.handlers[g] == s.handlers[g];
    }
  }

  /** Only acceptable addresses are ever selected, whatever the resolver answers. */
  lemma SelectedIsAcceptable(hostname: string, environment: Environment, settled: Settled, less: Order)
    ensures var r := ResolveAndAdmit(hostname, environment, settled, less);
            r.selected.Some? ==>
              r.outcome == OutcomeAdmitted && r.selected.value in r.addresses && Acceptable(environment, r.selected.value)
  {
    hide Admit;
    hide Acceptable;
    hide CheckAnswer;
    hide Classify;
    var normalized := Lower(hostname);
    if Classify(normalized, None).Some? {
      var literal := Classify(normalized, None).value;
      AdmittedIsAcceptable(environment, [Record(literal.address, FamilyNumber(literal.family))], less);
    } else if normalized == "localhost" {
      AdmittedIsAcceptable(environment, [Record("127.0.0.1", 4)], less);
    } else if settled.Answers? {
      AdmittedIsAcceptable(environment, settled.answers, less);
    }
  }

  lemma AdmittedIsAcceptable(environment: Environment, answers: seq<Answer>, less: Order)
    ensures var r := Admit(environment, answers, less);
            r.Admitted? ==> r.selected in r.addresses && Acceptable(environment, r.selected)
  {
    hide Admit;
    hide Acceptable;
    hide CheckAnswer;
    AdmittedExactly(environment, answers, less);
    var r := Admit(environment, answers, less);
    if r.Admitted? {
      assert r.selected in r.addresses;
      assert HasItem(answers, r.selected);
    }
  }

  lemma DialKeeps(config: Config, s: Server, a: Action, q: Request, r: Resolution)
    requires Invariant(config, s) && a.Resolve? && a.id in s.handlers && s.handlers[a.id] == Finished
    requires r.selected.Some? && r.outcome == OutcomeAdmitted && Acceptable(config.environment, r.selected.value)
    ensures Invariant(config, DialOn(s, a, q, r))
  {
    hide RecordOn;
    hide PhasesOf;
    hide EffectIdOf;
    hide Acceptable;
    var id := EffectIdOf(s.eventSeq);
    var event := BoundEvent(q, r, Attempted, Some(Effect(id, Prepared)));
    var prepared := RecordOn(s, event, a.first);
    var t := DialOn(s, a, q, r);
    RecordLog(s, event, a.first);
    forall x ensures PhasesOf(prepared.server.intended, x) ==
                     PhasesOf(s.intended, x) + if Reaches(s, event, a.first) && x == id then [Prepared] else [] {
      RecordPhases(s, event, a.first, x);
    }
    if !Reaches(s, event, a.first) {
      NoPhaseAdded(s, t);
      QuietStep(config, s, t);
    } else if prepared.seqNo < 0 {
      GivenUp(config, s, t, id);
    } else if a.throws {
      var u := prepared.server.(threw := s.threw + {id});
      GivenUp(config, s, u, id);
      PlainRecord(config, u, u, ThrownEvent(q, r), a.second);
      QuietStep(config, RecordOn(u, ThrownEvent(q, r), a.second).server, t);
    } else {
      var d := t.dials[|t.dials| - 1];
      assert PreparesDial(t.intended[s.eventSeq], d);
      FreshId(config, s);
      Dialled(config, s, t, id, a.id, d);
    }
  }

  lemma NoPhaseAdded(s: Server, t: Server)
    requires forall x :: PhasesOf(t.intended, x) == PhasesOf(s.intended, x) + []
    ensures forall x :: PhasesOf(t.intended, x) == PhasesOf(s.intended, x)
  {
  }

  lemma ArriveKeeps(config: Config, s: Server, a: Action)
    requires Invariant(config, s) && a.Arrive? && a.id !in s.handlers
    ensures Invariant(config, ArriveOn(s, a))
  {
    hide RecordOn;
    hide PhasesOf;
    hide Invariant;
    var t := ArriveOn(s, a);
    var finished := s.(handlers := s.handlers[a.id := Finished]);
    if s.evidenceWriteFailed || (a.verdict == Allow && a.hasTarget && a.gate == Pass && !a.cancelled && !s.shuttingDown) {
      LogOf(config, s);
      QuietStep(config, s, t);
    } else if a.verdict != Allow || !a.hasTarget {
      PlainRecord(config, s, finished, PlainEvent(a.verdict, a.hostClass, ResolutionNotAttempted), a.append);
    } else if a.gate == TicketRefused {
      PlainRecord(config, s, finished, PlainEvent(Allow, a.hostClass, ResolutionNotAttempted), a.append);
    } else {
      PlainRecord(config, s, finished, PlainEvent(Allow, a.hostClass, ResolutionFailed), a.append);
    }
  }

  lemma LogOf(config: Config, s: Server)
    requires Invariant(config, s)
    ensures LogInvariant(s)
  {
  }

  lemma ResolveKeeps(config: Config, s: Server, a: Action)
    requires Invariant(config, s)
    requires a.Resolve? && a.id in s.handlers && s.handlers[a.id].Resolving?
    ensures Invariant(config, ResolveOn(config, s, a))
  {
    hide RecordOn;
    hide PhasesOf;
    hide Invariant;
    hide ResolveAndAdmit;
    hide DialOn;
    hide Acceptable;
    var h := s.handlers[a.id];
    var finished := s.(handlers := s.handlers[a.id := Finished]);
    var r := ResolveAndAdmit(h.request.hostname, config.environment, a.settled, config.less);
    SelectedIsAcceptable(h.request.hostname, config.environment, a.settled, config.less);
    if a.cancelled || s.shuttingDown || r.selected.None? {
      PlainRecord(config, s, finished, LifecycleEvent(h.request, r, ConnectionNotAttempted, None), a.first);
    } else {
      LogOf(config, s);
      QuietStep(config, s, finished);
      DialKeeps(config, finished, a, h.request, r);
    }
  }

  lemma SettleKeeps(config: Config, s: Server, a: Action)
    requires Invariant(config, s) && a.Settle? && a.id in s.handlers && s.handlers[a.id].Connecting?
    ensures Invariant(config, SettleOn(s, a))
  {
    hide RecordOn;
    hide PhasesOf;
    hide EffectIdOf;
    var t := SettleOn(s, a);
    var id := s.handlers[a.id].effectId;
    var finished := s.(handlers := s.handlers[a.id := Finished]);
    var connection := if a.succeeded then Connected else ConnectionFailed;
    var event := BoundEvent(s.handlers[a.id].request, s.handlers[a.id].resolution, connection, Some(Effect(id, Terminal)));
    RecordLog(finished, event, a.append);
    assert IsConnecting(s, id);
    forall x ensures EffectInvariant(t, x) {
      assert EffectInvariant(s, x);
      RecordPhases(finished, event, a.append, x);
      if x != id {
        assert PhasesOf(t.intended, x) == PhasesOf(s.intended, x);
        ConnectingAfter(s, t, a.id, x);
      } else {
        assert !IsConnecting(t, id);
        assert PhasesOf(t.intended, id) == [Prepared] + if Reaches(s, event, a.append) then [Terminal] else [];
      }
    }
    forall i | 0 <= i < |t.dials| ensures DialInvariant(config, t, t.dials[i]) {
      DialStays(config, s, t, t.dials[i]);
    }
  }

  lemma StepKeeps(config: Config, s: Server, a: Action)
    requires Invariant(config, s)
    ensures Invariant(config, Step(config, s, a))
  {
    hide Invariant;
    hide ArriveOn;
    hide ResolveOn;
    hide SettleOn;
    match a
    case Arrive(_, _, _, _, _, _, _, _, _) => if a.id !in s.handlers { ArriveKeeps(config, s, a); }
    case Resolve(_, _, _, _, _, _) => if a.id in s.handlers && s.handlers[a.id].Resolving? { ResolveKeeps(config, s, a); }
    case Settle(_, _, _) => if a.id in s.handlers && s.handlers[a.id].Connecting? { SettleKeeps(config, s, a); }
    case Close =>
      LogOf(config, s);
      QuietStep(config, s, Step(config, s, a));
  }

  lemma {:induction false} RunKeeps(config: Config, actions: seq<Action>)
    ensures Invariant(config, Run(config, actions))
  {
    hide Invariant;
    hide Step;
    if actions == [] {
      StartHolds(config);
    } else {
      RunKeeps(config, actions[..|actions| - 1]);
      StepKeeps(config, Run(config, actions[..|actions| - 1]), actions[|actions| - 1]);
    }
  }

  lemma StartHolds(config: Config)
    ensures Invariant(config, Start)
  {
  }

  // ----- the log only grows, and nothing follows an evidence failure -----

  ghost predicate Grows(s: Server, t: Server) {
    && s.log <= t.log && s.intended <= t.intended && s.dials <= t.dials
    && (s.evidenceWriteFailed ==> t.evidenceWriteFailed && t.log == s.log && t.dials == s.dials)
  }

  lemma RecordGrows(s: Server, event: Event, append: AppendOutcome)
    ensures Grows(s, RecordOn(s, event, append).server)
    ensures s.evidenceWriteFailed ==> RecordOn(s, event, append) == Recorded(s, -1)
  {
  }

  lemma DialOnGrows(s: Server, a: Action, q: Request, r: Resolution)
    requires a.Resolve? && r.selected.Some?
    ensures Grows(s, DialOn(s, a, q, r))
  {
    hide EffectIdOf;
    hide RecordOn;
    var event := BoundEvent(q, r, Attempted, Some(Effect(EffectIdOf(s.eventSeq), Prepared)));
    RecordGrows(s, event, a.first);
    var thrown := RecordOn(s, event, a.first).server.(threw := s.threw + {EffectIdOf(s.eventSeq)});
    RecordGrows(thrown, ThrownEvent(q, r), a.second);
  }

  /** Nothing that was appended or dialled is taken back; after a failed append nothing is added either. */
  lemma StepGrows(config: Config, s: Server, a: Action)
    ensures Grows(s, Step(config, s, a))
  {
    hide RecordOn;
    hide EffectIdOf;
    hide ResolveAndAdmit;
    hide DialOn;
    if a.Resolve? && a.id in s.handlers && s.handlers[a.id].Resolving? {
      var finished := s.(handlers := s.handlers[a.id := Finished]);
      var r := ResolveAndAdmit(s.handlers[a.id].request.hostname, config.environment, a.settled, config.less);
      if r.selected.Some? { DialOnGrows(finished, a, s.handlers[a.id].request, r); }
    }
    forall u: Server, event, append ensures Grows(u, RecordOn(u, event, append).server) {
      RecordGrows(u, event, append);
    }
  }

  lemma {:induction false} RunGrows(config: Config, actions: seq<Action>, more: seq<Action>)
    ensures Grows(Run(config, actions), Run(config, actions + more))
  {
    hide Step;
    if more == [] {
      assert actions + more == actions;
    } else {
      var all, front := actions + more, more[..|more| - 1];
      assert all[..|all| - 1] == actions + front;
      RunGrows(config, actions, front);
      StepGrows(config, Run(config, actions + front), all[|all| - 1]);
    }
  }

  // ----- every outcome belongs to a dial before it -----

  /** The dial of this effect: it went to an address with these facts before the line at `position` was written. */
  predicate Precedes(d: Dial, id: string, address: Option<Bound>, position: nat) {
    d.effectId == id && AddressOf(Some(d.target)) == address && d.logLength <= position
  }

  predicate DialledBefore(dials: seq<Dial>, id: string, address: Option<Bound>, position: nat) {
    exists i :: 0 <= i < |dials| && Precedes(dials[i], id, address, position)
  }

  predicate IsTerminal(line: Line) {
    line.Good? && InPhase(Terminal)(line.event)
  }

  predicate TerminalDialled(dials: seq<Dial>, line: Line, position: nat) {
    IsTerminal(line) ==> DialledBefore(dials, line.event.effect.value.id, line.event.address, position)
  }

  predicate ConnectingDialled(dials: seq<Dial>, h: Handler, position: nat) {
    h.Connecting? ==> DialledBefore(dials, h.effectId, AddressOf(h.resolution.selected), position)
  }

  predicate TerminalsDialled(s: Server) {
    && |s.log| == |s.intended|
    && (forall p :: 0 <= p < |s.intended| ==> TerminalDialled(s.dials, s.intended[p], p))
    && (forall h :: h in s.handlers ==> ConnectingDialled(s.dials, s.handlers[h], |s.intended|))
  }

  lemma DialledStays(dials: seq<Dial>, more: seq<Dial>, id: string, address: Option<Bound>, position: nat, later: nat)
    requires DialledBefore(dials, id, address, position) && dials <= more && position <= later
    ensures DialledBefore(more, id, address, later)
  {
    var i :| 0 <= i < |dials| && Precedes(dials[i], id, address, position);
    assert more[i] == dials[i];
  }

  lemma RecordDialled(s: Server, event: Event, append: AppendOutcome)
    requires TerminalsDialled(s)
    requires TerminalDialled(s.dials, Good(event), |s.intended|)
    ensures TerminalsDialled(RecordOn(s, event, append).server)
  {
    var t := RecordOn(s, event, append).server;
    hide DialledBefore;
    forall h | h in t.handlers ensures ConnectingDialled(t.dials, t.handlers[h], |t.intended|) {
      assert ConnectingDialled(s.dials, s.handlers[h], |s.intended|);
      if t.handlers[h].Connecting? {
        DialledStays(s.dials, t.dials, t.handlers[h].effectId, AddressOf(t.handlers[h].resolution.selected), |s.intended|, |t.intended|);
      }
    }
  }

  /** Adding a dial and the handler that waits for it. */
  lemma DialAdded(s: Server, t: Server, h: nat)
    requires TerminalsDialled(s) && t.intended == s.intended && s.dials <= t.dials
    requires h in t.handlers && t.handlers == s.handlers[h := t.handlers[h]]
    requires |t.log| == |t.intended|
    requires ConnectingDialled(t.dials, t.handlers[h], |t.intended|)
    ensures TerminalsDialled(t)
  {
    forall id, address, p: nat | DialledBefore(s.dials, id, address, p) ensures DialledBefore(t.dials, id, address, p) {
      DialledStays(s.dials, t.dials, id, address, p, p);
    }
    hide DialledBefore;
    forall g | g in t.handlers ensures ConnectingDialled(t.dials, t.handlers[g], |t.intended|) {
      if g != h { assert ConnectingDialled(s.dials, s.handlers[g], |s.intended|); }
    }
    forall p | 0 <= p < |t.intended| ensures TerminalDialled(t.dials, t.intended[p], p) {
      assert TerminalDialled(s.dials, s.intended[p], p);
    }
  }

  lemma DialOnDialled(s: Server, a: Action, q: Request, r: Resolution)
    requires TerminalsDialled(s) && a.Resolve? && r.selected.Some?
    ensures TerminalsDialled(DialOn(s, a, q, r))
  {
    hide EffectIdOf;
    hide DialledBefore;
    hide RecordOn;
    var id := EffectIdOf(s.eventSeq);
    var event := BoundEvent(q, r, Attempted, Some(Effect(id, Prepared)));
    var prepared := RecordOn(s, event, a.first);
    RecordDialled(s, event, a.first);
    var t := DialOn(s, a, q, r);
    if prepared.seqNo >= 0 && a.throws {
      RecordDialled(prepared.server.(threw := s.threw + {id}), ThrownEvent(q, r), a.second);
    } else if prepared.seqNo >= 0 {
      assert Precedes(t.dials[|s.dials|], id, AddressOf(r.selected), |t.intended|);
      OwnDialled(t.dials, |s.dials|, id, AddressOf(r.selected), |t.intended|);
      DialAdded(prepared.server, t, a.id);
    }
  }

  lemma OwnDialled(dials: seq<Dial>, i: nat, id: string, address: Option<Bound>, position: nat)
    requires i < |dials| && Precedes(dials[i], id, address, position)
    ensures DialledBefore(dials, id, address, position)
  {
  }

  lemma StepDialled(config: Config, s: Server, a: Action)
    requires TerminalsDialled(s)
    ensures TerminalsDialled(Step(config, s, a))
  {
    hide EffectIdOf;
    hide ResolveAndAdmit;
    hide DialledBefore;
    hide DialOn;
    match a
    case Arrive(_, _, _, _, _, _, _, _, _) =>
      if a.id !in s.handlers {
        var finished := s.(handlers := s.handlers[a.id := Finished]);
        RecordDialled(finished, PlainEvent(a.verdict, a.hostClass, ResolutionNotAttempted), a.append);
        RecordDialled(finished, PlainEvent(Allow, a.hostClass, ResolutionNotAttempted), a.append);
        RecordDialled(finished, PlainEvent(Allow, a.hostClass, ResolutionFailed), a.append);
        hide RecordOn;
      }
    case Resolve(_, _, _, _, _, _) =>
      if a.id in s.handlers && s.handlers[a.id].Resolving? {
        var finished := s.(handlers := s.handlers[a.id := Finished]);
        var r := ResolveAndAdmit(s.handlers[a.id].request.hostname, config.environment, a.settled, config.less);
        RecordDialled(finished, LifecycleEvent(s.handlers[a.id].request, r, ConnectionNotAttempted, None), a.first);
        if r.selected.Some? { DialOnDialled(finished, a, s.handlers[a.id].request, r); }
        hide RecordOn;
      }
    case Settle(_, _, _) =>
      if a.id in s.handlers && s.handlers[a.id].Connecting? {
        var h := s.handlers[a.id];
        var finished := s.(handlers := s.handlers[a.id := Finished]);
        var connection := if a.succeeded then Connected else ConnectionFailed;
        RecordDialled(finished, BoundEvent(h.request, h.resolution, connection, Some(Effect(h.effectId, Terminal))), a.append);
        hide RecordOn;
      }
    case Close =>
  }

  lemma {:induction false} RunDialled(config: Config, actions: seq<Action>)
    ensures TerminalsDialled(Run(config, actions))
  {
    hide Step;
    if actions != [] {
      hide TerminalsDialled;
      RunDialled(config, actions[..|actions| - 1]);
      StepDialled(config, Run(config, actions[..|actions| - 1]), actions[|actions| - 1]);
    }
  }

  // ----- every dial belongs to its own handler's admission -----

  /**
    Action `k` starts the handler for this request: it was allowed, has a target and its ticket, was not
    cancelled, and found the server neither shutting down nor without evidence.
   */
  predicate StartsFor(config: Config, actions: seq<Action>, k: nat, handler: nat, q: Request) {
    && k < |actions| && Starts(Run(config, actions[..k]), actions[k], handler, q)
  }

  predicate Starts(s: Server, a: Action, handler: nat, q: Request) {
    && a.Arrive? && a.id == handler && handler !in s.handlers
    && q == Request(a.protocol, a.hostname, a.hostClass)
    && a.verdict == Allow && a.hasTarget && a.gate == Pass
    && !a.cancelled && !s.shuttingDown && !s.evidenceWriteFailed
  }

  /** The state in which action `k` finds its handler waiting for the resolver, and what it admits. */
  predicate WaitsAt(config: Config, actions: seq<Action>, k: nat, handler: nat) {
    && k < |actions| && actions[k].Resolve? && actions[k].id == handler
    && handler in Run(config, actions[..k]).handlers && Run(config, actions[..k]).handlers[handler].Resolving?
  }

  function AdmittedAt(config: Config, actions: seq<Action>, k: nat, handler: nat): Resolution
    requires WaitsAt(config, actions, k, handler)
  {
    ResolveAndAdmit(Run(config, actions[..k]).handlers[handler].request.hostname, config.environment, actions[k].settled, config.less)
  }

  /**
    Action `k` makes the dial: not cancelled and not during the shutdown, it resumes the dial's own handler, dials the address its own admission
    selected, and just before writes the `attempted` record with that address as the next line of the
    log, whose number is the one in the effect id that the record does not carry.
   */
  predicate MakesDial(config: Config, actions: seq<Action>, k: nat, d: Dial, log: seq<Line>) {
    && WaitsAt(config, actions, k, d.handler)
    && var s := Run(config, actions[..k]);
    && var r := AdmittedAt(config, actions, k, d.handler);
    && r.selected == Some(d.target) && !actions[k].cancelled && !s.shuttingDown && !s.evidenceWriteFailed
    && d.effectId == EffectIdOf(|s.log|) && d.logLength == |s.log| + 1 && |s.log| < |log|
    && log[|s.log|] == WrittenLine(BoundEvent(s.handlers[d.handler].request, r, Attempted, None), |s.log|)
  }

  /** Action `k` makes the dial, and action `k0` before it started the same handler for the same host. */
  predicate OwnDial(config: Config, actions: seq<Action>, k: nat, k0: nat, d: Dial, log: seq<Line>) {
    && MakesDial(config, actions, k, d, log)
    && k0 < k && StartsFor(config, actions, k0, d.handler, Run(config, actions[..k]).handlers[d.handler].request)
  }

  lemma {:induction false} WaitingHandlerArrived(config: Config, actions: seq<Action>, handler: nat)
    requires handler in Run(config, actions).handlers && Run(config, actions).handlers[handler].Resolving?
    ensures exists k: nat :: StartsFor(config, actions, k, handler, Run(config, actions).handlers[handler].request)
  {
    var front, a := actions[..|actions| - 1], actions[|actions| - 1];
    var s := Run(config, front);
    StepResolving(config, s, a, handler);
    hide Step;
    if handler in s.handlers && s.handlers[handler].Resolving? {
      WaitingHandlerArrived(config, front, handler);
      var k: nat :| StartsFor(config, front, k, handler, s.handlers[handler].request);
      assert actions[..k] == front[..k];
      assert StartsFor(config, actions, k, handler, s.handlers[handler].request);
    } else {
      assert StartsFor(config, actions, |actions| - 1, handler, Run(config, actions).handlers[handler].request);
    }
  }

  lemma StepResolving(config: Config, s: Server, a: Action, handler: nat)
    requires handler in Step(config, s, a).handlers && Step(config, s, a).handlers[handler].Resolving?
    ensures var t := Step(config, s, a);
            || (handler in s.handlers && s.handlers[handler] == t.handlers[handler])
            || Starts(s, a, handler, t.handlers[handler].request)
  {
    hide RecordOn;
    hide EffectIdOf;
    hide ResolveAndAdmit;
  }

  /** A step that dials is a resolution, and what it appends and dials is one admission's. */
  lemma StepMakesDial(config: Config, s: Server, a: Action)
    requires |Step(config, s, a).dials| > |s.dials|
    ensures a.Resolve? && a.id in s.handlers && s.handlers[a.id].Resolving? && !s.evidenceWriteFailed
    ensures !a.cancelled && !s.shuttingDown
    ensures var r := ResolveAndAdmit(s.handlers[a.id].request.hostname, config.environment, a.settled, config.less);
            var id := EffectIdOf(s.eventSeq);
            && r.selected.Some?
            && Step(config, s, a).dials == s.dials + [Dial(a.id, id, r.selected.value, |s.log| + 1)]
            && Step(config, s, a).log == s.log + [WrittenLine(BoundEvent(s.handlers[a.id].request, r, Attempted, None), s.eventSeq)]
  {
    hide EffectIdOf;
    hide ResolveAndAdmit;
  }

  /** One more action leaves the origin of a dial where it was. */
  lemma OriginStays(config: Config, actions: seq<Action>, k: nat, k0: nat, d: Dial)
    requires actions != []
    requires var front := actions[..|actions| - 1];
             OwnDial(config, front, k, k0, d, Run(config, front).log)
    ensures OwnDial(config, actions, k, k0, d, Run(config, actions).log)
  {
    var front := actions[..|actions| - 1];
    assert actions[..k] == front[..k] && actions[..k0] == front[..k0];
    StepGrows(config, Run(config, front), actions[|actions| - 1]);
    hide Step;
    hide EffectIdOf;
    hide ResolveAndAdmit;
    var n := |Run(config, front[..k]).log|;
    assert Run(config, actions).log[n] == Run(config, front).log[n];
    hide Run;
  }

  lemma LastWaits(config: Config, actions: seq<Action>)
    requires actions != []
    requires |Run(config, actions[..|actions| - 1]).dials| < |Run(config, actions).dials|
    ensures WaitsAt(config, actions, |actions| - 1, actions[|actions| - 1].id)
  {
    StepMakesDial(config, Run(config, actions[..|actions| - 1]), actions[|actions| - 1]);
    hide Step;
  }

  /** The action that adds a dial is its origin, and its handler arrived before. */
  lemma LastMakesDial(config: Config, actions: seq<Action>, k: nat, k0: nat)
    requires |actions| == k + 1 && |Run(config, actions[..k]).dials| < |Run(config, actions).dials|
    requires WaitsAt(config, actions, k, actions[k].id)
    requires StartsFor(config, actions[..k], k0, actions[k].id, Run(config, actions[..k]).handlers[actions[k].id].request)
    ensures |Run(config, actions).dials| == |Run(config, actions[..k]).dials| + 1
    ensures OwnDial(config, actions, k, k0, Run(config, actions).dials[|Run(config, actions).dials| - 1], Run(config, actions).log)
  {
    var s := Run(config, actions[..k]);
    StepMakesDial(config, s, actions[k]);
    hide Step;
    hide EffectIdOf;
    hide ResolveAndAdmit;
    RunKeeps(config, actions[..k]);
    LogOf(config, s);
    hide Invariant;
    assert actions[..k0] == actions[..k][..k0];
  }

  lemma NothingDialledAtFirst(config: Config, actions: seq<Action>)
    ensures actions == [] ==> Run(config, actions).dials == []
  {
  }

  lemma LastStepDials(config: Config, actions: seq<Action>)
    requires actions != []
    ensures Run(config, actions[..|actions| - 1]).dials <= Run(config, actions).dials
  {
    hide Step;
    StepGrows(config, Run(config, actions[..|actions| - 1]), actions[|actions| - 1]);
  }

  /** A dial that belongs to one resolution by its own handler, started by one arrival before. */
  ghost predicate HasOrigin(config: Config, actions: seq<Action>, d: Dial) {
    exists k: nat, k0: nat :: OwnDial(config, actions, k, k0, d, Run(config, actions).log)
  }

  lemma LastDialHasOrigin(config: Config, actions: seq<Action>)
    requires actions != []
    requires |Run(config, actions[..|actions| - 1]).dials| < |Run(config, actions).dials|
    ensures |Run(config, actions).dials| == |Run(config, actions[..|actions| - 1]).dials| + 1
    ensures HasOrigin(config, actions, Run(config, actions).dials[|Run(config, actions).dials| - 1])
  {
    hide Run;
    hide OwnDial;
    hide StartsFor;
    var front, a := actions[..|actions| - 1], actions[|actions| - 1];
    LastWaits(config, actions);
    WaitingHandlerArrived(config, front, a.id);
    var k0: nat :| StartsFor(config, front, k0, a.id, Run(config, front).handlers[a.id].request);
    LastMakesDial(config, actions, |front|, k0);
  }

  lemma OriginKept(config: Config, actions: seq<Action>, d: Dial)
    requires actions != [] && HasOrigin(config, actions[..|actions| - 1], d)
    ensures HasOrigin(config, actions, d)
  {
    var front := actions[..|actions| - 1];
    hide OwnDial;
    hide Run;
    var k: nat, k0: nat :| OwnDial(config, front, k, k0, d, Run(config, front).log);
    OriginStays(config, actions, k, k0, d);
  }

  /**
    Every dial goes to the address that the admission of its own handler's host selected: one action
    started that handler for the host, a later one resolved exactly this host and made both the
    `attempted` record with the selected family and class, as the line just before, and the dial.
   */
  lemma {:induction false} DialsAreOwn(config: Config, actions: seq<Action>, i: nat)
    requires i < |Run(config, actions).dials|
    ensures HasOrigin(config, actions, Run(config, actions).dials[i])
  {
    hide HasOrigin;
    NothingDialledAtFirst(config, actions);
    hide Run;
    var front := actions[..|actions| - 1];
    LastStepDials(config, actions);
    if i < |Run(config, front).dials| {
      DialsAreOwn(config, front, i);
      assert Run(config, front).dials[i] == Run(config, actions).dials[i];
      OriginKept(config, actions, Run(config, front).dials[i]);
    } else {
      LastDialHasOrigin(config, actions);
    }
  }

  // ----- what a record says and what its caller names -----

  /** How the connection field of a record goes with the effect its caller names; a record of a thrown dial names none. */
  predicate ConnectionMatchesEffect(event: Event) {
    match event.effect
    case Some(effect) =>
      if effect.phase == Prepared then event.connection == Some(Attempted)
      else (event.connection == Some(Connected) || event.connection == Some(ConnectionFailed)) && event.violation.None?
    case None =>
      || event.connection == Some(ConnectionNotAttempted)
      || (event.connection == Some(ConnectionFailed) && event.violation == Some(AddressBindingViolation))
  }

  predicate ConnectionsMatch(s: Server) {
    && (forall i :: 0 <= i < |s.intended| && s.intended[i].Good? ==> ConnectionMatchesEffect(s.intended[i].event))
    && (forall h :: h in s.handlers && s.handlers[h].Connecting? ==> s.handlers[h].resolution.outcome == OutcomeAdmitted)
  }

  lemma RecordMatches(s: Server, event: Event, append: AppendOutcome)
    requires ConnectionsMatch(s) && ConnectionMatchesEffect(event)
    ensures ConnectionsMatch(RecordOn(s, event, append).server)
  {
  }

  lemma DialOnMatches(s: Server, a: Action, q: Request, r: Resolution)
    requires ConnectionsMatch(s) && a.Resolve? && r.selected.Some? && r.outcome == OutcomeAdmitted
    ensures ConnectionsMatch(DialOn(s, a, q, r))
  {
    hide EffectIdOf;
    hide RecordOn;
    var id := EffectIdOf(s.eventSeq);
    var event := BoundEvent(q, r, Attempted, Some(Effect(id, Prepared)));
    RecordMatches(s, event, a.first);
    var prepared := RecordOn(s, event, a.first);
    if prepared.seqNo >= 0 {
      if a.throws {
        var thrown := prepared.server.(threw := s.threw + {id});
        assert ConnectionsMatch(thrown);
        RecordMatches(thrown, ThrownEvent(q, r), a.second);
      }
      hide ConnectionMatchesEffect;
      hide BoundEvent;
    }
  }

  lemma StepMatches(config: Config, s: Server, a: Action)
    requires ConnectionsMatch(s)
    ensures ConnectionsMatch(Step(config, s, a))
  {
    hide RecordOn;
    hide EffectIdOf;
    hide ResolveAndAdmit;
    hide Acceptable;
    hide DialOn;
    if a.Resolve? && a.id in s.handlers && s.handlers[a.id].Resolving? {
      SelectedIsAcceptable(s.handlers[a.id].request.hostname, config.environment, a.settled, config.less);
      var finished := s.(handlers := s.handlers[a.id := Finished]);
      var r := ResolveAndAdmit(s.handlers[a.id].request.hostname, config.environment, a.settled, config.less);
      if r.selected.Some? { DialOnMatches(finished, a, s.handlers[a.id].request, r); }
    }
    forall u: Server, event, append | ConnectionsMatch(u) && ConnectionMatchesEffect(event)
      ensures ConnectionsMatch(RecordOn(u, event, append).server)
    {
      RecordMatches(u, event, append);
    }
  }

  lemma {:induction false} RunMatches(config: Config, actions: seq<Action>)
    ensures ConnectionsMatch(Run(config, actions))
  {
    hide Step;
    if actions != [] {
      RunMatches(config, actions[..|actions| - 1]);
      StepMatches(config, Run(config, actions[..|actions| - 1]), actions[|actions| - 1]);
    }
  }

  // ----- the main results -----

  /** The record of the dial: the line just before it, numbered as in the dial's effect id. */
  predicate AttemptOf(line: Line, d: Dial) {
    && 0 < d.logLength && d.effectId == EffectIdOf(d.logLength - 1)
    && line.Good? && line.event.index == d.logLength - 1
    && line.event.connection == Some(Attempted) && line.event.resolution == Some(ResolutionAdmitted)
    && line.event.address == AddressOf(Some(d.target))
  }

  /** A record that says how a dialled connection went; the failure record of a thrown dial is a violation. */
  predicate IsOutcome(line: Line) {
    && line.Good? && line.event.violation.None?
    && (line.event.connection == Some(Connected) || line.event.connection == Some(ConnectionFailed))
  }

  /** The effect that the caller of `record` named for the line at `p`, which the line does not carry. */
  predicate Named(s: Server, p: nat, effect: Effect) {
    p < |s.intended| && s.intended[p].Good? && s.intended[p].event.effect == Some(effect)
  }

  /** The line at `p` is the outcome of this dial. */
  predicate OutcomeOfDial(s: Server, p: nat, d: Dial) {
    && p < |s.log| && IsOutcome(s.log[p]) && Named(s, p, Effect(d.effectId, Terminal))
    && d.logLength <= p && s.log[p].event.address == AddressOf(Some(d.target))
  }

  predicate HasDial(s: Server, p: nat) {
    exists i :: 0 <= i < |s.dials| && OutcomeOfDial(s, p, s.dials[i])
  }

  /** Every dial has the line just before it to itself and goes to an accepted address. */
  predicate DialsJournaled(config: Config, s: Server) {
    && (forall i :: 0 <= i < |s.dials| ==>
         && 0 < s.dials[i].logLength <= |s.log| && AttemptOf(s.log[s.dials[i].logLength - 1], s.dials[i])
         && Acceptable(config.environment, s.dials[i].target))
    && (forall i, j :: 0 <= i < j < |s.dials| ==> s.dials[i].logLength != s.dials[j].logLength)
  }

  /** Every outcome record is that of one dial made before it, and no dial has two. */
  predicate OutcomesDialled(s: Server) {
    && (forall p :: 0 <= p < |s.log| && IsOutcome(s.log[p]) ==> HasDial(s, p))
    && (forall p, q, i :: 0 <= i < |s.dials| && 0 <= p < q < |s.log| && OutcomeOfDial(s, p, s.dials[i]) ==>
         !OutcomeOfDial(s, q, s.dials[i]))
  }

  /**
    In every reachable state of any number of interleaved handlers: log entry i has sequence number
    i and no effect, every dial follows an `attempted` record of its own, the line just before it
    with the number that the dial's effect id holds, and goes to an address that the policy accepts;
    every outcome record follows the one dial it belongs to, with that dial's address facts, and no
    dial has two outcome records.
   */
  lemma JournalIsSafe(config: Config, actions: seq<Action>)
    ensures var s := Run(config, actions);
            && (forall i :: 0 <= i < |s.log| && s.log[i].Good? ==> s.log[i].event.index == i && s.log[i].event.effect.None?)
            && DialsJournaled(config, s)
            && OutcomesDialled(s)
  {
    hide EffectIdOf;
    hide PhasesOf;
    hide Run;
    hide Acceptable;
    hide OutcomesDialled;
    RunKeeps(config, actions);
    var s := Run(config, actions);
    forall i | 0 <= i < |s.dials|
      ensures 0 < s.dials[i].logLength <= |s.log| && AttemptOf(s.log[s.dials[i].logLength - 1], s.dials[i])
    {
      assert DialInvariant(config, s, s.dials[i]);
      assert s.log[s.dials[i].logLength - 1] == Stripped(s.intended[s.dials[i].logLength - 1]);
    }
    JournalOutcomes(config, actions);
  }

  lemma JournalOutcomes(config: Config, actions: seq<Action>)
    ensures OutcomesDialled(Run(config, actions))
  {
    hide EffectIdOf;
    hide PhasesOf;
    hide Run;
    RunKeeps(config, actions);
    RunMatches(config, actions);
    RunDialled(config, actions);
    var s := Run(config, actions);
    forall p | 0 <= p < |s.log| && IsOutcome(s.log[p]) ensures HasDial(s, p) {
      OutcomeHasDial(s, p);
    }
    forall p, q, i | 0 <= i < |s.dials| && 0 <= p < q < |s.log| && OutcomeOfDial(s, p, s.dials[i])
      ensures !OutcomeOfDial(s, q, s.dials[i])
    {
      if OutcomeOfDial(s, q, s.dials[i]) {
        var id := s.dials[i].effectId;
        assert EffectInvariant(s, id);
        TerminatedTwice(s.intended, p, q, id);
      }
    }
  }

  lemma OutcomeHasDial(s: Server, p: nat)
    requires LogInvariant(s) && ConnectionsMatch(s) && TerminalsDialled(s)
    requires p < |s.log| && IsOutcome(s.log[p])
    ensures HasDial(s, p)
  {
    hide EffectIdOf;
    assert s.log[p] == Stripped(s.intended[p]);
    var event := s.intended[p].event;
    assert ConnectionMatchesEffect(event);
    assert TerminalDialled(s.dials, s.intended[p], p);
    var i :| 0 <= i < |s.dials| && Precedes(s.dials[i], event.effect.value.id, event.address, p);
    assert OutcomeOfDial(s, p, s.dials[i]);
  }

  /** Two TERMINAL records of one effect are out of order. */
  lemma TerminatedTwice(lines: seq<Line>, p: nat, q: nat, id: string)
    requires p < q < |lines|
    requires PhaseOf(lines[p], id) == [Terminal] && PhaseOf(lines[q], id) == [Terminal]
    ensures !InOrder(PhasesOf(lines, id))
  {
    hide PhasesOf;
    hide PhaseOf;
    hide InOrder;
    LastPhase(lines, p, id);
    LastPhase(lines, q, id);
    PrefixPhases(lines, q + 1, id);
    assert lines[..q][..p + 1] == lines[..p + 1];
    PrefixPhases(lines[..q], p + 1, id);
    TerminalTwice(PhasesOf(lines[..p], id), PhasesOf(lines[..q], id), PhasesOf(lines, id));
  }

  lemma TerminalTwice(first: seq<Phase>, second: seq<Phase>, all: seq<Phase>)
    requires first + [Terminal] <= second && second + [Terminal] <= all
    ensures !InOrder(all)
  {
    assert (first + [Terminal])[|first|] == Terminal == second[|first|];
    assert (second + [Terminal])[|second|] == Terminal == all[|second|];
    assert all[|first|] == (second + [Terminal])[|first|] == Terminal;
  }

  lemma LastPhase(lines: seq<Line>, p: nat, id: string)
    requires p < |lines|
    ensures PhasesOf(lines[..p + 1], id) == PhasesOf(lines[..p], id) + PhaseOf(lines[p], id)
  {
    assert lines[..p + 1] == lines[..p] + [lines[p]];
    PhasesAppend(lines[..p], lines[p], id);
  }

  // ----- what the log would have shown with both fields -----

  predicate IsPrepared(line: Line) {
    line.Good? && InPhase(Prepared)(line.event)
  }

  function IdIn(line: Line): string
    requires IsPrepared(line)
  {
    line.event.effect.value.id
  }

  /**
    The records as their callers meant them: no two PREPARED ones share an id, each effect has at
    most one TERMINAL, which comes after its PREPARED and its dial, and no effect is dialled twice.
   */
  lemma IntendedPairs(config: Config, actions: seq<Action>)
    ensures var s := Run(config, actions);
            && (forall i, j :: 0 <= i < j < |s.intended| && IsPrepared(s.intended[i]) && IsPrepared(s.intended[j]) ==>
                 IdIn(s.intended[i]) != IdIn(s.intended[j]))
            && Orderly(s.intended)
            && DialsDiffer(s)
            && TerminalsDialled(s)
  {
    hide EffectIdOf;
    hide PhasesOf;
    hide Run;
    RunKeeps(config, actions);
    RunDialled(config, actions);
    var s := Run(config, actions);
    forall id ensures InOrder(PhasesOf(s.intended, id)) {
      assert EffectInvariant(s, id);
    }
    forall i, j | 0 <= i < j < |s.intended| && IsPrepared(s.intended[i]) && IsPrepared(s.intended[j])
      ensures IdIn(s.intended[i]) != IdIn(s.intended[j])
    {
      if EffectIdOf(i) == EffectIdOf(j) {
        EffectIdsDiffer(i, j);
      }
    }
  }
}
