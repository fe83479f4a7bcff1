/**
  The proxy's evidence log: the strict ledger reader for a finalized log and the summary.
  Only the fields that the reader, the summary or the journal protocol look at are modelled.
 */
module EventLedger {
  import opened Wrappers
  import opened AddressText
  import opened AddressRanges

  datatype Phase = Prepared | Terminal

  /** `effectId` and `phase`; validation refuses one without the other. */
  datatype Effect = Effect(id: string, phase: Phase)

  datatype Verdict = Allow | Deny | BlockTelemetry | BlockOptionalSupport | BlockBrowserBackground

  datatype HostClass = UnknownAlphaus | External | OtherClass

  datatype ResolutionState = ResolutionNotAttempted | ResolutionAdmitted | ResolutionDenied | ResolutionFailed

  datatype Connection = ConnectionNotAttempted | Attempted | Connected | ConnectionFailed

  datatype Violation = AddressPolicyViolation | ResolutionViolation | AddressBindingViolation

  /** `addressFamily` and `addressClass` of the address a request was bound to. */
  datatype Bound = Bound(family: Family, kind: AddressClass)

  /** Optional fields are absent in legacy records. */
  datatype Event = Event(
    index: nat,
    decision: Verdict,
    hostClass: HostClass,
    resolution: Option<ResolutionState>,
    answerCount: Option<nat>,
    connection: Option<Connection>,
    violation: Option<Violation>,
    effect: Option<Effect>,
    address: Option<Bound>)

  /** A line that is not JSON, a value that fails validation, or a validated event. */
  datatype Line = NotJson | InvalidEvent | Good(event: Event)

  datatype LedgerError =
    | Unreadable | MalformedLine | MalformedEvent | DuplicatePrepared | TerminalBeforePrepared
    | OrphanTerminal | DuplicateTerminal | UnmatchedPrepared

  // ----- what the log says about one effect -----

  function PhaseOf(line: Line, id: string): seq<Phase> {
    if line.Good? && line.event.effect.Some? && line.event.effect.value.id == id then [line.event.effect.value.phase] else []
  }

  /** The phases recorded for an effect id, in log order. */
  function PhasesOf(lines: seq<Line>, id: string): seq<Phase> {
    if lines == [] then [] else PhasesOf(lines[..|lines| - 1], id) + PhaseOf(lines[|lines| - 1], id)
  }

  predicate AllGood(lines: seq<Line>) {
    forall i :: 0 <= i < |lines| ==> lines[i].Good?
  }

  predicate Complete(phases: seq<Phase>) {
    phases == [] || phases == [Prepared, Terminal]
  }

  predicate InOrder(phases: seq<Phase>) {
    Complete(phases) || phases == [Prepared]
  }

  /** Each effect is at most prepared and then terminated. */
  ghost predicate Orderly(lines: seq<Line>) {
    forall id :: InOrder(PhasesOf(lines, id))
  }

  /** Each effect has exactly one PREPARED record followed by exactly one TERMINAL record. */
  ghost predicate Balanced(lines: seq<Line>) {
    forall id :: Complete(PhasesOf(lines, id))
  }

  function EventsOf(lines: seq<Line>): seq<Event>
    requires AllGood(lines)
  {
    seq(|lines|, i requires 0 <= i < |lines| => lines[i].event)
  }

  /** The events of the lines that hold a valid one, also when another line is torn. */
  function GoodEvents(lines: seq<Line>): seq<Event> {
    if lines == [] then []
    else
      var last := lines[|lines| - 1];
      GoodEvents(lines[..|lines| - 1]) + if last.Good? then [last.event] else []
  }

  lemma {:induction false} GoodEventsOfGood(lines: seq<Line>)
    requires AllGood(lines)
    ensures GoodEvents(lines) == EventsOf(lines)
  {
    if lines != [] {
      GoodEventsOfGood(lines[..|lines| - 1]);
    }
  }

  /** Why a line cannot follow a readable, orderly prefix with the given phases of its effect. */
  function LineError(line: Line, phases: seq<Phase>): Option<LedgerError> {
    match line
    case NotJson => Some(MalformedLine)
    case InvalidEvent => Some(MalformedEvent)
    case Good(event) =>
      if event.effect.None? then None
      else if event.effect.value.phase == Prepared then
        if phases == [] then None else Some(DuplicatePrepared)
      else
        if phases == [] then Some(OrphanTerminal)
        else if phases == [Prepared] then None
        else Some(DuplicateTerminal)
  }

  function OwnPhases(lines: seq<Line>, line: Line): seq<Phase> {
    if line.Good? && line.event.effect.Some? then PhasesOf(lines, line.event.effect.value.id) else []
  }

  /** The reader stops at line k: everything before it is in order and it is refused with this error. */
  ghost predicate StopsAt(lines: seq<Line>, k: nat, error: LedgerError) {
    && k < |lines| && AllGood(lines[..k]) && Orderly(lines[..k])
    && LineError(lines[k], OwnPhases(lines[..k], lines[k])) == Some(error)
  }

  /** Some line records this phase of the effect. */
  predicate PhaseRecorded(lines: seq<Line>, id: string, phase: Phase) {
    exists i :: 0 <= i < |lines| && lines[i].Good? && lines[i].event.effect == Some(Effect(id, phase))
  }

  lemma {:induction false} PhasesRecorded(lines: seq<Line>, id: string, phase: Phase)
    ensures phase in PhasesOf(lines, id) <==> PhaseRecorded(lines, id, phase)
  {
    if lines != [] {
      var front, last := lines[..|lines| - 1], lines[|lines| - 1];
      PhasesRecorded(front, id, phase);
      if i :| 0 <= i < |front| && front[i].Good? && front[i].event.effect == Some(Effect(id, phase)) {
        assert lines[i] == front[i];
      }
      if PhaseRecorded(lines, id, phase) && !(last.Good? && last.event.effect == Some(Effect(id, phase))) {
        var i :| 0 <= i < |lines| && lines[i].Good? && lines[i].event.effect == Some(Effect(id, phase));
        assert front[i] == lines[i];
      }
    }
  }

  /**
    Why the reader stops at a line, each reason with its exact condition: the line is not JSON, or no
    event; a PREPARED repeats one; a TERMINAL has no PREPARED before it, or repeats one.
   */
  lemma StopsExactly(lines: seq<Line>, k: nat, error: LedgerError)
    requires k < |lines| && AllGood(lines[..k]) && Orderly(lines[..k])
    ensures StopsAt(lines, k, error) <==>
            match error
            case MalformedLine => lines[k].NotJson?
            case MalformedEvent => lines[k].InvalidEvent?
            case DuplicatePrepared =>
              && lines[k].Good? && lines[k].event.effect.Some? && lines[k].event.effect.value.phase == Prepared
              && PhaseRecorded(lines[..k], lines[k].event.effect.value.id, Prepared)
            case OrphanTerminal =>
              && lines[k].Good? && lines[k].event.effect.Some? && lines[k].event.effect.value.phase == Terminal
              && !PhaseRecorded(lines[..k], lines[k].event.effect.value.id, Prepared)
            case DuplicateTerminal =>
              && lines[k].Good? && lines[k].event.effect.Some? && lines[k].event.effect.value.phase == Terminal
              && PhaseRecorded(lines[..k], lines[k].event.effect.value.id, Prepared)
              && PhaseRecorded(lines[..k], lines[k].event.effect.value.id, Terminal)
            case _ => false
  {
    hide PhasesOf;
    if lines[k].Good? && lines[k].event.effect.Some? {
      var id := lines[k].event.effect.value.id;
      PhasesRecorded(lines[..k], id, Prepared);
      PhasesRecorded(lines[..k], id, Terminal);
      hide PhaseRecorded;
      assert InOrder(PhasesOf(lines[..k], id));
    }
  }

  lemma PhasesAppend(lines: seq<Line>, line: Line, id: string)
    ensures PhasesOf(lines + [line], id) == PhasesOf(lines, id) + PhaseOf(line, id)
  {
    assert (lines + [line])[..|lines|] == lines;
  }

  /** Appending a line keeps the log in order exactly when the reader has no objection to it. */
  lemma OrderlyAppend(lines: seq<Line>, line: Line)
    requires Orderly(lines)
    ensures line.Good? ==> (Orderly(lines + [line]) <==> LineError(line, OwnPhases(lines, line)).None?)
    ensures LineError(line, OwnPhases(lines, line)) != Some(TerminalBeforePrepared)
  {
    forall id ensures PhasesOf(lines + [line], id) == PhasesOf(lines, id) + PhaseOf(line, id) {
      PhasesAppend(lines, line, id);
    }
    if line.Good? && line.event.effect.Some? {
      var id, phase := line.event.effect.value.id, line.event.effect.value.phase;
      PhaseAppend(PhasesOf(lines, id), phase);
      assert PhasesOf(lines + [line], id) == PhasesOf(lines, id) + [phase];
    }
  }

  lemma PhaseAppend(phases: seq<Phase>, phase: Phase)
    requires InOrder(phases)
    ensures InOrder(phases + [phase]) <==>
            (phase == Prepared && phases == []) || (phase == Terminal && phases == [Prepared])
  {
    var after := phases + [phase];
    assert after[|phases|] == phase;
    if phases == [] || phases == [Prepared] {
      assert phases == [] ==> after == [phase];
      assert phases == [Prepared] ==> after == [Prepared, phase];
    }
  }

  // ----- the strict reader -----

  /**
    `readProxyEventLedger` on a log that could be read. It accepts exactly the logs of valid events
    in which every effect is one PREPARED followed by one TERMINAL; otherwise it reports the first
    line that breaks this, or an effect left without its terminal record.
   */
  method ReadLedger(lines: seq<Line>) returns (r: Result<seq<Event>, LedgerError>)
    ensures r.Ok? <==> AllGood(lines) && Balanced(lines)
    ensures r.Ok? ==> AllGood(lines) && r.value == EventsOf(lines)
    ensures r.Err? ==>
              || (r.error == UnmatchedPrepared && AllGood(lines) && Orderly(lines))
              || (exists k :: StopsAt(lines, k, r.error))
    ensures r != Err(TerminalBeforePrepared)
  {
    hide PhasesOf;
    NoPhases();
    var events: seq<Event> := [];
    var prepared: set<string> := {};
    var terminal: set<string> := {};
    var i := 0;
    assert lines[..0] == [];
    while i < |lines|
      invariant 0 <= i <= |lines| && AllGood(lines[..i]) && Orderly(lines[..i])
      invariant events == EventsOf(lines[..i])
      invariant forall id :: id in prepared <==> PhasesOf(lines[..i], id) != []
      invariant forall id :: id in terminal <==> PhasesOf(lines[..i], id) == [Prepared, Terminal]
    {
      ghost var before := lines[..i];
      var line := lines[i];
      assert lines[..i + 1] == before + [line];
      OrderlyAppend(before, line);
      forall id ensures PhasesOf(lines[..i + 1], id) == PhasesOf(before, id) + PhaseOf(line, id) {
        PhasesAppend(before, line, id);
      }
      if line.NotJson? {
        Refused(lines, i, MalformedLine);
        return Err(MalformedLine);
      }
      if line.InvalidEvent? {
        Refused(lines, i, MalformedEvent);
        return Err(MalformedEvent);
      }
      var validated := line.event;
      if validated.effect.Some? {
        var id := validated.effect.value.id;
        assert InOrder(PhasesOf(before, id));
        if validated.effect.value.phase == Prepared {
          if id in prepared {
            Refused(lines, i, DuplicatePrepared);
            return Err(DuplicatePrepared);
          }
          if id in terminal {
            assert false; // TERMINAL_BEFORE_PREPARED cannot be reported
          }
          prepared := prepared + {id};
        } else {
          if id !in prepared {
            Refused(lines, i, OrphanTerminal);
            return Err(OrphanTerminal);
          }
          if id in terminal {
            Refused(lines, i, DuplicateTerminal);
            return Err(DuplicateTerminal);
          }
          terminal := terminal + {id};
        }
      }
      events := events + [validated];
      i := i + 1;
    }
    assert lines[..i] == lines;
    if exists id :: id in prepared && id !in terminal {
      ghost var id :| id in prepared && id !in terminal;
      assert PhasesOf(lines, id) == [Prepared];
      return Err(UnmatchedPrepared);
    }
    r := Ok(events);
  }

  /** A refused line makes the whole log unacceptable, whatever follows it. */
  lemma Refused(lines: seq<Line>, k: nat, error: LedgerError)
    requires StopsAt(lines, k, error)
    ensures !(AllGood(lines) && Balanced(lines))
    ensures exists k :: StopsAt(lines, k, error)
  {
    hide PhasesOf;
    hide OwnPhases;
    if lines[k].Good? {
      assert lines[..k + 1] == lines[..k] + [lines[k]];
      OrderlyAppend(lines[..k], lines[k]);
      DisorderStays(lines, k + 1);
    }
  }

  lemma DisorderStays(lines: seq<Line>, k: nat)
    requires k <= |lines| && !Orderly(lines[..k])
    ensures !Balanced(lines)
  {
    var id :| !InOrder(PhasesOf(lines[..k], id));
    PrefixPhases(lines, k, id);
    if Complete(PhasesOf(lines, id)) {
      ShorterInOrder(PhasesOf(lines[..k], id), PhasesOf(lines, id));
    }
  }

  lemma NoPhases()
    ensures forall id :: PhasesOf([], id) == []
  {
  }

  lemma {:induction false} PrefixPhases(lines: seq<Line>, k: nat, id: string)
    requires k <= |lines|
    ensures PhasesOf(lines[..k], id) <= PhasesOf(lines, id)
  {
    if k == |lines| {
      assert lines[..k] == lines;
    } else {
      var front := lines[..|lines| - 1];
      PrefixPhases(front, k, id);
      assert front[..k] == lines[..k];
    }
  }

  // ----- the summary -----

  datatype Summary = Summary(
    policyAuthorized: nat, allowed: nat, telemetryBlocked: nat, optionalSupportBlocked: nat,
    browserBackgroundBlocked: nat, denied: nat, unknown: nat,
    resolutionAdmitted: nat, resolutionDenied: nat, resolutionFailed: nat,
    connectAttempted: nat, connected: nat, connectFailed: nat,
    coverageComplete: bool, violations: nat)

  /** True for policy denials and for resolved-egress violations. */
  predicate IsProxyViolation(event: Event) {
    event.decision == Deny || event.violation.Some?
  }

  function Count(events: seq<Event>, p: Event -> bool): (n: nat)
    ensures n <= |events|
  {
    if events == [] then 0
    else Count(events[..|events| - 1], p) + if p(events[|events| - 1]) then 1 else 0
  }

  function Decided(verdict: Verdict): Event -> bool {
    (e: Event) => e.decision == verdict
  }

  function InConnection(connection: Connection): Event -> bool {
    (e: Event) => e.connection == Some(connection)
  }

  function InResolution(resolution: ResolutionState): Event -> bool {
    (e: Event) => e.resolution == Some(resolution)
  }

  predicate TriedToConnect(e: Event) {
    e.connection == Some(Attempted) || e.connection == Some(Connected) || e.connection == Some(ConnectionFailed)
  }

  predicate UnknownDestination(e: Event) {
    e.decision == Deny && (e.hostClass == UnknownAlphaus || e.hostClass == External)
  }

  predicate VerdictCounts(events: seq<Event>, s: Summary) {
    && s.policyAuthorized == s.allowed == Count(events, Decided(Allow))
    && s.telemetryBlocked == Count(events, Decided(BlockTelemetry))
    && s.optionalSupportBlocked == Count(events, Decided(BlockOptionalSupport))
    && s.browserBackgroundBlocked == Count(events, Decided(BlockBrowserBackground))
    && s.denied == Count(events, Decided(Deny))
    && s.unknown == Count(events, UnknownDestination)
    && s.violations == Count(events, IsProxyViolation)
  }

  predicate OutcomeCounts(events: seq<Event>, s: Summary) {
    && s.resolutionAdmitted == Count(events, InResolution(ResolutionAdmitted))
    && s.resolutionDenied == Count(events, InResolution(ResolutionDenied))
    && s.resolutionFailed == Count(events, InResolution(ResolutionFailed))
    && s.connectAttempted == Count(events, TriedToConnect)
    && s.connected == Count(events, InConnection(Connected))
    && s.connectFailed == Count(events, InConnection(ConnectionFailed))
    && (s.coverageComplete <==> forall i :: 0 <= i < |events| ==> events[i].resolution.Some? && events[i].connection.Some?)
  }

  lemma CountAppend(events: seq<Event>, event: Event, p: Event -> bool)
    ensures Count(events + [event], p) == Count(events, p) + if p(event) then 1 else 0
  {
    assert (events + [event])[..|events|] == events;
  }

  lemma CountVerdicts(events: seq<Event>, event: Event)
    ensures forall v :: Count(events + [event], Decided(v)) == Count(events, Decided(v)) + if event.decision == v then 1 else 0
    ensures Count(events + [event], UnknownDestination) == Count(events, UnknownDestination) + if UnknownDestination(event) then 1 else 0
    ensures Count(events + [event], IsProxyViolation) == Count(events, IsProxyViolation) + if IsProxyViolation(event) then 1 else 0
  {
    forall v ensures Count(events + [event], Decided(v)) == Count(events, Decided(v)) + if event.decision == v then 1 else 0 {
      CountAppend(events, event, Decided(v));
    }
    CountAppend(events, event, UnknownDestination);
    CountAppend(events, event, IsProxyViolation);
  }

  lemma CountOutcomes(events: seq<Event>, event: Event)
    ensures forall r :: Count(events + [event], InResolution(r)) == Count(events, InResolution(r)) + if event.resolution == Some(r) then 1 else 0
    ensures forall c :: Count(events + [event], InConnection(c)) == Count(events, InConnection(c)) + if event.connection == Some(c) then 1 else 0
    ensures Count(events + [event], TriedToConnect) == Count(events, TriedToConnect) + if TriedToConnect(event) then 1 else 0
  {
    forall r ensures Count(events + [event], InResolution(r)) == Count(events, InResolution(r)) + if event.resolution == Some(r) then 1 else 0 {
      CountAppend(events, event, InResolution(r));
    }
    forall c ensures Count(events + [event], InConnection(c)) == Count(events, InConnection(c)) + if event.connection == Some(c) then 1 else 0 {
      CountAppend(events, event, InConnection(c));
    }
    CountAppend(events, event, TriedToConnect);
  }

  /**
    `summarizeProxyEvents`: one pass that increments a summary record. Every counter ends up
    counting the events it is named after.
   */
  method SummarizeProxyEvents(events: seq<Event>) returns (s: Summary)
    ensures VerdictCounts(events, s) && OutcomeCounts(events, s)
  {
    hide Count;
    hide VerdictCounts;
    hide OutcomeCounts;
    s := Summary(0, 0, 0, 0, 0, 0, 0, 0, 0, 0, 0, 0, 0, true, 0);
    EmptySummary();
    assert events[..0] == [];
    for i := 0 to |events|
      invariant VerdictCounts(events[..i], s) && OutcomeCounts(events[..i], s)
    {
      var event := events[i];
      assert events[..i + 1] == events[..i] + [event];
      s := TallyVerdict(events[..i], s, event);
      s := TallyOutcome(events[..i], s, event);
    }
    assert events[..|events|] == events;
  }

  lemma EmptySummary()
    ensures var none := Summary(0, 0, 0, 0, 0, 0, 0, 0, 0, 0, 0, 0, 0, true, 0);
            VerdictCounts([], none) && OutcomeCounts([], none)
  {
    hide Count;
    NothingToCount([]);
  }

  lemma NothingToCount(none: seq<Event>)
    requires none == []
    ensures forall v :: Count(none, Decided(v)) == 0
    ensures forall r :: Count(none, InResolution(r)) == 0
    ensures forall c :: Count(none, InConnection(c)) == 0
    ensures Count(none, UnknownDestination) == Count(none, IsProxyViolation) == Count(none, TriedToConnect) == 0
  {
  }

  /** The first half of a loop turn: the verdict, and both places where `violations` grows. */
  method TallyVerdict(ghost before: seq<Event>, summary: Summary, event: Event) returns (s: Summary)
    requires VerdictCounts(before, summary) && OutcomeCounts(before, summary)
    ensures VerdictCounts(before + [event], s) && OutcomeCounts(before, s)
  {
    hide Count;
    CountVerdicts(before, event);
    s := summary;
    match event.decision {
      case Allow => s := s.(policyAuthorized := s.policyAuthorized + 1, allowed := s.allowed + 1);
      case BlockTelemetry => s := s.(telemetryBlocked := s.telemetryBlocked + 1);
      case BlockOptionalSupport => s := s.(optionalSupportBlocked := s.optionalSupportBlocked + 1);
      case BlockBrowserBackground => s := s.(browserBackgroundBlocked := s.browserBackgroundBlocked + 1);
      case Deny =>
        s := s.(denied := s.denied + 1, violations := s.violations + 1);
        if event.hostClass == UnknownAlphaus || event.hostClass == External {
          s := s.(unknown := s.unknown + 1);
        }
    }
    if event.violation.Some? && event.decision != Deny { s := s.(violations := s.violations + 1); }
  }

  /** The second half: resolution, connection and coverage. */
  method TallyOutcome(ghost before: seq<Event>, summary: Summary, event: Event) returns (s: Summary)
    requires VerdictCounts(before + [event], summary) && OutcomeCounts(before, summary)
    ensures VerdictCounts(before + [event], s) && OutcomeCounts(before + [event], s)
  {
    hide Count;
    CountOutcomes(before, event);
    s := summary;
    if event.resolution == Some(ResolutionAdmitted) { s := s.(resolutionAdmitted := s.resolutionAdmitted + 1); }
    if event.resolution == Some(ResolutionDenied) { s := s.(resolutionDenied := s.resolutionDenied + 1); }
    if event.resolution == Some(ResolutionFailed) { s := s.(resolutionFailed := s.resolutionFailed + 1); }
    if TriedToConnect(event) { s := s.(connectAttempted := s.connectAttempted + 1); }
    if event.connection == Some(Connected) { s := s.(connected := s.connected + 1); }
    if event.connection == Some(ConnectionFailed) { s := s.(connectFailed := s.connectFailed + 1); }
    if event.resolution.None? || event.connection.None? { s := s.(coverageComplete := false); }
    assert forall i :: 0 <= i < |before| ==> (before + [event])[i] == before[i];
    assert (before + [event])[|before|] == event;
  }

  /** The five verdict counters account for every event, and no violation is counted twice or missed. */
  lemma {:induction false} VerdictsConserved(events: seq<Event>)
    ensures Count(events, Decided(Allow)) + Count(events, Decided(BlockTelemetry)) +
            Count(events, Decided(BlockOptionalSupport)) + Count(events, Decided(BlockBrowserBackground)) +
            Count(events, Decided(Deny)) == |events|
  {
    if events != [] {
      VerdictsConserved(events[..|events| - 1]);
    }
  }

  lemma SummaryConserved(events: seq<Event>, s: Summary)
    requires VerdictCounts(events, s) && OutcomeCounts(events, s)
    ensures s.allowed + s.telemetryBlocked + s.optionalSupportBlocked + s.browserBackgroundBlocked + s.denied == |events|
    ensures s.violations == Count(events, IsProxyViolation) && s.denied <= s.violations && s.unknown <= s.denied
    ensures s.connected + s.connectFailed <= s.connectAttempted
  {
    VerdictsConserved(events);
    SubCounts(events);
  }

  lemma {:induction false} SubCounts(events: seq<Event>)
    ensures Count(events, Decided(Deny)) <= Count(events, IsProxyViolation)
    ensures Count(events, UnknownDestination) <= Count(events, Decided(Deny))
    ensures Count(events, TriedToConnect) ==
            Count(events, InConnection(Attempted)) + Count(events, InConnection(Connected)) + Count(events, InConnection(ConnectionFailed))
  {
    if events != [] {
      SubCounts(events[..|events| - 1]);
    }
  }

  // ----- pairs in an accepted log -----

  function InPhase(phase: Phase): Event -> bool {
    (e: Event) => e.effect.Some? && e.effect.value.phase == phase
  }

  /** The ids with a record of the given phase. */
  function IdsIn(events: seq<Event>, phase: Phase): set<string> {
    if events == [] then {}
    else
      IdsIn(events[..|events| - 1], phase) +
      if InPhase(phase)(events[|events| - 1]) then {events[|events| - 1].effect.value.id} else {}
  }

  lemma {:induction false} IdsAndPhases(lines: seq<Line>, id: string, phase: Phase)
    requires AllGood(lines)
    ensures id in IdsIn(EventsOf(lines), phase) <==> phase in PhasesOf(lines, id)
  {
    if lines != [] {
      var front := lines[..|lines| - 1];
      IdsAndPhases(front, id, phase);
      assert EventsOf(lines)[..|lines| - 1] == EventsOf(front);
    }
  }

  lemma EventsFront(lines: seq<Line>)
    requires AllGood(lines) && lines != []
    ensures var events, n := EventsOf(lines), |lines| - 1;
            AllGood(lines[..n]) && |events| == n + 1 && events[..n] == EventsOf(lines[..n]) && events[n] == lines[n].event
  {
  }

  /** In an orderly log the last record of a phase has a new id. */
  lemma LastIdIsNew(lines: seq<Line>, phase: Phase)
    requires AllGood(lines) && Orderly(lines) && lines != [] && InPhase(phase)(lines[|lines| - 1].event)
    ensures lines[|lines| - 1].event.effect.value.id !in IdsIn(EventsOf(lines[..|lines| - 1]), phase)
  {
    var front, id := lines[..|lines| - 1], lines[|lines| - 1].event.effect.value.id;
    assert InOrder(PhasesOf(lines, id));
    assert PhasesOf(lines, id) == PhasesOf(front, id) + [phase];
    NoRepeat(PhasesOf(front, id), phase);
    hide PhasesOf;
    hide InOrder;
    hide IdsIn;
    IdsAndPhases(front, id, phase);
  }

  /** One more event adds its id, and one to the count, exactly if it is of the phase. */
  lemma LastOfPhase(events: seq<Event>, phase: Phase)
    requires events != []
    ensures var front, last := events[..|events| - 1], events[|events| - 1];
            if InPhase(phase)(last) then
              Count(events, InPhase(phase)) == Count(front, InPhase(phase)) + 1
              && IdsIn(events, phase) == IdsIn(front, phase) + {last.effect.value.id}
            else
              Count(events, InPhase(phase)) == Count(front, InPhase(phase)) && IdsIn(events, phase) == IdsIn(front, phase)
  {
  }

  /** In an orderly log every record of a phase has an id of its own. */
  lemma {:induction false} PhaseCounts(lines: seq<Line>, phase: Phase)
    requires AllGood(lines) && Orderly(lines)
    ensures Count(EventsOf(lines), InPhase(phase)) == |IdsIn(EventsOf(lines), phase)|
  {
    if lines != [] {
      OrderlyPrefix(lines, |lines| - 1);
      EventsFront(lines);
      LastOfPhase(EventsOf(lines), phase);
      hide Orderly;
      hide Count;
      hide IdsIn;
      hide EventsOf;
      PhaseCounts(lines[..|lines| - 1], phase);
      if InPhase(phase)(lines[|lines| - 1].event) { LastIdIsNew(lines, phase); }
    }
  }

  lemma NoRepeat(phases: seq<Phase>, phase: Phase)
    requires InOrder(phases + [phase])
    ensures phase !in phases
  {
    var all := phases + [phase];
    assert forall i :: 0 <= i < |phases| ==> phases[i] == all[i];
    assert all[|phases|] == phase;
  }

  lemma OrderlyPrefix(lines: seq<Line>, k: nat)
    requires k <= |lines| && Orderly(lines)
    ensures Orderly(lines[..k])
  {
    forall id ensures InOrder(PhasesOf(lines[..k], id)) {
      PrefixPhases(lines, k, id);
      ShorterInOrder(PhasesOf(lines[..k], id), PhasesOf(lines, id));
    }
  }

  lemma ShorterInOrder(part: seq<Phase>, all: seq<Phase>)
    requires part <= all && InOrder(all)
    ensures InOrder(part)
  {
    assert part == all[..|part|];
    assert |part| == 1 ==> part == [all[0]];
  }

  /** An accepted log has as many TERMINAL as PREPARED records. */
  lemma PairsBalance(lines: seq<Line>)
    requires AllGood(lines) && Balanced(lines)
    ensures Count(EventsOf(lines), InPhase(Prepared)) == Count(EventsOf(lines), InPhase(Terminal))
  {
    PhaseCounts(lines, Prepared);
    PhaseCounts(lines, Terminal);
    forall id ensures id in IdsIn(EventsOf(lines), Prepared) <==> id in IdsIn(EventsOf(lines), Terminal) {
      IdsAndPhases(lines, id, Prepared);
      IdsAndPhases(lines, id, Terminal);
      assert Complete(PhasesOf(lines, id));
    }
    assert IdsIn(EventsOf(lines), Prepared) == IdsIn(EventsOf(lines), Terminal);
  }
}
