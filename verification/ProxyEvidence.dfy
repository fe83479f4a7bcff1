/**
  What the readers of the proxy's log can tell from it. `record` drops the effect its caller names,
  so the strict reader's pairing has nothing to pair; what remains is whether every line is whole,
  and the counters of the summary.
 */
module ProxyEvidence {
  import opened Wrappers
  import opened AddressText
  import opened AddressAdmission
  import opened AddressDecisions
  import opened EventLedger
  import opened ProxyJournal

  /** What `readProxyEventLedger` accepts, by the contract of `EventLedger.ReadLedger`. */
  ghost predicate Accepted(lines: seq<Line>) {
    AllGood(lines) && Balanced(lines)
  }

  /** The effects whose handler waits for its upstream socket. */
  function Waiting(s: Server): set<string> {
    set h | h in s.handlers && s.handlers[h].Connecting? :: s.handlers[h].effectId
  }

  predicate Quiescent(s: Server) {
    forall h :: h in s.handlers ==> s.handlers[h] == Finished
  }

  /** The effects of which only the first half was ever to be seen. */
  function HalfEffects(s: Server): set<string> {
    s.threw + s.lost + s.unsent + Waiting(s)
  }

  // ----- the strict reader on the server's log -----

  lemma {:induction false} NothingToPair(lines: seq<Line>, id: string)
    requires forall i :: 0 <= i < |lines| && lines[i].Good? ==> lines[i].event.effect.None?
    ensures PhasesOf(lines, id) == []
  {
    if lines != [] {
      NothingToPair(lines[..|lines| - 1], id);
    }
  }

  /**
    In every reachable state the strict reader accepts the log if and only if all its lines are whole,
    which is if and only if no append was torn, whatever threw, was lost or was never dialled.
   */
  lemma ReaderAcceptsExactly(config: Config, actions: seq<Action>)
    ensures Accepted(Run(config, actions).log) <==> AllGood(Run(config, actions).log)
    ensures AllGood(Run(config, actions).log) <==> !Run(config, actions).torn
  {
    hide PhasesOf;
    hide EffectIdOf;
    hide Run;
    RunKeeps(config, actions);
    var s := Run(config, actions);
    forall i | 0 <= i < |s.log| && s.log[i].Good? ensures s.log[i].event.effect.None? {
      assert s.log[i] == Stripped(s.intended[i]);
    }
    forall id ensures Complete(PhasesOf(s.log, id)) {
      NothingToPair(s.log, id);
    }
    StrippedAreGood(s.log, s.intended);
  }

  lemma StrippedAreGood(log: seq<Line>, intended: seq<Line>)
    requires Strips(log, intended)
    ensures AllGood(log) <==> AllGood(intended)
  {
    forall i | 0 <= i < |log| ensures log[i].Good? <==> intended[i].Good? {
      assert log[i] == Stripped(intended[i]);
    }
  }

  /** The effects that would be left with a PREPARED record only are exactly these. */
  lemma HalfEffectsExactly(config: Config, actions: seq<Action>, id: string)
    ensures var s := Run(config, actions);
            PhasesOf(s.intended, id) == [Prepared] <==> id in HalfEffects(s)
    ensures Complete(PhasesOf(Run(config, actions).intended, id)) <==> id !in HalfEffects(Run(config, actions))
  {
    hide PhasesOf;
    hide EffectIdOf;
    hide Run;
    RunKeeps(config, actions);
    var s := Run(config, actions);
    assert EffectInvariant(s, id);
    assert id in Waiting(s) <==> IsConnecting(s, id);
  }

  /**
    With both fields in its records the strict reader would accept the log exactly when no append was
    torn and no effect is half recorded. So its verdict on the log as it is agrees with that one if and
    only if an append was torn, or nothing threw, was lost or was never dialled and nobody waits.
   */
  lemma VerdictsAgreeExactly(config: Config, actions: seq<Action>)
    ensures var s := Run(config, actions);
            && (Accepted(s.intended) <==> !s.torn && HalfEffects(s) == {})
            && ((Accepted(s.log) <==> Accepted(s.intended)) <==> s.torn || HalfEffects(s) == {})
            && (Quiescent(s) ==> HalfEffects(s) == s.threw + s.lost + s.unsent)
  {
    hide PhasesOf;
    hide Run;
    var s := Run(config, actions);
    forall id ensures Complete(PhasesOf(s.intended, id)) <==> id !in HalfEffects(s) {
      HalfEffectsExactly(config, actions, id);
    }
    ReaderAcceptsExactly(config, actions);
    TornIsNotGood(config, actions);
    if Balanced(s.intended) {
      assert HalfEffects(s) == {};
    }
    if Quiescent(s) {
      assert Waiting(s) == {};
    }
  }

  lemma TornIsNotGood(config: Config, actions: seq<Action>)
    ensures Run(config, actions).torn <==> !AllGood(Run(config, actions).intended)
  {
    hide Run;
    RunKeeps(config, actions);
  }

  // ----- two runs that the strict reader accepts -----

  const LOOPBACK := Request(Http, "127.0.0.1", OtherClass)

  /** A request for the loopback address; it reaches the resolver. */
  function LoopbackRequest(): Action {
    Arrive(0, Http, Allow, OtherClass, true, "127.0.0.1", Pass, false, Stored)
  }

  /** Its dial throws, and both records are stored. */
  function ThrownDial(settled: Settled): seq<Action> {
    [LoopbackRequest(), Resolve(0, settled, false, true, Stored, Stored)]
  }

  /** It dials and connects, but the record that says so does not reach the log. */
  function MissedOutcome(settled: Settled): seq<Action> {
    [LoopbackRequest(), Resolve(0, settled, false, false, Stored, Stored), Settle(0, true, Missed)]
  }

  lemma LoopbackSelected(settled: Settled, less: Order)
    ensures var r := ResolveAndAdmit("127.0.0.1", Local, settled, less);
            r.selected.Some? && r.outcome == OutcomeAdmitted && r.answerCount == 1
  {
    hide ResolveAndAdmit;
    hide ParseAddress;
    hide Acceptable;
    hide ItemOf;
    hide Canonical;
    LoopbackTexts();
    CanonicalRoundTrip(V4, LOOPBACK_V4, None);
    LiteralResolved("127.0.0.1", Local, settled, less);
    LoopbackAccepted(Local);
  }

  lemma RunOfTwo(config: Config, a: Action, b: Action)
    ensures Run(config, [a, b]) == Step(config, Step(config, Start, a), b)
  {
    hide Step;
    assert [a, b][..1] == [a] && [a][..0] == [];
    assert Run(config, [a]) == Step(config, Run(config, []), a);
  }

  lemma RunOfThree(config: Config, a: Action, b: Action, c: Action)
    ensures Run(config, [a, b, c]) == Step(config, Run(config, [a, b]), c)
  {
    hide Step;
    assert [a, b, c][..2] == [a, b];
  }

  /** After a loopback request was admitted, its handler has journaled and dialled, or failed to. */
  lemma AfterAdmission(settled: Settled, less: Order, throws: bool)
    ensures var config := Config(Local, less);
            var resolve := Resolve(0, settled, false, throws, Stored, Stored);
            var r := ResolveAndAdmit("127.0.0.1", Local, settled, less);
            && r.selected.Some? && r.answerCount == 1
            && Run(config, [LoopbackRequest(), resolve])
               == DialOn(Start.(handlers := map[0 := Finished]), resolve, LOOPBACK, r)
  {
    hide ResolveAndAdmit;
    hide DialOn;
    LoopbackSelected(settled, less);
    RunOfTwo(Config(Local, less), LoopbackRequest(), Resolve(0, settled, false, throws, Stored, Stored));
    hide Run;
    assert map[0 := Resolving(LOOPBACK)][0 := Finished] == map[0 := Finished];
  }

  /**
    A dial that throws is evidence of an effect that did not happen as recorded, and nothing is torn:
    the strict reader accepts the log all the same, which it would not do with both fields in it.
   */
  lemma ThrownDialIsAccepted(settled: Settled, less: Order)
    ensures var s := Run(Config(Local, less), ThrownDial(settled));
            && Quiescent(s) && s.threw != {} && !s.evidenceWriteFailed
            && |s.log| == 2 && Accepted(s.log) && !Accepted(s.intended)
  {
    hide ResolveAndAdmit;
    hide EffectIdOf;
    var config := Config(Local, less);
    AfterAdmission(settled, less, true);
    hide Run;
    hide PhasesOf;
    var s := Run(config, ThrownDial(settled));
    assert EffectIdOf(0) in HalfEffects(s);
    ReaderAcceptsExactly(config, ThrownDial(settled));
    VerdictsAgreeExactly(config, ThrownDial(settled));
  }

  lemma AfterMiss(settled: Settled, less: Order)
    ensures var s := Run(Config(Local, less), MissedOutcome(settled));
            var r := ResolveAndAdmit("127.0.0.1", Local, settled, less);
            Quiescent(s) && s.log == [WrittenLine(BoundEvent(LOOPBACK, r, Attempted, None), 0)]
  {
    hide ResolveAndAdmit;
    hide DialOn;
    hide BoundEvent;
    var config := Config(Local, less);
    AfterAdmission(settled, less, false);
    RunOfThree(config, LoopbackRequest(), Resolve(0, settled, false, false, Stored, Stored), Settle(0, true, Missed));
    hide Run;
    DialledOnce(settled, ResolveAndAdmit("127.0.0.1", Local, settled, less));
    hide RecordOn;
    MissRecorded(Run(config, [LoopbackRequest(), Resolve(0, settled, false, false, Stored, Stored)]), config);
  }

  lemma DialledOnce(settled: Settled, r: Resolution)
    requires r.selected.Some? && r.answerCount == 1
    ensures var u := DialOn(Start.(handlers := map[0 := Finished]), Resolve(0, settled, false, false, Stored, Stored), LOOPBACK, r);
            && u.log == [WrittenLine(BoundEvent(LOOPBACK, r, Attempted, None), 0)]
            && 0 in u.handlers && u.handlers[0].Connecting? && forall h :: h in u.handlers ==> h == 0
  {
    hide EffectIdOf;
    var event := BoundEvent(LOOPBACK, r, Attempted, Some(Effect(EffectIdOf(0), Prepared)));
    assert event.(index := 0, effect := None) == BoundEvent(LOOPBACK, r, Attempted, None).(index := 0, effect := None);
    assert Start.log + [WrittenLine(event, 0)] == [WrittenLine(event, 0)];
  }

  lemma MissRecorded(u: Server, config: Config)
    requires 0 in u.handlers && u.handlers[0].Connecting?
    ensures var t := Step(config, u, Settle(0, true, Missed));
            t.log == u.log && t.handlers == u.handlers[0 := Finished]
  {
    hide EffectIdOf;
    hide BoundEvent;
  }

  /** The counters of a log that the strict reader accepts need not balance: one attempt, no outcome. */
  lemma MissedOutcomeIsAccepted(settled: Settled, less: Order, summary: Summary)
    requires OutcomeCounts(GoodEvents(Run(Config(Local, less), MissedOutcome(settled)).log), summary)
    ensures var s := Run(Config(Local, less), MissedOutcome(settled));
            && Quiescent(s) && |s.log| == 1 && Accepted(s.log)
            && summary.connectAttempted == 1 && summary.connected == summary.connectFailed == 0
  {
    hide Run;
    hide ResolveAndAdmit;
    hide Accepted;
    AfterMiss(settled, less);
    var s := Run(Config(Local, less), MissedOutcome(settled));
    var event := s.log[0].event;
    assert GoodEvents(s.log) == [event] by { assert s.log[..0] == []; }
    OneEvent(event);
    hide GoodEvents;
    ReaderAcceptsExactly(Config(Local, less), MissedOutcome(settled));
  }

  lemma OneEvent(event: Event)
    requires event.connection == Some(Attempted)
    ensures Count([event], TriedToConnect) == 1
    ensures Count([event], InConnection(Connected)) == Count([event], InConnection(ConnectionFailed)) == 0
  {
    assert [event][..0] == [];
  }

  // ----- the counters of the summary on every log of the server -----

  /** Attempts in the log less outcomes, thrown dials among them. */
  function Unsettled(lines: seq<Line>): int {
    var events := GoodEvents(lines);
    Count(events, InConnection(Attempted)) - Count(events, InConnection(Connected)) - Count(events, InConnection(ConnectionFailed))
  }

  function Weight(event: Event): int {
    if event.connection == Some(Attempted) then 1
    else if event.connection == Some(Connected) || event.connection == Some(ConnectionFailed) then -1
    else 0
  }

  lemma UnsettledAppend(lines: seq<Line>, line: Line)
    ensures Unsettled(lines + [line]) == Unsettled(lines) + if line.Good? then Weight(line.event) else 0
  {
    assert (lines + [line])[..|lines|] == lines;
    if line.Good? {
      CountOutcomes(GoodEvents(lines), line.event);
      assert GoodEvents(lines + [line]) == GoodEvents(lines) + [line.event];
    } else {
      assert GoodEvents(lines + [line]) == GoodEvents(lines);
    }
  }

  lemma RecordUnsettled(s: Server, event: Event, append: AppendOutcome)
    ensures Unsettled(RecordOn(s, event, append).server.log) ==
            Unsettled(s.log) + if Reaches(s, event, append) then Weight(event) else 0
  {
    UnsettledAppend(s.log, WrittenLine(event, s.eventSeq));
    UnsettledAppend(s.log, NotJson);
    hide Unsettled;
  }

  /** The attempts that will never get an outcome record, and those that wait for one. */
  function Owed(s: Server): nat {
    |s.lost| + |s.unsent| + |s.unwritten| + |Waiting(s)|
  }

  /** Every attempt in the log has its outcome there, or is owed one for a known reason. */
  ghost predicate Conserved(s: Server) {
    Unsettled(s.log) == Owed(s) && s.unwritten <= s.threw
  }

  lemma PlainConserves(s: Server, t: Server, event: Event, append: AppendOutcome)
    requires Conserved(s) && Weight(event) == 0
    requires t == s.(handlers := t.handlers) && Waiting(t) == Waiting(s)
    ensures Conserved(RecordOn(t, event, append).server)
  {
    hide Unsettled;
    RecordUnsettled(t, event, append);
    assert Waiting(RecordOn(t, event, append).server) == Waiting(t);
    hide RecordOn;
    hide Waiting;
  }

  lemma DialConserves(config: Config, s: Server, a: Action, q: Request, r: Resolution)
    requires Invariant(config, s) && Conserved(s)
    requires a.Resolve? && a.id in s.handlers && s.handlers[a.id] == Finished && r.selected.Some?
    ensures Conserved(DialOn(s, a, q, r))
  {
    hide RecordOn;
    hide Unsettled;
    hide EffectIdOf;
    FreshId(config, s);
    hide Invariant;
    var id := EffectIdOf(s.eventSeq);
    var event := BoundEvent(q, r, Attempted, Some(Effect(id, Prepared)));
    var prepared := RecordOn(s, event, a.first);
    RecordUnsettled(s, event, a.first);
    ReachesIfNumbered(s, event, a.first);
    assert Weight(event) == 1 && Weight(ThrownEvent(q, r)) == -1;
    hide BoundEvent;
    hide ThrownEvent;
    hide Weight;
    var t := DialOn(s, a, q, r);
    assert id !in Waiting(s);
    if prepared.seqNo < 0 {
      assert Waiting(t) == Waiting(s);
      hide Waiting;
    } else if a.throws {
      assert Waiting(t) == Waiting(s);
      hide Waiting;
      RecordUnsettled(prepared.server.(threw := s.threw + {id}), ThrownEvent(q, r), a.second);
    } else {
      WaitingAdded(s, t, a.id);
      hide Waiting;
    }
  }

  lemma ReachesIfNumbered(s: Server, event: Event, append: AppendOutcome)
    ensures RecordOn(s, event, append).seqNo >= 0 ==> Reaches(s, event, append)
  {
  }

  lemma WaitingAdded(s: Server, t: Server, h: nat)
    requires h in t.handlers && t.handlers == s.handlers[h := t.handlers[h]] && t.handlers[h].Connecting?
    requires h in s.handlers ==> !s.handlers[h].Connecting?
    ensures Waiting(t) == Waiting(s) + {t.handlers[h].effectId}
  {
    forall id ensures id in Waiting(t) <==> id in Waiting(s) + {t.handlers[h].effectId} {
      if id in Waiting(s) {
        var g :| g in s.handlers && s.handlers[g].Connecting? && s.handlers[g].effectId == id;
        assert t.handlers[g] == s.handlers[g];
      }
    }
  }

  /** A handler that was waiting no longer does; nobody else waits for its effect. */
  lemma WaitingRemoved(s: Server, t: Server, h: nat)
    requires h in s.handlers && s.handlers[h].Connecting? && OneHandlerPerEffect(s)
    requires t.handlers == s.handlers[h := Finished]
    ensures s.handlers[h].effectId in Waiting(s) && Waiting(t) == Waiting(s) - {s.handlers[h].effectId}
  {
    forall id ensures id in Waiting(t) <==> id in Waiting(s) - {s.handlers[h].effectId} {
      if id in Waiting(s) && id != s.handlers[h].effectId {
        var g :| g in s.handlers && s.handlers[g].Connecting? && s.handlers[g].effectId == id;
        assert t.handlers[g] == s.handlers[g];
      }
    }
  }

  lemma WaitingIsNotLost(config: Config, s: Server, h: nat)
    requires Invariant(config, s) && h in s.handlers && s.handlers[h].Connecting?
    ensures s.handlers[h].effectId !in s.lost && OneHandlerPerEffect(s)
  {
    hide PhasesOf;
    hide EffectIdOf;
    hide DialInvariant;
    var id := s.handlers[h].effectId;
    assert EffectInvariant(s, id) && IsConnecting(s, id);
  }

  /** A settled effect is owed no longer: its outcome is in the log, or it is lost. */
  lemma SettledBalance(s: Server, t: Server, id: string, reached: bool)
    requires Conserved(s) && id !in s.lost && id in Waiting(s) && Waiting(t) == Waiting(s) - {id}
    requires Unsettled(t.log) == Unsettled(s.log) - if reached then 1 else 0
    requires t.lost == (if reached then s.lost else s.lost + {id})
    requires t.unsent == s.unsent && t.unwritten == s.unwritten && t.threw == s.threw
    ensures Conserved(t)
  {
    hide Unsettled;
    hide Waiting;
  }

  function OutcomeEvent(h: Handler, succeeded: bool): Event
    requires h.Connecting?
  {
    BoundEvent(h.request, h.resolution, if succeeded then Connected else ConnectionFailed, Some(Effect(h.effectId, Terminal)))
  }

  /** What settling a handler changes. */
  lemma SettleEffects(s: Server, a: Action)
    requires a.Settle? && a.id in s.handlers && s.handlers[a.id].Connecting?
    ensures var (h, t) := (s.handlers[a.id], SettleOn(s, a));
            && t.log == RecordOn(s.(handlers := t.handlers), OutcomeEvent(h, a.succeeded), a.append).server.log
            && t.handlers == s.handlers[a.id := Finished]
            && t.lost == (if Reaches(s, OutcomeEvent(h, a.succeeded), a.append) then s.lost else s.lost + {h.effectId})
            && t.unsent == s.unsent && t.unwritten == s.unwritten && t.threw == s.threw
            && Weight(OutcomeEvent(h, a.succeeded)) == -1
  {
    hide RecordOn;
    hide Reaches;
  }

  lemma SettleConserves(config: Config, s: Server, a: Action)
    requires Invariant(config, s) && Conserved(s)
    requires a.Settle? && a.id in s.handlers && s.handlers[a.id].Connecting?
    ensures Conserved(SettleOn(s, a))
  {
    WaitingIsNotLost(config, s, a.id);
    SettleEffects(s, a);
    hide Invariant;
    hide Conserved;
    hide OneHandlerPerEffect;
    hide RecordOn;
    hide Reaches;
    hide Unsettled;
    hide Waiting;
    hide Weight;
    hide SettleOn;
    hide OutcomeEvent;
    var t, event := SettleOn(s, a), OutcomeEvent(s.handlers[a.id], a.succeeded);
    SameReach(s, s.(handlers := t.handlers), event, a.append);
    RecordUnsettled(s.(handlers := t.handlers), event, a.append);
    WaitingRemoved(s, t, a.id);
    SettledBalance(s, t, s.handlers[a.id].effectId, Reaches(s, event, a.append));
  }

  lemma SameReach(s: Server, t: Server, event: Event, append: AppendOutcome)
    requires t == s.(handlers := t.handlers)
    ensures Reaches(s, event, append) <==> Reaches(t, event, append)
  {
  }

  /** A handler that does not wait for a socket may move on. */
  lemma WaitingSame(s: Server, t: Server, h: nat)
    requires h in t.handlers && t.handlers == s.handlers[h := t.handlers[h]]
    requires !t.handlers[h].Connecting? && (h in s.handlers ==> !s.handlers[h].Connecting?)
    ensures Waiting(t) == Waiting(s)
  {
    forall id ensures id in Waiting(t) <==> id in Waiting(s) {
      if id in Waiting(s) {
        var g :| g in s.handlers && s.handlers[g].Connecting? && s.handlers[g].effectId == id;
        assert t.handlers[g] == s.handlers[g];
      }
    }
  }

  lemma ArriveConserves(s: Server, a: Action)
    requires Conserved(s) && a.Arrive? && a.id !in s.handlers
    ensures Conserved(ArriveOn(s, a))
  {
    hide RecordOn;
    hide Unsettled;
    hide Waiting;
    var finished := s.(handlers := s.handlers[a.id := Finished]);
    WaitingSame(s, finished, a.id);
    WaitingSame(s, s.(handlers := s.handlers[a.id := Resolving(Request(a.protocol, a.hostname, a.hostClass))]), a.id);
    PlainConserves(s, finished, PlainEvent(a.verdict, a.hostClass, ResolutionNotAttempted), a.append);
    PlainConserves(s, finished, PlainEvent(Allow, a.hostClass, ResolutionNotAttempted), a.append);
    PlainConserves(s, finished, PlainEvent(Allow, a.hostClass, ResolutionFailed), a.append);
  }

  lemma ResolveConserves(config: Config, s: Server, a: Action)
    requires Invariant(config, s) && Conserved(s)
    requires a.Resolve? && a.id in s.handlers && s.handlers[a.id].Resolving?
    ensures Conserved(ResolveOn(config, s, a))
  {
    hide RecordOn;
    hide Unsettled;
    hide Waiting;
    hide Invariant;
    hide ResolveAndAdmit;
    hide DialOn;
    var finished := s.(handlers := s.handlers[a.id := Finished]);
    var r := ResolveAndAdmit(s.handlers[a.id].request.hostname, config.environment, a.settled, config.less);
    WaitingSame(s, finished, a.id);
    PlainConserves(s, finished, LifecycleEvent(s.handlers[a.id].request, r, ConnectionNotAttempted, None), a.first);
    if r.selected.Some? {
      FinishedKeeps(config, s, a.id);
      DialConserves(config, finished, a, s.handlers[a.id].request, r);
    }
  }

  lemma FinishedKeeps(config: Config, s: Server, h: nat)
    requires Invariant(config, s) && h in s.handlers && s.handlers[h].Resolving?
    ensures Invariant(config, s.(handlers := s.handlers[h := Finished]))
  {
    hide Invariant;
    LogOf(config, s);
    QuietStep(config, s, s.(handlers := s.handlers[h := Finished]));
  }

  lemma StepConserves(config: Config, s: Server, a: Action)
    requires Invariant(config, s) && Conserved(s)
    ensures Conserved(Step(config, s, a))
  {
    hide Invariant;
    hide Unsettled;
    hide ArriveOn;
    hide ResolveOn;
    hide SettleOn;
    match a
    case Arrive(_, _, _, _, _, _, _, _, _) => if a.id !in s.handlers { ArriveConserves(s, a); }
    case Resolve(_, _, _, _, _, _) => if a.id in s.handlers && s.handlers[a.id].Resolving? { ResolveConserves(config, s, a); }
    case Settle(_, _, _) => if a.id in s.handlers && s.handlers[a.id].Connecting? { SettleConserves(config, s, a); }
    case Close =>
  }

  lemma {:induction false} RunConserves(config: Config, actions: seq<Action>)
    ensures Conserved(Run(config, actions))
  {
    hide Step;
    hide Invariant;
    if actions == [] {
    } else {
      hide Conserved;
      RunKeeps(config, actions[..|actions| - 1]);
      RunConserves(config, actions[..|actions| - 1]);
      StepConserves(config, Run(config, actions[..|actions| - 1]), actions[|actions| - 1]);
    }
  }

  /**
    Over the events in the log of every reachable state, all its lines unless one was torn, `connectAttempted` is twice the number of settled connections
    plus one for each attempt without an outcome record: lost, never dialled, thrown without a record,
    or still waiting. So it is exactly twice if and only if there are none of these, for which it
    suffices that every handler has finished and no append failed.
   */
  lemma AttemptsCountedTwiceExactly(config: Config, actions: seq<Action>, summary: Summary)
    requires OutcomeCounts(GoodEvents(Run(config, actions).log), summary)
    ensures var s := Run(config, actions);
            var settled := summary.connected + summary.connectFailed;
            && summary.connectAttempted == 2 * settled + Owed(s)
            && (summary.connectAttempted == 2 * settled <==>
                 s.lost == {} && s.unsent == {} && s.unwritten == {} && Waiting(s) == {})
            && (Quiescent(s) && !s.evidenceWriteFailed ==> summary.connectAttempted == 2 * settled)
            && (!s.torn ==> AllGood(s.log) && GoodEvents(s.log) == EventsOf(s.log))
  {
    hide Run;
    hide Count;
    var s := Run(config, actions);
    RunConserves(config, actions);
    SubCounts(GoodEvents(s.log));
    FailureLeavesTrace(config, actions);
    ReaderAcceptsExactly(config, actions);
    if !s.torn { GoodEventsOfGood(s.log); }
    if Quiescent(s) {
      assert Waiting(s) == {};
    }
  }

  /** Without an evidence failure nothing was lost. */
  lemma {:induction false} FailureLeavesTrace(config: Config, actions: seq<Action>)
    ensures var s := Run(config, actions); !s.evidenceWriteFailed ==> s.lost == {} && s.unsent == {} && s.unwritten == {}
  {
    if actions != [] {
      FailureLeavesTrace(config, actions[..|actions| - 1]);
      StepLeavesTrace(config, Run(config, actions[..|actions| - 1]), actions[|actions| - 1]);
    }
  }

  lemma StepLeavesTrace(config: Config, s: Server, a: Action)
    requires !s.evidenceWriteFailed ==> s.lost == {} && s.unsent == {} && s.unwritten == {}
    ensures var t := Step(config, s, a); !t.evidenceWriteFailed ==> t.lost == {} && t.unsent == {} && t.unwritten == {}
  {
    hide EffectIdOf;
    hide ResolveAndAdmit;
    StepGrows(config, s, a);
  }

  /** Had the strict reader been given both fields, its acceptance would have guaranteed the balance. */
  lemma PairsWouldBalance(config: Config, actions: seq<Action>, summary: Summary)
    requires OutcomeCounts(GoodEvents(Run(config, actions).log), summary)
    requires Accepted(Run(config, actions).intended)
    ensures summary.connectAttempted == 2 * (summary.connected + summary.connectFailed)
  {
    hide Run;
    hide Accepted;
    var s := Run(config, actions);
    VerdictsAgreeExactly(config, actions);
    RunConserves(config, actions);
    AttemptsCountedTwiceExactly(config, actions, summary);
  }
}
