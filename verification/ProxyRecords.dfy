/**
  What the proxy's log tells of its requests: the records that are due for every action of a run, and
  that the log is exactly these, in order, for as long as appends work.
 */
module ProxyRecords {
  import opened Wrappers
  import opened AddressText
  import opened AddressAdmission
  import opened AddressDecisions
  import opened AddressCase
  import opened EventLedger
  import opened ProxyJournal

  /** The fields of a record apart from its number. */
  datatype Facts = Facts(
    decision: Verdict, hostClass: HostClass, resolution: ResolutionState, answers: Option<nat>, connection: Connection,
    violation: Option<Violation>, address: Option<Bound>)

  predicate States(event: Event, f: Facts) {
    && event.decision == f.decision && event.hostClass == f.hostClass
    && event.resolution == Some(f.resolution) && event.answerCount == f.answers && event.connection == Some(f.connection)
    && event.violation == f.violation && event.address == f.address && event.effect.None?
  }

  /** The request may go on to the resolver. */
  predicate GoesOn(s: Server, a: Action)
    requires a.Arrive?
  {
    a.verdict == Allow && a.hasTarget && a.gate == Pass && !a.cancelled && !s.shuttingDown
  }

  /** What the resolver step makes of a waiting handler's host. */
  function Resolved(config: Config, s: Server, a: Action): Resolution
    requires a.Resolve? && a.id in s.handlers && s.handlers[a.id].Resolving?
  {
    ResolveAndAdmit(s.handlers[a.id].request.hostname, config.environment, a.settled, config.less)
  }

  predicate Resumes(s: Server, a: Action) {
    a.Resolve? && a.id in s.handlers && s.handlers[a.id].Resolving?
  }

  predicate GoesOnToDial(config: Config, s: Server, a: Action)
    requires Resumes(s, a)
  {
    !a.cancelled && !s.shuttingDown && Resolved(config, s, a).selected.Some?
  }

  /** A refused request is recorded under its own verdict, without resolution or connection. */
  function DueOnArrival(s: Server, a: Action): seq<Facts>
    requires a.Arrive?
  {
    if GoesOn(s, a) then []
    else if a.verdict == Allow && a.hasTarget && a.gate == Pass then
      [Facts(Allow, a.hostClass, ResolutionFailed, None, ConnectionNotAttempted, None, None)]
    else [Facts(a.verdict, a.hostClass, ResolutionNotAttempted, None, ConnectionNotAttempted, None, None)]
  }

  /** After the resolver: why nothing is dialled, or the attempt, and the failure of a dial that throws. */
  function DueOnResolution(config: Config, s: Server, a: Action): seq<Facts>
    requires Resumes(s, a)
  {
    var r, hostClass := Resolved(config, s, a), s.handlers[a.id].request.hostClass;
    var answers := Some(r.answerCount);
    if GoesOnToDial(config, s, a) then
      var bound := Some(Bound(r.selected.value.family, r.selected.value.kind));
      [Facts(Allow, hostClass, ResolutionAdmitted, answers, Attempted, None, bound)] +
      if a.throws then [Facts(Allow, hostClass, ResolutionAdmitted, answers, ConnectionFailed, Some(AddressBindingViolation), bound)] else []
    else
      match r.outcome
      case OutcomeAdmitted => [Facts(Allow, hostClass, ResolutionAdmitted, answers, ConnectionNotAttempted, None, None)]
      case OutcomeDenied => [Facts(Allow, hostClass, ResolutionDenied, answers, ConnectionNotAttempted, Some(AddressPolicyViolation), None)]
      case OutcomeFailed => [Facts(Allow, hostClass, ResolutionFailed, answers, ConnectionNotAttempted, Some(ResolutionViolation), None)]
  }

  /** The records that are due for an action while appends work. */
  function Due(config: Config, s: Server, a: Action): seq<Facts> {
    match a
    case Arrive(_, _, _, _, _, _, _, _, _) => if a.id in s.handlers then [] else DueOnArrival(s, a)
    case Resolve(_, _, _, _, _, _) => if Resumes(s, a) then DueOnResolution(config, s, a) else []
    case Settle(_, _, _) =>
      if a.id in s.handlers && s.handlers[a.id].Connecting? then
        var h := s.handlers[a.id];
        [Facts(Allow, h.request.hostClass, ResolutionAdmitted, Some(h.resolution.answerCount), if a.succeeded then Connected else ConnectionFailed,
               None, AddressOf(h.resolution.selected))]
      else []
    case Close => []
  }

  function AllDue(config: Config, actions: seq<Action>): seq<Facts> {
    if actions == [] then []
    else
      var front := actions[..|actions| - 1];
      AllDue(config, front) + Due(config, Run(config, front), actions[|actions| - 1])
  }

  // ----- one action -----

  /** A step wrote a prefix of what was due, all of it unless an append failed. */
  ghost predicate Wrote(s: Server, t: Server, due: seq<Facts>) {
    && s.log <= t.log && |t.log| <= |s.log| + |due|
    && (forall p :: |s.log| <= p < |t.log| && t.log[p].Good? ==> States(t.log[p].event, due[p - |s.log|]))
    && (!t.evidenceWriteFailed ==> |t.log| == |s.log| + |due|)
  }

  lemma RecordWrites(s: Server, event: Event, append: AppendOutcome, f: Facts)
    requires States(event.(effect := None), f) && !s.evidenceWriteFailed
    ensures Wrote(s, RecordOn(s, event, append).server, [f])
    ensures RecordOn(s, event, append).seqNo < 0 <==> RecordOn(s, event, append).server.evidenceWriteFailed
  {
  }

  lemma SilentAfterFailure(config: Config, s: Server, a: Action)
    requires s.evidenceWriteFailed
    ensures Step(config, s, a).log == s.log && Step(config, s, a).evidenceWriteFailed
  {
    StepGrows(config, s, a);
  }

  lemma ArrivalWrites(s: Server, a: Action)
    requires a.Arrive? && a.id !in s.handlers && !s.evidenceWriteFailed
    ensures Wrote(s, ArriveOn(s, a), DueOnArrival(s, a))
  {
    var finished := s.(handlers := s.handlers[a.id := Finished]);
    if !GoesOn(s, a) {
      var f := DueOnArrival(s, a)[0];
      var event := PlainEvent(f.decision, a.hostClass, f.resolution);
      RecordWrites(finished, event, a.append, f);
      hide RecordOn;
    }
  }

  lemma ResolutionWrites(config: Config, s: Server, a: Action)
    requires Resumes(s, a) && !s.evidenceWriteFailed
    ensures Wrote(s, ResolveOn(config, s, a), DueOnResolution(config, s, a))
  {
    hide ResolveAndAdmit;
    hide Acceptable;
    hide EffectIdOf;
    var q, r := s.handlers[a.id].request, Resolved(config, s, a);
    var finished := s.(handlers := s.handlers[a.id := Finished]);
    SelectedIsAcceptable(q.hostname, config.environment, a.settled, config.less);
    if GoesOnToDial(config, s, a) {
      DialWrites(finished, a, q, r);
      hide DialOn;
    } else {
      RecordWrites(finished, LifecycleEvent(q, r, ConnectionNotAttempted, None), a.first, DueOnResolution(config, s, a)[0]);
      hide RecordOn;
    }
  }

  function AttemptFacts(q: Request, r: Resolution): Facts
    requires r.selected.Some?
  {
    var target := r.selected.value;
    Facts(Allow, q.hostClass, ResolutionAdmitted, Some(r.answerCount), Attempted, None, Some(Bound(target.family, target.kind)))
  }

  function ThrownFacts(q: Request, r: Resolution): Facts
    requires r.selected.Some?
  {
    var target := r.selected.value;
    Facts(Allow, q.hostClass, ResolutionAdmitted, Some(r.answerCount), ConnectionFailed, Some(AddressBindingViolation), Some(Bound(target.family, target.kind)))
  }

  lemma DialWrites(s: Server, a: Action, q: Request, r: Resolution)
    requires a.Resolve? && !s.evidenceWriteFailed && r.selected.Some? && r.outcome == OutcomeAdmitted
    ensures Wrote(s, DialOn(s, a, q, r),
                  [AttemptFacts(q, r)] + if a.throws then [ThrownFacts(q, r)] else [])
  {
    hide EffectIdOf;
    var id := EffectIdOf(s.eventSeq);
    var event := BoundEvent(q, r, Attempted, Some(Effect(id, Prepared)));
    RecordWrites(s, event, a.first, AttemptFacts(q, r));
    var prepared := RecordOn(s, event, a.first);
    if prepared.seqNo >= 0 && a.throws {
      RecordWrites(prepared.server.(threw := s.threw + {id}), ThrownEvent(q, r), a.second, ThrownFacts(q, r));
    }
    hide RecordOn;
  }

  lemma SettlingWrites(config: Config, s: Server, a: Action)
    requires a.Settle? && a.id in s.handlers && s.handlers[a.id].Connecting? && !s.evidenceWriteFailed
    requires s.handlers[a.id].resolution.outcome == OutcomeAdmitted
    ensures Wrote(s, SettleOn(s, a), Due(config, s, a))
  {
    var h := s.handlers[a.id];
    var finished := s.(handlers := s.handlers[a.id := Finished]);
    var connection := if a.succeeded then Connected else ConnectionFailed;
    RecordWrites(finished, BoundEvent(h.request, h.resolution, connection, Some(Effect(h.effectId, Terminal))), a.append, Due(config, s, a)[0]);
    hide RecordOn;
  }

  lemma StepWrites(config: Config, s: Server, a: Action)
    requires ConnectionsMatch(s) && !s.evidenceWriteFailed
    ensures Wrote(s, Step(config, s, a), Due(config, s, a))
  {
    hide ArriveOn;
    hide ResolveOn;
    hide SettleOn;
    hide DueOnArrival;
    hide DueOnResolution;
    match a
    case Arrive(_, _, _, _, _, _, _, _, _) => if a.id !in s.handlers { ArrivalWrites(s, a); }
    case Resolve(_, _, _, _, _, _) => if Resumes(s, a) { ResolutionWrites(config, s, a); }
    case Settle(_, _, _) => if a.id in s.handlers && s.handlers[a.id].Connecting? { SettlingWrites(config, s, a); }
    case Close =>
  }

  /**
    The log of every run is what was due: line by line the records that the actions of the run call for,
    each whole line with exactly these facts and without an effect, and all of them as long as no append
    failed.
   */
  lemma {:induction false} LogIsDue(config: Config, actions: seq<Action>)
    ensures var (s, due) := (Run(config, actions), AllDue(config, actions));
            && |s.log| <= |due|
            && (forall p :: 0 <= p < |s.log| && s.log[p].Good? ==> States(s.log[p].event, due[p]))
            && (!s.evidenceWriteFailed ==> |s.log| == |due|)
  {
    hide Step;
    hide Due;
    hide States;
    if actions != [] {
      var front, a := actions[..|actions| - 1], actions[|actions| - 1];
      LogIsDue(config, front);
      var s := Run(config, front);
      RunMatches(config, front);
      if s.evidenceWriteFailed {
        SilentAfterFailure(config, s, a);
      } else {
        StepWrites(config, s, a);
      }
    }
  }

  // ----- whose verdict it is -----

  predicate Kept(h: Handler, q: Request) {
    !h.Finished? && h.request == q
  }

  /** What a step makes of a handler: it starts, moves on with the same request, or finishes for good. */
  lemma StepHandlers(config: Config, s: Server, a: Action, h: nat)
    ensures var t := Step(config, s, a);
            && (h in s.handlers ==> h in t.handlers)
            && (h in s.handlers && s.handlers[h].Finished? ==> t.handlers[h].Finished?)
            && (h in t.handlers && !t.handlers[h].Finished? ==>
                  || (h in s.handlers && Kept(s.handlers[h], t.handlers[h].request))
                  || (t.handlers[h].Resolving? && Starts(s, a, h, t.handlers[h].request)))
            && (a.Arrive? && a.id == h && h !in s.handlers ==>
                  && h in t.handlers
                  && t.handlers[h] == if GoesOn(s, a) && !s.evidenceWriteFailed then Resolving(Request(a.protocol, a.hostname, a.hostClass))
                                      else Finished)
  {
    hide RecordOn;
    hide EffectIdOf;
    hide ResolveAndAdmit;
  }

  /** Whatever a waiting handler keeps of its request is what it arrived with, and it arrived allowed. */
  lemma {:induction false} RequestIsArrival(config: Config, actions: seq<Action>, h: nat)
    requires h in Run(config, actions).handlers && !Run(config, actions).handlers[h].Finished?
    ensures exists k: nat :: StartsFor(config, actions, k, h, Run(config, actions).handlers[h].request)
  {
    if actions == [] {
    } else {
      var front, a := actions[..|actions| - 1], actions[|actions| - 1];
      var s := Run(config, front);
      StepHandlers(config, s, a, h);
      hide Step;
      hide Starts;
      var q := Run(config, actions).handlers[h].request;
      if h in s.handlers && Kept(s.handlers[h], q) {
        RequestIsArrival(config, front, h);
        var k: nat :| StartsFor(config, front, k, h, q);
        assert actions[..k] == front[..k];
        assert StartsFor(config, actions, k, h, q);
      } else {
        assert StartsFor(config, actions, |front|, h, q);
      }
    }
  }

  lemma StepFinishes(config: Config, s: Server, a: Action, h: nat)
    ensures h in s.handlers ==> h in Step(config, s, a).handlers
    ensures h in s.handlers && s.handlers[h].Finished? ==> Step(config, s, a).handlers[h].Finished?
  {
    StepHandlers(config, s, a, h);
    hide Step;
  }

  lemma {:induction false} HandlersStay(config: Config, before: seq<Action>, after: seq<Action>, h: nat)
    ensures var (s, t) := (Run(config, before), Run(config, before + after));
            && (h in s.handlers ==> h in t.handlers)
            && (h in s.handlers && s.handlers[h].Finished? ==> t.handlers[h].Finished?)
  {
    hide Step;
    if after == [] {
      assert before + after == before;
    } else {
      var all, front := before + after, after[..|after| - 1];
      assert all[..|all| - 1] == before + front;
      HandlersStay(config, before, front, h);
      StepFinishes(config, Run(config, before + front), all[|all| - 1], h);
    }
  }

  /** One record was added for an arrival: under its own verdict and host class, and nothing is connected. */
  ghost predicate RecordedOnce(s: Server, t: Server, a: Action)
    requires a.Arrive?
  {
    && |t.log| == |s.log| + 1 && t.log[|s.log|].Good?
    && var event := t.log[|s.log|].event;
       event.decision == a.verdict && event.hostClass == a.hostClass && event.connection == Some(ConnectionNotAttempted)
  }

  predicate IsFinished(s: Server, h: nat) {
    h in s.handlers && s.handlers[h] == Finished
  }

  /**
    A request that may not go on, be it for its verdict, a missing target or ticket, or a cancellation,
    is finished on arrival and never dialled, however the run goes on; while appends work, exactly one
    record is added for it, under its own verdict and host class, and nothing is connected.
   */
  lemma RefusedIsNeverDialled(config: Config, before: seq<Action>, a: Action, after: seq<Action>)
    requires a.Arrive? && a.id !in Run(config, before).handlers && !GoesOn(Run(config, before), a)
    ensures var (s, t, u) := (Run(config, before), Run(config, before + [a]), Run(config, before + [a] + after));
            && IsFinished(t, a.id) && IsFinished(u, a.id)
            && (forall i :: 0 <= i < |u.dials| ==> u.dials[i].handler != a.id)
            && (!t.evidenceWriteFailed ==> RecordedOnce(s, t, a))
  {
    var all := before + [a] + after;
    var s := Run(config, before);
    assert (before + [a])[..|before|] == before;
    StepHandlers(config, s, a, a.id);
    HandlersStay(config, before + [a], after, a.id);
    ArrivalRecorded(config, before, a);
    hide RecordedOnce;
    hide Step;
    forall i | 0 <= i < |Run(config, all).dials| ensures Run(config, all).dials[i].handler != a.id {
      if Run(config, all).dials[i].handler == a.id {
        DialsAreOwn(config, all, i);
        RefusedHasNoStart(config, before, a, after);
      }
    }
  }

  lemma ArrivalRecorded(config: Config, before: seq<Action>, a: Action)
    requires a.Arrive? && a.id !in Run(config, before).handlers && !GoesOn(Run(config, before), a)
    ensures var (s, t) := (Run(config, before), Run(config, before + [a]));
            !t.evidenceWriteFailed ==> RecordedOnce(s, t, a)
  {
    assert (before + [a])[..|before|] == before;
    var (s, t) := (Run(config, before), Run(config, before + [a]));
    if s.evidenceWriteFailed {
      SilentAfterFailure(config, s, a);
    } else {
      RunMatches(config, before);
      StepWrites(config, s, a);
      RunKeeps(config, before + [a]);
      LogOf(config, t);
      hide Step;
      hide Invariant;
      if !t.evidenceWriteFailed {
        assert t.intended[|s.log|].Good?;
        assert t.log[|s.log|] == Stripped(t.intended[|s.log|]);
      }
    }
  }

  /** No other arrival can have started the handler either: a handler starts once. */
  lemma RefusedHasNoStart(config: Config, before: seq<Action>, a: Action, after: seq<Action>)
    requires a.Arrive? && a.id !in Run(config, before).handlers && !GoesOn(Run(config, before), a)
    ensures forall k: nat, q :: !StartsFor(config, before + [a] + after, k, a.id, q)
  {
    var all := before + [a] + after;
    forall k: nat, q ensures !StartsFor(config, all, k, a.id, q) {
      if k < |all| && all[k].Arrive? && all[k].id == a.id && a.id !in Run(config, all[..k]).handlers {
        if k < |before| {
          assert all[..k + 1][..k] == all[..k] && before == all[..k + 1] + before[k + 1..];
          StepHandlers(config, Run(config, all[..k]), all[k], a.id);
          HandlersStay(config, all[..k + 1], before[k + 1..], a.id);
        } else if k == |before| {
          assert all[..k] == before && all[k] == a;
        } else {
          assert (before + [a])[..|before|] == before && all[..k] == before + [a] + after[..k - |before| - 1];
          StepHandlers(config, Run(config, before), a, a.id);
          HandlersStay(config, before + [a], after[..k - |before| - 1], a.id);
        }
      }
    }
  }

  /** The server is shutting down exactly from its first close on. */
  lemma {:induction false} ShutsDownExactly(config: Config, actions: seq<Action>)
    ensures Run(config, actions).shuttingDown <==> Close in actions
  {
    if actions != [] {
      var front, a := actions[..|actions| - 1], actions[|actions| - 1];
      ShutsDownExactly(config, front);
      assert actions == front + [a];
      StepShutsDown(config, Run(config, front), a);
      hide Step;
    }
  }

  lemma StepShutsDown(config: Config, s: Server, a: Action)
    ensures Step(config, s, a).shuttingDown <==> s.shuttingDown || a == Close
  {
    hide RecordOn;
    hide EffectIdOf;
    hide ResolveAndAdmit;
  }

  // ----- the one field that can stop the evidence -----

  /**
    For a host name that has to be looked up, the record of what was resolved can be stored iff there
    are at most eight answers.
   */
  lemma RecordableExactly(config: Config, q: Request, answers: seq<Answer>, n: nat)
    requires ParseAddress(q.hostname, None).None? && !InAnyCase(q.hostname, "localhost", "LOCALHOST") && n <= 1_000_000_000
    ensures var r := ResolveAndAdmit(q.hostname, config.environment, Answers(answers), config.less);
            Persistable(LifecycleEvent(q, r, ConnectionNotAttempted, None), n) <==> |answers| <= 8
  {
    NameResolved(q.hostname, config.environment, Answers(answers), config.less);
    hide ResolveAndAdmit;
    hide AllAcceptable;
    hide ParseAddress;
  }

  /**
    So a resolver answer of more than eight records is not recorded, whatever the file system does, and
    ends the evidence: no later request is recorded or dialled.
   */
  lemma OversizedAnswersStopTheEvidence(config: Config, before: seq<Action>, a: Action, after: seq<Action>)
    requires Resumes(Run(config, before), a) && a.settled.Answers? && |a.settled.answers| > 8
    requires var hostname := Run(config, before).handlers[a.id].request.hostname;
             ParseAddress(hostname, None).None? && !InAnyCase(hostname, "localhost", "LOCALHOST")
    ensures var (s, u) := (Run(config, before), Run(config, before + [a] + after));
            u.evidenceWriteFailed && u.log == s.log && u.dials == s.dials
  {
    var s := Run(config, before);
    assert (before + [a])[..|before|] == before;
    OversizedIsMissed(config, s, a);
    hide Step;
    RunGrows(config, before + [a], after);
  }

  lemma OversizedIsMissed(config: Config, s: Server, a: Action)
    requires Resumes(s, a) && a.settled.Answers? && |a.settled.answers| > 8
    requires var hostname := s.handlers[a.id].request.hostname;
             ParseAddress(hostname, None).None? && !InAnyCase(hostname, "localhost", "LOCALHOST")
    ensures var t := Step(config, s, a);
            t.evidenceWriteFailed && t.log == s.log && t.dials == s.dials
  {
    NameResolved(s.handlers[a.id].request.hostname, config.environment, a.settled, config.less);
    hide ResolveAndAdmit;
    hide CheckAnswer;
    hide ParseAddress;
    hide EffectIdOf;
    hide Acceptable;
    assert Resolved(config, s, a).selected.None?;
  }
}
