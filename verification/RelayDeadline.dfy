/** One abortable deadline per relay operation. */
module RelayDeadline {
  import opened Wrappers

  datatype FailureClass = DeadlineExceeded | AbortedByCaller | TransportFailed

  /** The caller's signal when the deadline is created. */
  datatype Caller = NoCaller | Listening | AlreadyAborted

  datatype Deadline = Deadline(cause: Option<FailureClass>, timerArmed: bool, listening: bool, disposed: bool)

  datatype Event = TimerFires | CallerAborts | Disposes

  function Created(caller: Caller): Deadline {
    Deadline(if caller == AlreadyAborted then Some(AbortedByCaller) else None, true, caller == Listening, false)
  }

  function Settle(d: Deadline, reason: FailureClass): Deadline {
    if d.cause.Some? then d else d.(cause := Some(reason))
  }

  /** A cleared timer and a removed listener never call back, and each of them calls back once. */
  function Happens(d: Deadline, e: Event): Deadline {
    match e
    case TimerFires => if d.timerArmed then Settle(d.(timerArmed := false), DeadlineExceeded) else d
    case CallerAborts => if d.listening then Settle(d.(listening := false), AbortedByCaller) else d
    case Disposes => if d.disposed then d else d.(timerArmed := false, listening := false, disposed := true)
  }

  function After(d: Deadline, events: seq<Event>): Deadline {
    if events == [] then d else Happens(After(d, events[..|events| - 1]), events[|events| - 1])
  }

  /** The cause read off the events alone: the first callback that comes before any dispose. */
  function FirstCause(caller: Caller, events: seq<Event>): Option<FailureClass> {
    if caller == AlreadyAborted then Some(AbortedByCaller)
    else if events == [] then None
    else
      match events[0]
      case TimerFires => Some(DeadlineExceeded)
      case CallerAborts => if caller == Listening then Some(AbortedByCaller) else FirstCause(caller, events[1..])
      case Disposes => None
  }

  lemma {:induction false} AfterConcat(d: Deadline, first: seq<Event>, second: seq<Event>)
    ensures After(d, first + second) == After(After(d, first), second)
  {
    if second == [] {
      assert first + second == first;
    } else {
      var all := first + second;
      assert all[..|all| - 1] == first + second[..|second| - 1] && all[|all| - 1] == second[|second| - 1];
      AfterConcat(d, first, second[..|second| - 1]);
    }
  }

  /** A deadline that has settled, or been disposed of, keeps its cause whatever happens next. */
  lemma {:induction false} CauseIsFinal(d: Deadline, events: seq<Event>)
    requires d.cause.Some? || (d.disposed && !d.timerArmed && !d.listening)
    ensures After(d, events).cause == d.cause
    ensures d.disposed && !d.timerArmed && !d.listening ==> After(d, events) == d
  {
    if events != [] { CauseIsFinal(d, events[..|events| - 1]); }
  }

  /** The cause is set at most once: it is the first callback, whatever comes after it. */
  lemma {:induction false} CauseIsFirstCallback(caller: Caller, events: seq<Event>)
    ensures After(Created(caller), events).cause == FirstCause(caller, events)
  {
    if caller == AlreadyAborted {
      CauseIsFinal(Created(caller), events);
    } else if events != [] {
      assert events == [events[0]] + events[1..];
      AfterConcat(Created(caller), [events[0]], events[1..]);
      assert [events[0]][..0] == [] && After(Created(caller), []) == Created(caller);
      var one := After(Created(caller), [events[0]]);
      assert one == Happens(Created(caller), events[0]);
      if events[0] == CallerAborts && caller == NoCaller {
        CauseIsFirstCallback(caller, events[1..]);
      } else {
        CauseIsFinal(one, events[1..]);
      }
    }
  }

  /** The closure's variables: `cause`, `disposed`, the timer handle, the listener and the abort signal. */
  class RelayTimer {
    const totalMs: int
    const started: int
    var cause: Option<FailureClass>
    var timerArmed: bool
    var listening: bool
    var disposed: bool
    var aborted: bool
    /** How often the operation's signal was aborted. */
    ghost var aborts: nat

    ghost function State(): Deadline
      reads this
    {
      Deadline(cause, timerArmed, listening, disposed)
    }

    ghost predicate Valid()
      reads this
    {
      (aborted <==> cause.Some?) && aborts == if aborted then 1 else 0
    }

    /** The caller checks `totalMs > 0`; a budget that is not positive throws before anything is armed. */
    constructor (budgetMs: int, caller: Caller, now: int)
      requires budgetMs > 0
      ensures Valid() && State() == Created(caller) && totalMs == budgetMs && started == now
    {
      totalMs := budgetMs;
      started := now;
      cause := None;
      disposed := false;
      timerArmed := true;
      listening := false;
      aborted := false;
      aborts := 0;
      new;
      if caller == AlreadyAborted {
        Settle(AbortedByCaller);
      } else if caller == Listening {
        listening := true;
      }
    }

    method Settle(reason: FailureClass)
      requires Valid()
      modifies this`cause, this`aborted, this`aborts
      ensures Valid() && cause == (if old(cause).Some? then old(cause) else Some(reason))
    {
      if cause.Some? { return; }
      cause := Some(reason);
      if !aborted {
        aborted := true;
        aborts := aborts + 1;
      }
    }

    method TimerFired()
      requires Valid()
      modifies this
      ensures Valid() && State() == Happens(old(State()), TimerFires)
    {
      if timerArmed {
        timerArmed := false;
        Settle(DeadlineExceeded);
      }
    }

    method CallerAborted()
      requires Valid()
      modifies this
      ensures Valid() && State() == Happens(old(State()), CallerAborts)
    {
      if listening {
        listening := false;
        Settle(AbortedByCaller);
      }
    }

    method Dispose()
      requires Valid()
      modifies this
      ensures Valid() && State() == Happens(old(State()), Disposes)
    {
      if disposed { return; }
      disposed := true;
      timerArmed := false;
      listening := false;
    }

    /** What each stage gets: what is left of the one budget, never a budget of its own. */
    method RemainingMs(now: int) returns (left: int)
      ensures left >= 0 && (left > 0 ==> left + (now - started) == totalMs)
      ensures left == 0 <==> now - started >= totalMs
    {
      left := totalMs - (now - started);
      if left <= 0 { left := 0; }
    }
  }
}
