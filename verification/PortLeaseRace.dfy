/**
  The same allocator run by any number of live processes, one system call at a time. A run is a list
  of actions; an action that is not enabled changes nothing.
 */
module PortLeaseRace {
  import opened PortLease

  /** Where a process stands inside `reserveWithAvailability` or `releaseLease`. */
  datatype Activity =
    | Idle
    | Looking(preferred: nat, offset: nat)                  // before readLease
    | SawNoLease(preferred: nat, offset: nat)               // before existsSync
    | SawDead(preferred: nat, offset: nat)                  // before unlinkSync of the dead lease
    | Clear(preferred: nat, offset: nat)                    // before openSync(file, 'wx')
    | Created(preferred: nat, offset: nat, token: Token)    // before writeFileSync, the file is empty
    | Written(preferred: nat, offset: nat, token: Token)    // before the TCP probe
    | Refused(preferred: nat, offset: nat, token: Token)    // before unlinkSync of the own lease
    | Releasing(port: nat, token: Token)                    // before readLease
    | Confirmed(port: nat, token: Token)                    // before unlinkSync

  /** A process and the leases it was given and has not begun to release. */
  datatype Process = Process(activity: Activity, held: map<nat, Token>)

  datatype System = System(files: Files, processes: map<int, Process>, drawn: nat)

  datatype Action =
    | Reserve(pid: int, preferred: nat)
    | Release(pid: int, port: nat, token: Token)
    /** The next system call; `available` is what the TCP probe would say. */
    | Advance(pid: int, available: bool)

  function PortOf(preferred: nat, offset: nat): nat
    requires ValidPort(preferred) && offset < CANDIDATE_COUNT
  {
    CandidateForm(preferred, offset);
    CandidatePort(preferred, offset)
  }

  predicate InSearch(a: Activity) {
    a.Looking? || a.SawNoLease? || a.SawDead? || a.Clear? || a.Created? || a.Written? || a.Refused?
  }

  predicate WellFormed(a: Activity) {
    InSearch(a) ==> ValidPort(a.preferred) && a.offset < CANDIDATE_COUNT
  }

  /** On to the next candidate; after the last one the reservation throws EXHAUSTED. */
  function Onward(preferred: nat, offset: nat): Activity {
    if offset + 1 < CANDIDATE_COUNT then Looking(preferred, offset + 1) else Idle
  }

  function Become(s: System, pid: int, a: Activity): System
    requires pid in s.processes
  {
    s.(processes := s.processes[pid := s.processes[pid].(activity := a)])
  }

  /** One system call of a process. */
  function Call(alive: set<int>, s: System, pid: int, available: bool): System
    requires pid in s.processes && WellFormed(s.processes[pid].activity)
  {
    var me := s.processes[pid];
    match me.activity
    case Idle => s
    case Looking(preferred, offset) =>
      var port := PortOf(preferred, offset);
      if port in s.files && s.files[port].Lease? then
        Become(s, pid, if s.files[port].pid in alive then Onward(preferred, offset) else SawDead(preferred, offset))
      else Become(s, pid, SawNoLease(preferred, offset))
    case SawNoLease(preferred, offset) =>
      Become(s, pid, if PortOf(preferred, offset) in s.files then Onward(preferred, offset) else Clear(preferred, offset))
    case SawDead(preferred, offset) =>
      var port := PortOf(preferred, offset);
      if port in s.files then Become(s, pid, Clear(preferred, offset)).(files := s.files - {port})
      else Become(s, pid, Onward(preferred, offset))
    case Clear(preferred, offset) =>
      var port := PortOf(preferred, offset);
      if port in s.files then Become(s, pid, Onward(preferred, offset))
      else Become(s, pid, Created(preferred, offset, s.drawn)).(files := s.files[port := Unreadable], drawn := s.drawn + 1)
    case Created(preferred, offset, token) =>
      Become(s, pid, Written(preferred, offset, token)).(files := s.files[PortOf(preferred, offset) := Lease(pid, token)])
    case Written(preferred, offset, token) =>
      if available then
        s.(processes := s.processes[pid := Process(Idle, me.held[PortOf(preferred, offset) := token])])
      else Become(s, pid, Refused(preferred, offset, token))
    case Refused(preferred, offset, _) =>
      Become(s, pid, Onward(preferred, offset)).(files := s.files - {PortOf(preferred, offset)})
    case Releasing(port, token) =>
      Become(s, pid, if port in s.files && s.files[port] == Lease(pid, token) then Confirmed(port, token) else Idle)
    case Confirmed(port, _) =>
      Become(s, pid, Idle).(files := s.files - {port})
  }

  function Step(alive: set<int>, s: System, a: Action): System {
    if a.pid !in s.processes then s
    else
      var me := s.processes[a.pid];
      match a
      case Reserve(pid, preferred) =>
        if me.activity == Idle && ValidPort(preferred) then Become(s, pid, Looking(preferred, 0)) else s
      case Release(pid, port, token) =>
        if me.activity != Idle then s
        else
          var held := if port in me.held && me.held[port] == token then me.held - {port} else me.held;
          s.(processes := s.processes[pid := Process(Releasing(port, token), held)])
      case Advance(pid, available) =>
        if WellFormed(me.activity) then Call(alive, s, pid, available) else s
  }

  /** Live processes, none of them busy, and whatever lease files are lying around. */
  function Initial(alive: set<int>, files: Files): System {
    System(files, map pid | pid in alive :: Process(Idle, map[]), 0)
  }

  function Run(alive: set<int>, files: Files, actions: seq<Action>): System {
    if actions == [] then Initial(alive, files)
    else Step(alive, Run(alive, files, actions[..|actions| - 1]), actions[|actions| - 1])
  }

  // ----- the invariant -----

  /** The port whose file a process relies on at this point, and what that file holds. */
  predicate Claims(a: Activity, port: nat) {
    || ((a.Created? || a.Written? || a.Refused?) && WellFormed(a) && PortOf(a.preferred, a.offset) == port)
    || (a.Confirmed? && a.port == port)
  }

  function ClaimedFile(pid: int, a: Activity): LeaseFile
    requires a.Created? || a.Written? || a.Refused? || a.Confirmed?
  {
    if a.Created? then Unreadable else Lease(pid, a.token)
  }

  predicate Holds(p: Process, port: nat) {
    port in p.held || Claims(p.activity, port)
  }

  /** Two unreleased leases never name the same port. */
  predicate MutualExclusion(s: System) {
    forall p, q, port :: p in s.processes && q in s.processes && port in s.processes[p].held && port in s.processes[q].held ==> p == q
  }

  predicate NoDeadLease(alive: set<int>, files: Files) {
    forall port :: port in files && ValidPort(port) && files[port].Lease? ==> files[port].pid in alive
  }

  predicate ProcessInvariant(s: System, pid: int)
    requires pid in s.processes
  {
    var p := s.processes[pid];
    && WellFormed(p.activity) && !p.activity.SawDead?
    && (forall port :: port in p.held ==> port in s.files && s.files[port] == Lease(pid, p.held[port]))
    && (p.activity.Releasing? && p.activity.port in p.held ==> p.held[p.activity.port] != p.activity.token)
    && (forall port :: port in p.held ==> !Claims(p.activity, port))
  }

  predicate ClaimInvariant(s: System, pid: int, port: nat)
    requires pid in s.processes
  {
    var a := s.processes[pid].activity;
    Claims(a, port) ==> port in s.files && s.files[port] == ClaimedFile(pid, a)
  }

  ghost predicate Invariant(alive: set<int>, s: System) {
    && s.processes.Keys == alive
    && NoDeadLease(alive, s.files)
    && (forall pid :: pid in s.processes ==> ProcessInvariant(s, pid))
    && (forall pid, port :: pid in s.processes ==> ClaimInvariant(s, pid, port))
    && (forall p, q, port :: p in s.processes && q in s.processes && p != q ==>
          !(Holds(s.processes[p], port) && Holds(s.processes[q], port)))
  }

  /** No other process can rely on the file of this port. */
  predicate Mine(s: System, pid: int, port: nat)
    requires pid in s.processes
  {
    || port !in s.files || Holds(s.processes[pid], port)
    || (s.files[port].Lease? && s.files[port].pid == pid)
  }

  lemma OthersKeepOff(alive: set<int>, s: System, pid: int, q: int, port: nat)
    requires Invariant(alive, s) && pid in s.processes && q in s.processes && q != pid && Mine(s, pid, port)
    ensures !Holds(s.processes[q], port)
  {
    assert ProcessInvariant(s, q) && ClaimInvariant(s, q, port);
    assert !(Holds(s.processes[pid], port) && Holds(s.processes[q], port));
  }

  /** A step of one process that only touches files of its own keeps the invariant. */
  lemma OwnStepKeeps(alive: set<int>, s: System, t: System, pid: int, touched: set<nat>)
    requires Invariant(alive, s) && pid in s.processes && pid in t.processes
    requires t.processes == s.processes[pid := t.processes[pid]]
    requires forall x :: x in touched ==> Mine(s, pid, x)
    requires forall x :: x !in touched ==> (x in t.files <==> x in s.files) && (x in s.files ==> t.files[x] == s.files[x])
    requires forall x :: Holds(t.processes[pid], x) ==> Holds(s.processes[pid], x) || x in touched
    requires ProcessInvariant(t, pid) && forall x :: ClaimInvariant(t, pid, x)
    requires NoDeadLease(alive, t.files)
    ensures Invariant(alive, t)
  {
    hide Claims;
    hide Mine;
    hide WellFormed;
    forall q, x | q in s.processes && q != pid && x in touched ensures !Holds(s.processes[q], x) {
      OthersKeepOff(alive, s, pid, q, x);
    }
    forall q | q in t.processes ensures ProcessInvariant(t, q) {
      if q != pid {
        assert t.processes[q] == s.processes[q];
        assert ProcessInvariant(s, q);
      }
    }
    forall q, x | q in t.processes ensures ClaimInvariant(t, q, x) {
      if q != pid {
        assert ClaimInvariant(s, q, x);
      }
    }
    forall p, q, x | p in t.processes && q in t.processes && p != q
      ensures !(Holds(t.processes[p], x) && Holds(t.processes[q], x)) {
      if p != pid && q != pid {
        assert !(Holds(s.processes[p], x) && Holds(s.processes[q], x));
      } else {
        var other := if p == pid then q else p;
        assert !(Holds(s.processes[pid], x) && Holds(s.processes[other], x));
      }
    }
  }

  /** A call that reads, or that fails, and leaves the process without a claim. */
  lemma ReadKeeps(alive: set<int>, s: System, pid: int, next: Activity)
    requires Invariant(alive, s) && pid in s.processes && WellFormed(next)
    requires next.Idle? || next.Looking? || next.SawNoLease? || next.Clear?
    ensures Invariant(alive, Become(s, pid, next))
  {
    hide PortOf;
    assert ProcessInvariant(s, pid);
    OwnStepKeeps(alive, s, Become(s, pid, next), pid, {});
  }

  lemma CreateKeeps(alive: set<int>, s: System, pid: int)
    requires Invariant(alive, s) && pid in s.processes && s.processes[pid].activity.Clear?
    requires var a := s.processes[pid].activity; WellFormed(a) && PortOf(a.preferred, a.offset) !in s.files
    ensures Invariant(alive, Call(alive, s, pid, false))
  {
    hide PortOf;
    var a := s.processes[pid].activity;
    assert ProcessInvariant(s, pid);
    OwnStepKeeps(alive, s, Call(alive, s, pid, false), pid, {PortOf(a.preferred, a.offset)});
  }

  lemma WriteKeeps(alive: set<int>, s: System, pid: int, available: bool)
    requires Invariant(alive, s) && pid in s.processes && WellFormed(s.processes[pid].activity)
    requires var a := s.processes[pid].activity; a.Created? || a.Written? || a.Refused?
    ensures Invariant(alive, Call(alive, s, pid, available))
  {
    hide PortOf;
    var a := s.processes[pid].activity;
    var port := PortOf(a.preferred, a.offset);
    assert ProcessInvariant(s, pid) && ClaimInvariant(s, pid, port);
    assert Holds(s.processes[pid], port);
    OwnStepKeeps(alive, s, Call(alive, s, pid, available), pid, {port});
  }

  lemma ReleaseKeeps(alive: set<int>, s: System, pid: int)
    requires Invariant(alive, s) && pid in s.processes
    requires var a := s.processes[pid].activity; a.Releasing? || a.Confirmed?
    ensures Invariant(alive, Call(alive, s, pid, false))
  {
    hide PortOf;
    var a := s.processes[pid].activity;
    assert ProcessInvariant(s, pid) && ClaimInvariant(s, pid, a.port);
    if a.Releasing? && !(a.port in s.files && s.files[a.port] == Lease(pid, a.token)) {
      ReadKeeps(alive, s, pid, Idle);
    } else {
      assert Mine(s, pid, a.port);
      OwnStepKeeps(alive, s, Call(alive, s, pid, false), pid, {a.port});
    }
  }

  lemma CallKeeps(alive: set<int>, s: System, pid: int, available: bool)
    requires Invariant(alive, s) && pid in s.processes
    requires WellFormed(s.processes[pid].activity)
    ensures Invariant(alive, Call(alive, s, pid, available))
  {
    hide PortOf;
    hide Invariant;
    var a := s.processes[pid].activity;
    OwnFacts(alive, s, pid);
    match a
    case Idle =>
    case Looking(preferred, offset) =>
      PortIsValid(preferred, offset);
      ReadKeeps(alive, s, pid, Call(alive, s, pid, available).processes[pid].activity);
    case SawNoLease(_, _) => ReadKeeps(alive, s, pid, Call(alive, s, pid, available).processes[pid].activity);
    case Clear(preferred, offset) =>
      if PortOf(preferred, offset) in s.files {
        ReadKeeps(alive, s, pid, Onward(preferred, offset));
      } else {
        CreateKeeps(alive, s, pid);
      }
    case Created(_, _, _) => WriteKeeps(alive, s, pid, available);
    case Written(_, _, _) => WriteKeeps(alive, s, pid, available);
    case Refused(_, _, _) => WriteKeeps(alive, s, pid, available);
    case Releasing(_, _) => ReleaseKeeps(alive, s, pid);
    case Confirmed(_, _) => ReleaseKeeps(alive, s, pid);
  }

  lemma OwnFacts(alive: set<int>, s: System, pid: int)
    requires Invariant(alive, s) && pid in s.processes
    ensures ProcessInvariant(s, pid) && NoDeadLease(alive, s.files)
  {
  }

  lemma PortIsValid(preferred: nat, offset: nat)
    requires ValidPort(preferred) && offset < CANDIDATE_COUNT
    ensures ValidPort(PortOf(preferred, offset))
  {
    CandidateForm(preferred, offset);
  }

  lemma StepKeeps(alive: set<int>, s: System, a: Action)
    requires Invariant(alive, s)
    ensures Invariant(alive, Step(alive, s, a))
  {
    hide Call;
    hide PortOf;
    if a.pid in s.processes {
      assert ProcessInvariant(s, a.pid);
      match a
      case Reserve(pid, preferred) =>
        if s.processes[pid].activity == Idle && ValidPort(preferred) { ReadKeeps(alive, s, pid, Looking(preferred, 0)); }
      case Release(pid, _, _) => OwnStepKeeps(alive, s, Step(alive, s, a), pid, {});
      case Advance(pid, available) => CallKeeps(alive, s, pid, available);
    }
  }

  lemma {:induction false} RunKeeps(alive: set<int>, files: Files, actions: seq<Action>)
    requires NoDeadLease(alive, files)
    ensures Invariant(alive, Run(alive, files, actions))
  {
    hide Step;
    if actions != [] {
      RunKeeps(alive, files, actions[..|actions| - 1]);
      StepKeeps(alive, Run(alive, files, actions[..|actions| - 1]), actions[|actions| - 1]);
    }
  }

  // ----- the main results -----

  /**
    Over every interleaving of live processes, starting from lease files none of which names a dead
    owner: no two unreleased leases name the same port, and each of them is backed by its own file.
   */
  lemma LeasesExclude(alive: set<int>, files: Files, actions: seq<Action>)
    requires NoDeadLease(alive, files)
    ensures var s := Run(alive, files, actions);
            && MutualExclusion(s)
            && forall pid, port :: pid in s.processes && port in s.processes[pid].held ==>
                 port in s.files && s.files[port] == Lease(pid, s.processes[pid].held[port])
  {
    RunKeeps(alive, files, actions);
    var s := Run(alive, files, actions);
    forall p, q, port | p in s.processes && q in s.processes && port in s.processes[p].held && port in s.processes[q].held
      ensures p == q {
      assert Holds(s.processes[p], port) && Holds(s.processes[q], port);
    }
    forall pid, port | pid in s.processes && port in s.processes[pid].held
      ensures port in s.files && s.files[port] == Lease(pid, s.processes[pid].held[port]) {
      assert ProcessInvariant(s, pid);
    }
  }

  /**
    No process ever unlinks or overwrites a file another process relies on, also while that file is
    still empty, and no lease of another process or malformed file of nobody's.
   */
  lemma NobodyElsesFile(alive: set<int>, files: Files, actions: seq<Action>, a: Action, port: nat)
    requires NoDeadLease(alive, files)
    requires port in Run(alive, files, actions).files
    ensures var s := Run(alive, files, actions);
            var t := Step(alive, s, a);
            (port in t.files && t.files[port] == s.files[port]) ||
            (a.pid in s.processes && Claims(s.processes[a.pid].activity, port) &&
             forall q :: q in s.processes && q != a.pid ==> !Holds(s.processes[q], port))
  {
    hide PortOf;
    RunKeeps(alive, files, actions);
    var s := Run(alive, files, actions);
    if a.pid in s.processes {
      assert ProcessInvariant(s, a.pid);
      if Claims(s.processes[a.pid].activity, port) {
        forall q | q in s.processes && q != a.pid ensures !Holds(s.processes[q], port) {
          OthersKeepOff(alive, s, a.pid, q, port);
        }
      }
    }
  }

  // ----- dead owners -----

  function Again(alive: set<int>, s: System, a: Action, times: nat): System {
    if times == 0 then s else Step(alive, Again(alive, s, a, times - 1), a)
  }

  function Repeated(a: Action, times: nat): seq<Action> {
    if times == 0 then [] else Repeated(a, times - 1) + [a]
  }

  lemma {:induction false} RunRepeated(alive: set<int>, files: Files, before: seq<Action>, a: Action, times: nat)
    ensures Run(alive, files, before + Repeated(a, times)) == Again(alive, Run(alive, files, before), a, times)
  {
    hide Step;
    if times == 0 {
      assert before + Repeated(a, 0) == before;
    } else {
      RunRepeated(alive, files, before, a, times - 1);
      var all := before + Repeated(a, times);
      assert all[..|all| - 1] == before + Repeated(a, times - 1) && all[|all| - 1] == a;
    }
  }

  /** A process that has read a dead owner unlinks whatever file is there by now, and takes the port. */
  lemma {:induction false} ReclaimTakes(alive: set<int>, s: System, pid: int, port: nat)
    requires pid in s.processes && ValidPort(port) && port in s.files
    requires s.processes[pid].activity == SawDead(port, 0)
    ensures var t := Again(alive, s, Advance(pid, true), 4);
            && port in t.files && t.processes.Keys == s.processes.Keys
            && t.processes[pid].activity == Idle && port in t.processes[pid].held
            && forall q :: q in s.processes && q != pid ==> t.processes[q] == s.processes[q]
  {
    PortIsPreferred(port);
    hide PortOf;
    var x := Advance(pid, true);
    var s1 := Again(alive, s, x, 1);
    assert s1 == Step(alive, s, x) by { assert Again(alive, s, x, 0) == s; }
    assert s1.processes[pid].activity == Clear(port, 0) && port !in s1.files;
    var s2 := Again(alive, s, x, 2);
    assert s2 == Step(alive, s1, x);
    assert s2.processes[pid].activity.Created? && s2.processes[pid].activity.preferred == port;
    var s3 := Again(alive, s, x, 3);
    assert s3 == Step(alive, s2, x);
    assert s3.processes[pid].activity.Written? && port in s3.files;
    var s4 := Again(alive, s, x, 4);
    assert s4 == Step(alive, s3, x);
  }

  lemma PortIsPreferred(port: nat)
    requires ValidPort(port)
    ensures PortOf(port, 0) == port
  {
    CandidateForm(port, 0);
  }

  /** Two processes read the same dead lease, then each one reclaims it to the end. */
  function BothReclaim(a: int, b: int, port: nat): seq<Action> {
    [Reserve(a, port), Reserve(b, port), Advance(a, true), Advance(b, true)]
    + Repeated(Advance(a, true), 4) + Repeated(Advance(b, true), 4)
  }

  lemma BothReadDead(alive: set<int>, files: Files, a: int, b: int, port: nat)
    requires a in alive && b in alive && a != b && ValidPort(port)
    requires port in files && files[port].Lease? && files[port].pid !in alive
    ensures var s := Run(alive, files, [Reserve(a, port), Reserve(b, port), Advance(a, true), Advance(b, true)]);
            && s.processes.Keys == alive && s.files == files
            && s.processes[a].activity == SawDead(port, 0) && s.processes[b].activity == SawDead(port, 0)
  {
    PortIsPreferred(port);
    hide PortOf;
    var one, two, three := [Reserve(a, port)], [Reserve(a, port), Reserve(b, port)], [Reserve(a, port), Reserve(b, port), Advance(a, true)];
    var four := [Reserve(a, port), Reserve(b, port), Advance(a, true), Advance(b, true)];
    assert one[..0] == [] && two[..1] == one && three[..2] == two && four[..3] == three;
    assert Run(alive, files, []) == Initial(alive, files);
    assert Run(alive, files, one) == Step(alive, Initial(alive, files), Reserve(a, port));
    assert Run(alive, files, two) == Step(alive, Run(alive, files, one), Reserve(b, port));
    assert Run(alive, files, three) == Step(alive, Run(alive, files, two), Advance(a, true));
    assert Run(alive, files, four) == Step(alive, Run(alive, files, three), Advance(b, true));
  }

  lemma DeadLeaseGivenTwice(alive: set<int>, files: Files, a: int, b: int, port: nat)
    requires a in alive && b in alive && a != b && ValidPort(port)
    requires port in files && files[port].Lease? && files[port].pid !in alive
    ensures !MutualExclusion(Run(alive, files, BothReclaim(a, b, port)))
  {
    hide Step;
    hide Again;
    hide Run;
    BothReadDead(alive, files, a, b, port);
    var read := [Reserve(a, port), Reserve(b, port), Advance(a, true), Advance(b, true)];
    RunRepeated(alive, files, read, Advance(a, true), 4);
    RunRepeated(alive, files, read + Repeated(Advance(a, true), 4), Advance(b, true), 4);
    ReclaimTakes(alive, Run(alive, files, read), a, port);
    ReclaimTakes(alive, Run(alive, files, read + Repeated(Advance(a, true), 4)), b, port);
  }

  /**
    Exactly when the leases exclude each other. With at least two processes, every run keeps mutual
    exclusion iff no lease file in the port range names a dead owner at the start.
   */
  lemma ExclusiveExactlyWithoutDeadLease(alive: set<int>, files: Files, a: int, b: int)
    requires a in alive && b in alive && a != b
    ensures NoDeadLease(alive, files) <==> forall actions :: MutualExclusion(Run(alive, files, actions))
  {
    hide Run;
    hide MutualExclusion;
    if NoDeadLease(alive, files) {
      forall actions ensures MutualExclusion(Run(alive, files, actions)) {
        LeasesExclude(alive, files, actions);
      }
    } else {
      var port :| port in files && ValidPort(port) && files[port].Lease? && files[port].pid !in alive;
      DeadLeaseGivenTwice(alive, files, a, b, port);
    }
  }
}
