/**
  The interleaved allocator with one process running and the others standing still: its system calls
  reserve exactly the lease that the undisturbed loop reserves, and release exactly what it releases.
 */
module PortLeaseAlone {
  import opened PortLease
  import opened PortLeaseRace

  /** The next call of the process, its TCP probe answered from the free ports. */
  function Probed(s: System, pid: int, available: set<nat>): Action
    requires pid in s.processes
  {
    var a := s.processes[pid].activity;
    Advance(pid, a.Written? && WellFormed(a) && PortOf(a.preferred, a.offset) in available)
  }

  function Solo(alive: set<int>, s: System, pid: int, available: set<nat>, calls: nat): System {
    if calls == 0 || pid !in s.processes then s
    else
      var before := Solo(alive, s, pid, available, calls - 1);
      if pid !in before.processes then before else Step(alive, before, Probed(before, pid, available))
  }

  ghost predicate Gets(alive: set<int>, s: System, pid: int, available: set<nat>, t: System) {
    exists calls: nat :: Solo(alive, s, pid, available, calls) == t
  }

  lemma {:induction false} SoloSum(alive: set<int>, s: System, pid: int, available: set<nat>, m: nat, n: nat)
    requires pid in s.processes && pid in Solo(alive, s, pid, available, m).processes
    ensures Solo(alive, s, pid, available, m + n) == Solo(alive, Solo(alive, s, pid, available, m), pid, available, n)
  {
    hide Step;
    hide Probed;
    if n > 0 { SoloSum(alive, s, pid, available, m, n - 1); }
  }

  lemma GetsTrans(alive: set<int>, s: System, pid: int, available: set<nat>, t: System, u: System)
    requires pid in s.processes && pid in t.processes
    requires Gets(alive, s, pid, available, t) && Gets(alive, t, pid, available, u)
    ensures Gets(alive, s, pid, available, u)
  {
    hide Solo;
    var m: nat :| Solo(alive, s, pid, available, m) == t;
    var n: nat :| Solo(alive, t, pid, available, n) == u;
    SoloSum(alive, s, pid, available, m, n);
    assert Solo(alive, s, pid, available, m + n) == u;
  }

  lemma GetsOne(alive: set<int>, s: System, pid: int, available: set<nat>)
    requires pid in s.processes
    ensures Gets(alive, s, pid, available, Step(alive, s, Probed(s, pid, available)))
  {
    hide Step;
    hide Probed;
    assert Solo(alive, s, pid, available, 0) == s;
    assert Solo(alive, s, pid, available, 1) == Step(alive, s, Probed(s, pid, available));
  }

  lemma GetsItself(alive: set<int>, s: System, pid: int, available: set<nat>)
    ensures Gets(alive, s, pid, available, s)
  {
    assert Solo(alive, s, pid, available, 0) == s;
  }

  /** The process stands at a point of its search, with these files; the others are as they were. */
  predicate At(s: System, t: System, pid: int, a: Activity, files: Files, drawn: nat) {
    && pid in s.processes
    && t == System(files, s.processes[pid := s.processes[pid].(activity := a)], drawn)
  }

  /** One call further. */
  lemma OneCall(alive: set<int>, s: System, pid: int, available: set<nat>, t: System, u: System)
    requires pid in s.processes && pid in t.processes && Gets(alive, s, pid, available, t)
    requires u == Step(alive, t, Probed(t, pid, available)) && pid in u.processes
    ensures Gets(alive, s, pid, available, u)
  {
    hide Gets;
    hide Step;
    GetsOne(alive, t, pid, available);
    GetsTrans(alive, s, pid, available, t, u);
  }

  /** The lease is in its file, and the process holds it. */
  ghost predicate Takes(alive: set<int>, s: System, pid: int, available: set<nat>, files: Files, port: nat, token: Token)
    requires pid in s.processes
  {
    Gets(alive, s, pid, available,
         System(files[port := Lease(pid, token)], s.processes[pid := Process(Idle, s.processes[pid].held[port := token])], token + 1))
  }

  /** The process is at a point of its search, holding what it held, with these files. */
  ghost predicate Comes(alive: set<int>, s: System, pid: int, available: set<nat>, a: Activity, files: Files, drawn: nat)
    requires pid in s.processes
  {
    Gets(alive, s, pid, available, System(files, s.processes[pid := s.processes[pid].(activity := a)], drawn))
  }

  ghost predicate GoesTo(alive: set<int>, s: System, pid: int, available: set<nat>, a: Activity, files: Files)
    requires pid in s.processes
  {
    exists drawn: nat :: Comes(alive, s, pid, available, a, files, drawn)
  }

  /**
    One candidate, alone: a candidate that does not fit is passed, with its dead lease cleared; one that
    fits is taken, with a fresh token in its file.
   */
  lemma CandidateAlone(alive: set<int>, s: System, pid: int, preferred: nat, offset: nat, available: set<nat>)
    requires pid in s.processes && s.processes[pid].activity == Looking(preferred, offset)
    requires ValidPort(preferred) && offset < CANDIDATE_COUNT
    ensures var port := PortOf(preferred, offset);
            var cleared := if DeadOwned(s.files, alive, port) then s.files - {port} else s.files;
            if Fits(s.files, alive, available, preferred, offset) then Takes(alive, s, pid, available, s.files, port, s.drawn)
            else GoesTo(alive, s, pid, available, Onward(preferred, offset), cleared)
  {
    CandidateForm(preferred, offset);
    hide Gets;
    GetsOne(alive, s, pid, available);
    var s1 := Step(alive, s, Probed(s, pid, available));
    var port := PortOf(preferred, offset);
    hide CandidatePort;
    if port in s.files && s.files[port].Lease? && s.files[port].pid in alive {
      assert Comes(alive, s, pid, available, Onward(preferred, offset), s.files, s.drawn);
    } else if port in s.files && s.files[port].Unreadable? {
      var s2 := Step(alive, s1, Probed(s1, pid, available));
      OneCall(alive, s, pid, available, s1, s2);
      assert At(s, s2, pid, Onward(preferred, offset), s.files, s.drawn);
      assert Comes(alive, s, pid, available, Onward(preferred, offset), s.files, s.drawn);
    } else {
      FreeToClear(alive, s, pid, preferred, offset, available);
      if port !in available {
        assert port !in s.files ==> s.files - {port} == s.files;
        assert Comes(alive, s, pid, available, Onward(preferred, offset), s.files - {port}, s.drawn + 1);
      }
    }
  }

  /** A candidate without a file, or with a dead lease: its way to the exclusive create, and on. */
  lemma FreeToClear(alive: set<int>, s: System, pid: int, preferred: nat, offset: nat, available: set<nat>)
    requires pid in s.processes && s.processes[pid].activity == Looking(preferred, offset)
    requires ValidPort(preferred) && offset < CANDIDATE_COUNT && Free(s.files, alive, PortOf(preferred, offset))
    ensures var port := PortOf(preferred, offset);
            if port in available then Takes(alive, s, pid, available, s.files, port, s.drawn)
            else Comes(alive, s, pid, available, Onward(preferred, offset), s.files - {port}, s.drawn + 1)
  {
    hide PortOf;
    hide Gets;
    var port := PortOf(preferred, offset);
    GetsOne(alive, s, pid, available);
    var s1 := Step(alive, s, Probed(s, pid, available));
    var s2 := Step(alive, s1, Probed(s1, pid, available));
    OneCall(alive, s, pid, available, s1, s2);
    assert At(s, s2, pid, Clear(preferred, offset), s.files - {port}, s.drawn);
    ClearToEnd(alive, s, pid, preferred, offset, available, s2);
  }

  lemma ClearToEnd(alive: set<int>, s: System, pid: int, preferred: nat, offset: nat, available: set<nat>, s2: System)
    requires pid in s.processes && ValidPort(preferred) && offset < CANDIDATE_COUNT
    requires At(s, s2, pid, Clear(preferred, offset), s.files - {PortOf(preferred, offset)}, s.drawn)
    requires Gets(alive, s, pid, available, s2)
    ensures var port := PortOf(preferred, offset);
            if port in available then Takes(alive, s, pid, available, s.files, port, s.drawn)
            else Comes(alive, s, pid, available, Onward(preferred, offset), s.files - {port}, s.drawn + 1)
  {
    hide PortOf;
    hide Gets;
    var port := PortOf(preferred, offset);
    var s3 := Step(alive, s2, Probed(s2, pid, available));
    OneCall(alive, s, pid, available, s2, s3);
    assert At(s, s3, pid, Created(preferred, offset, s.drawn), (s.files - {port})[port := Unreadable], s.drawn + 1);
    var s4 := Step(alive, s3, Probed(s3, pid, available));
    OneCall(alive, s, pid, available, s3, s4);
    assert At(s, s4, pid, Written(preferred, offset, s.drawn), s.files[port := Lease(pid, s.drawn)], s.drawn + 1);
    var s5 := Step(alive, s4, Probed(s4, pid, available));
    OneCall(alive, s, pid, available, s4, s5);
    if port in available {
      assert s5 == System(s.files[port := Lease(pid, s.drawn)],
                          s.processes[pid := Process(Idle, s.processes[pid].held[port := s.drawn])], s.drawn + 1);
    } else {
      assert At(s, s5, pid, Refused(preferred, offset, s.drawn), s.files[port := Lease(pid, s.drawn)], s.drawn + 1);
      var s6 := Step(alive, s5, Probed(s5, pid, available));
      OneCall(alive, s, pid, available, s5, s6);
      assert s.files[port := Lease(pid, s.drawn)] - {port} == s.files - {port};
      assert At(s, s6, pid, Onward(preferred, offset), s.files - {port}, s.drawn + 1);
    }
  }

  // ----- the whole search -----

  predicate FirstFit(files: Files, alive: set<int>, available: set<nat>, preferred: nat, offset: nat, k: nat)
    requires ValidPort(preferred)
  {
    && offset <= k < CANDIDATE_COUNT && Fits(files, alive, available, preferred, k)
    && forall j :: offset <= j < k ==> !Fits(files, alive, available, preferred, j)
  }

  /** The first candidate from `offset` on that fits is taken, the dead leases before it cleared. */
  ghost predicate Found(alive: set<int>, s: System, pid: int, preferred: nat, offset: nat, available: set<nat>, start: Files, k: nat, token: Token)
    requires pid in s.processes && ValidPort(preferred)
  {
    && FirstFit(start, alive, available, preferred, offset, k)
    && Takes(alive, s, pid, available, Swept(start, alive, preferred, k), PortOf(preferred, k), token)
  }

  /** No candidate from `offset` on fits, and the search ends with all dead leases cleared. */
  ghost predicate FoundNone(alive: set<int>, s: System, pid: int, preferred: nat, offset: nat, available: set<nat>, start: Files, drawn: nat)
    requires pid in s.processes && ValidPort(preferred)
  {
    && (forall k :: offset <= k < CANDIDATE_COUNT ==> !Fits(start, alive, available, preferred, k))
    && Comes(alive, s, pid, available, Idle, Swept(start, alive, preferred, CANDIDATE_COUNT), drawn)
  }

  ghost predicate Searched(alive: set<int>, s: System, pid: int, preferred: nat, offset: nat, available: set<nat>, start: Files)
    requires pid in s.processes && ValidPort(preferred)
  {
    || (exists k: nat, token: Token :: Found(alive, s, pid, preferred, offset, available, start, k, token))
    || (exists drawn: nat :: FoundNone(alive, s, pid, preferred, offset, available, start, drawn))
  }

  lemma {:induction false} SearchAlone(alive: set<int>, s: System, pid: int, preferred: nat, offset: nat, available: set<nat>, start: Files)
    requires pid in s.processes && s.processes[pid].activity == Looking(preferred, offset)
    requires ValidPort(preferred) && offset < CANDIDATE_COUNT && s.files == Swept(start, alive, preferred, offset)
    ensures Searched(alive, s, pid, preferred, offset, available, start)
    decreases CANDIDATE_COUNT - offset
  {
    hide Searched;
    hide Swept;
    hide Fits;
    if Fits(start, alive, available, preferred, offset) {
      CandidateTaken(alive, s, pid, preferred, offset, available, start);
    } else {
      CandidatePassed(alive, s, pid, preferred, offset, available, start);
      var swept := Swept(start, alive, preferred, offset + 1);
      var drawn: nat :| Comes(alive, s, pid, available, Onward(preferred, offset), swept, drawn);
      if offset + 1 < CANDIDATE_COUNT {
        var t := System(swept, s.processes[pid := s.processes[pid].(activity := Looking(preferred, offset + 1))], drawn);
        SearchAlone(alive, t, pid, preferred, offset + 1, available, start);
        SearchFrom(alive, s, t, pid, preferred, offset, available, start);
      } else {
        CandidateLast(alive, s, pid, preferred, offset, available, start, drawn);
      }
    }
  }

  /** The candidate fits: it is taken. */
  lemma CandidateTaken(alive: set<int>, s: System, pid: int, preferred: nat, offset: nat, available: set<nat>, start: Files)
    requires pid in s.processes && s.processes[pid].activity == Looking(preferred, offset)
    requires ValidPort(preferred) && offset < CANDIDATE_COUNT && s.files == Swept(start, alive, preferred, offset)
    requires Fits(start, alive, available, preferred, offset)
    ensures Searched(alive, s, pid, preferred, offset, available, start)
  {
    SweptFits(start, alive, available, preferred, offset);
    CandidateAlone(alive, s, pid, preferred, offset, available);
    hide Swept;
    hide Fits;
    hide Takes;
    hide CandidatePort;
    assert Found(alive, s, pid, preferred, offset, available, start, offset, s.drawn);
  }

  /** The candidate does not fit: the search goes on with it swept. */
  lemma CandidatePassed(alive: set<int>, s: System, pid: int, preferred: nat, offset: nat, available: set<nat>, start: Files)
    requires pid in s.processes && s.processes[pid].activity == Looking(preferred, offset)
    requires ValidPort(preferred) && offset < CANDIDATE_COUNT && s.files == Swept(start, alive, preferred, offset)
    requires !Fits(start, alive, available, preferred, offset)
    ensures var swept := Swept(start, alive, preferred, offset + 1);
            GoesTo(alive, s, pid, available, Onward(preferred, offset), swept)
  {
    SweepOne(start, alive, preferred, offset);
    SweptFits(start, alive, available, preferred, offset);
    CandidateAlone(alive, s, pid, preferred, offset, available);
    hide Swept;
    hide Fits;
    hide GoesTo;
    hide DeadOwned;
    hide CandidatePort;
  }

  /** It was the last one. */
  lemma CandidateLast(alive: set<int>, s: System, pid: int, preferred: nat, offset: nat, available: set<nat>, start: Files, drawn: nat)
    requires pid in s.processes && ValidPort(preferred) && offset + 1 == CANDIDATE_COUNT
    requires !Fits(start, alive, available, preferred, offset)
    requires Comes(alive, s, pid, available, Idle, Swept(start, alive, preferred, CANDIDATE_COUNT), drawn)
    ensures Searched(alive, s, pid, preferred, offset, available, start)
  {
    hide Fits;
    hide Swept;
    hide Comes;
    assert FoundNone(alive, s, pid, preferred, offset, available, start, drawn);
  }

  /** Earlier candidates are other ports, so clearing them does not change whether a later one fits. */
  lemma SweptFits(start: Files, alive: set<int>, available: set<nat>, preferred: nat, offset: nat)
    requires ValidPort(preferred) && offset < CANDIDATE_COUNT
    ensures Fits(Swept(start, alive, preferred, offset), alive, available, preferred, offset) <==> Fits(start, alive, available, preferred, offset)
    ensures DeadOwned(Swept(start, alive, preferred, offset), alive, PortOf(preferred, offset)) <==> DeadOwned(start, alive, PortOf(preferred, offset))
  {
    SweepOne(start, alive, preferred, offset);
    CandidateForm(preferred, offset);
    hide Swept;
    hide CandidatePort;
  }

  lemma SearchFrom(alive: set<int>, s: System, t: System, pid: int, preferred: nat, offset: nat, available: set<nat>, start: Files)
    requires pid in s.processes && ValidPort(preferred) && pid in t.processes
    requires t.processes == s.processes[pid := s.processes[pid].(activity := t.processes[pid].activity)]
    requires Gets(alive, s, pid, available, t) && Searched(alive, t, pid, preferred, offset + 1, available, start)
    requires offset < CANDIDATE_COUNT && !Fits(start, alive, available, preferred, offset)
    ensures Searched(alive, s, pid, preferred, offset, available, start)
  {
    hide Gets;
    hide Swept;
    hide Fits;
    hide PortOf;
    var next := offset + 1;
    if k: nat, token: Token :| Found(alive, t, pid, preferred, next, available, start, k, token) {
      var port, files := PortOf(preferred, k), Swept(start, alive, preferred, k);
      var u := System(files[port := Lease(pid, token)], t.processes[pid := Process(Idle, t.processes[pid].held[port := token])], token + 1);
      GetsTrans(alive, s, pid, available, t, u);
      assert u.processes == s.processes[pid := Process(Idle, s.processes[pid].held[port := token])];
      assert FirstFit(start, alive, available, preferred, offset, k);
      assert Found(alive, s, pid, preferred, offset, available, start, k, token);
    } else {
      var drawn: nat :| FoundNone(alive, t, pid, preferred, next, available, start, drawn);
      var files := Swept(start, alive, preferred, CANDIDATE_COUNT);
      var u := System(files, t.processes[pid := t.processes[pid].(activity := Idle)], drawn);
      GetsTrans(alive, s, pid, available, t, u);
      assert u.processes == s.processes[pid := s.processes[pid].(activity := Idle)];
      assert FoundNone(alive, s, pid, preferred, offset, available, start, drawn);
    }
  }

  /**
    A reservation with nobody in between ends as the undisturbed loop does: with the lease of the first
    candidate that fits and the dead leases before it cleared, or with nothing iff none fits.
   */
  lemma ReservesAlone(alive: set<int>, s: System, pid: int, preferred: nat, available: set<nat>)
    requires pid in s.processes && s.processes[pid].activity == Idle && ValidPort(preferred)
    ensures var t := Step(alive, s, Reserve(pid, preferred));
            pid in t.processes && t.files == s.files && Searched(alive, t, pid, preferred, 0, available, s.files)
  {
    NothingSwept(s.files, alive, preferred);
    SearchAlone(alive, Step(alive, s, Reserve(pid, preferred)), pid, preferred, 0, available, s.files);
    hide Searched;
  }

  /** The process is idle again, with these files. */
  ghost predicate Ends(alive: set<int>, s: System, pid: int, available: set<nat>, files: Files) {
    exists u :: Gets(alive, s, pid, available, u) && pid in u.processes && u.processes[pid].activity == Idle && u.files == files
  }

  /** A release with nobody in between removes the file iff it still holds this very lease, and nothing else. */
  lemma ReleasesAlone(alive: set<int>, s: System, pid: int, port: nat, token: Token, available: set<nat>)
    requires pid in s.processes && s.processes[pid].activity == Idle
    ensures var t := Step(alive, s, Release(pid, port, token));
            var after := if port in s.files && s.files[port] == Lease(pid, token) then s.files - {port} else s.files;
            pid in t.processes && Ends(alive, t, pid, available, after)
  {
    hide Gets;
    var t := Step(alive, s, Release(pid, port, token));
    GetsOne(alive, t, pid, available);
    var t1 := Step(alive, t, Probed(t, pid, available));
    if port in s.files && s.files[port] == Lease(pid, token) {
      assert t1.processes[pid].activity == Confirmed(port, token) && t1.files == s.files;
      OneCall(alive, t, pid, available, t1, Step(alive, t1, Probed(t1, pid, available)));
    }
  }
}
