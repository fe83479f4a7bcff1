/**
  The other half of the digest check: wherever a recorded artefact can return after another one, some
  interleaving makes a pre-flight judge the wrong cookies.
 */
module AuthBundleReturn {
  import opened Wrappers
  import opened AuthCapability
  import opened AuthBundle
  import opened AuthBundleRace
  import Crash = AuthBundleCrash

  /** One operation makes `n` system calls in a row. */
  function After(t: System, id: int, n: nat): System
    requires id in t.operations
  {
    var p := Turns(t.files, id, t.operations[id], n);
    System(p.files, t.operations[id := p.operation])
  }

  ghost predicate Reaches(s: System, t: System) {
    exists schedule :: Run(s, schedule) == t
  }

  lemma ReachesItself(s: System)
    ensures Reaches(s, s)
  {
    assert Run(s, []) == s;
  }

  lemma {:induction false} ReachesAfter(s: System, t: System, id: int, n: nat)
    requires Reaches(s, t) && id in t.operations
    ensures Reaches(s, After(t, id, n))
  {
    hide OperationStep;
    if n == 0 {
      assert After(t, id, 0) == t;
    } else {
      ReachesAfter(s, t, id, n - 1);
      var schedule :| Run(s, schedule) == After(t, id, n - 1);
      assert (schedule + [id])[..|schedule|] == schedule;
      assert Run(s, schedule + [id]) == After(t, id, n);
    }
  }

  // ----- operations do not disturb each other's files -----

  function Owner(path: Path): Option<int> {
    match path
    case ArtefactFinal => None
    case RecordFinal => None
    case JournalFile => None
    case StagedArtefact(id) => Some(id)
    case StagedRecord(id) => Some(id)
    case TemporaryRecord(id) => Some(id)
    case TemporaryJournal(id) => Some(id)
  }

  lemma StepTouchesOwn(files: Files, id: int, op: Operation)
    requires !op.Recover?
    ensures var p := OperationStep(files, id, op);
            && !p.operation.Recover?
            && forall path :: Owner(path).Some? && Owner(path).value != id ==> SameAt(files, p.files, path)
  {
  }

  lemma {:induction false} TurnsTouchOwn(files: Files, id: int, op: Operation, n: nat)
    requires !op.Recover?
    ensures var p := Turns(files, id, op, n);
            && !p.operation.Recover?
            && forall path :: Owner(path).Some? && Owner(path).value != id ==> SameAt(files, p.files, path)
  {
    hide OperationStep;
    hide Owner;
    if n > 0 {
      TurnsTouchOwn(files, id, op, n - 1);
      var before := Turns(files, id, op, n - 1);
      StepTouchesOwn(before.files, id, before.operation);
      forall path | Owner(path).Some? && Owner(path).value != id ensures SameAt(files, Turns(files, id, op, n).files, path) {
        assert SameAt(files, before.files, path);
      }
    }
  }

  /** The operation has not begun, and its own files are as they were. */
  ghost predicate Ready(s: System, t: System, i: int) {
    && i in s.operations && i in t.operations && t.operations[i] == s.operations[i] && !s.operations[i].Recover?
    && forall path :: Owner(path) == Some(i) ==> SameAt(s.files, t.files, path)
  }

  lemma StaysReady(s: System, t: System, i: int, k: int, n: nat)
    requires Ready(s, t, i) && k in t.operations && !t.operations[k].Recover? && k != i
    ensures Ready(s, After(t, k, n), i)
  {
    TurnsTouchOwn(t.files, k, t.operations[k], n);
    hide Turns;
  }

  // ----- installing -----

  function InstallCalls(op: Operation): nat {
    if op.Publish? then 8 else 2
  }

  lemma InstallRun(s: System, t: System, i: int, c: Content)
    requires Quiet(s) && Ready(s, t, i) && Installs(s, i, c)
    ensures var u := After(t, i, InstallCalls(s.operations[i]));
            && ArtefactFinal in u.files && u.files[ArtefactFinal] == c
            && SameAt(t.files, u.files, RecordFinal)
  {
    assert SameAt(s.files, t.files, StagedArtefact(i));
    assert Starting(s.operations[i]);
    if s.operations[i].Publish? {
      FreshPublication(s, t, i);
      Crash.PublishCommits(t.files, i, s.operations[i].record, 8);
      hide Turns;
    } else {
      ReplaceRun(t.files, i);
    }
  }

  lemma FreshPublication(s: System, t: System, i: int)
    requires Quiet(s) && Ready(s, t, i)
    ensures Crash.Fresh(t.files, i)
  {
    assert SameAt(s.files, t.files, StagedRecord(i)) && SameAt(s.files, t.files, TemporaryRecord(i));
    assert SameAt(s.files, t.files, TemporaryJournal(i));
  }

  lemma ReplaceRun(files: Files, i: int)
    requires StagedArtefact(i) in files && files[StagedArtefact(i)].StorageState?
    ensures Turns(files, i, Replace(ValidatePending), 2)
            == Progress(Renamed(files, StagedArtefact(i), ArtefactFinal), Replace(Replaced))
  {
    hide PublishStep;
    hide RecoverStep;
    hide AdoptStep;
    hide ReadStep;
    var one := Turns(files, i, Replace(ValidatePending), 1);
    assert one == OperationStep(files, i, Turns(files, i, Replace(ValidatePending), 0).operation);
    assert one == Progress(files, Replace(RenamePending));
  }

  lemma PublishRun(s: System, t: System, i: int)
    requires Quiet(s) && Ready(s, t, i) && Installer(s, i) && s.operations[i].Publish?
    ensures var u := After(t, i, 9);
            RecordFinal in u.files && u.files[RecordFinal] == RecordText(s.operations[i].record)
  {
    assert SameAt(s.files, t.files, StagedArtefact(i));
    assert Starting(s.operations[i]);
    FreshPublication(s, t, i);
    Crash.PublishCommits(t.files, i, s.operations[i].record, 9);
    hide Turns;
  }

  // ----- adopting -----

  lemma AdoptSeeks(files: Files, a: int, template: CapabilityRecord, replaceExisting: bool)
    requires replaceExisting || RecordFinal !in files
    ensures Turns(files, a, Adopt(template, replaceExisting, SeekOldRecord), 1)
            == Progress(files, Adopt(template, replaceExisting, ValidateCurrent))
  {
    assert Turns(files, a, Adopt(template, replaceExisting, SeekOldRecord), 0).files == files;
  }

  lemma AdoptLooksTwice(files: Files, a: int, template: CapabilityRecord, replaceExisting: bool)
    requires HasState(files)
    ensures var p := Turns(files, a, Adopt(template, replaceExisting, ValidateCurrent), 2);
            && p.files == files && p.operation.Adopt? && p.operation.template == template
            && p.operation.replaceExisting == replaceExisting && p.operation.adopt.DigestArtefact?
  {
    hide PublishStep;
    hide RecoverStep;
    hide ReadStep;
    var op := Adopt(template, replaceExisting, ValidateCurrent);
    var one := Turns(files, a, op, 1);
    assert one == OperationStep(files, a, Turns(files, a, op, 0).operation);
    assert one == Progress(files, Adopt(template, replaceExisting, ReadExpiries));
  }

  /** The record an adoption writes when these bytes are in place at its digest. */
  function AdoptedRecord(template: CapabilityRecord, earliest: Option<real>, x: Content): CapabilityRecord {
    template.(earliestCookieExpiry := earliest, artefactDigest := Sha256(x))
  }

  lemma AdoptWrites(files: Files, a: int, template: CapabilityRecord, replaceExisting: bool, earliest: Option<real>)
    requires ArtefactFinal in files && TemporaryRecord(a) !in files
    ensures var p := Turns(files, a, Adopt(template, replaceExisting, DigestArtefact(earliest)), 4);
            && SameAt(files, p.files, ArtefactFinal) && RecordFinal in p.files
            && p.files[RecordFinal] == RecordText(AdoptedRecord(template, earliest, files[ArtefactFinal]))
  {
    hide PublishStep;
    hide RecoverStep;
    hide ReadStep;
    hide ReplaceStep;
    var op := Adopt(template, replaceExisting, DigestArtefact(earliest));
    var record := AdoptedRecord(template, earliest, files[ArtefactFinal]);
    assert Turns(files, a, op, 0) == Progress(files, op);
    var p1 := OperationStep(files, a, op);
    assert p1 == Progress(files, Adopt(template, replaceExisting, CreateAdopted(record)));
    var p2 := OperationStep(p1.files, a, p1.operation);
    var p3 := OperationStep(p2.files, a, p2.operation);
    assert p3.operation == Adopt(template, replaceExisting, RenameAdopted(record));
    assert Turns(files, a, op, 1) == p1 && Turns(files, a, op, 2) == p2 && Turns(files, a, op, 3) == p3;
    assert Turns(files, a, op, 4) == OperationStep(p3.files, a, p3.operation);
  }

  // ----- reading -----

  lemma PassGate(files: Files, id: int)
    requires JournalFile !in files
    ensures Turns(files, id, Preflight(Gate), 1) == Progress(files, Preflight(SeekArtefact))
  {
    assert Turns(files, id, Preflight(Gate), 0).files == files;
  }

  lemma ReadTo(files: Files, id: int)
    requires HasState(files) && RecordFinal in files && ParseAuthCapabilityRecord(files[RecordFinal]).Some?
    ensures Turns(files, id, Preflight(SeekArtefact), 5)
            == Progress(files, Preflight(DigestCurrent(files[RecordFinal], files[ArtefactFinal])))
  {
    hide PublishStep;
    hide RecoverStep;
    hide AdoptStep;
    hide ReplaceStep;
    hide ParseAuthCapabilityRecord;
    var op, record := Preflight(SeekArtefact), files[RecordFinal];
    assert Turns(files, id, op, 0) == Progress(files, op);
    assert Turns(files, id, op, 1) == Progress(files, Preflight(SeekRecord));
    assert Turns(files, id, op, 2) == Progress(files, Preflight(ReadRecord));
    assert Turns(files, id, op, 3) == Progress(files, Preflight(ValidateArtefact(record)));
    assert Turns(files, id, op, 4) == Progress(files, Preflight(ReadCookies(record)));
  }

  lemma ReadDigest(files: Files, id: int, record: Content, cookies: Content)
    requires ArtefactFinal in files
    ensures Turns(files, id, Preflight(DigestCurrent(record, cookies)), 1)
            == Progress(files, Preflight(Judged(Readings(true, Some(record), Some(cookies), Some(Sha256(files[ArtefactFinal]))))))
  {
    assert Turns(files, id, Preflight(DigestCurrent(record, cookies)), 0).files == files;
  }

  /** What a pre-flight reads when the recorded artefact comes back between the cookies and the digest. */
  function Crossed(record: Content, cookies: Content): Readings
    requires record.RecordText?
  {
    Readings(true, Some(record), Some(cookies), Some(record.record.artefactDigest))
  }

  ghost predicate CrossedReached(s: System, id: int, record: Content, cookies: Content)
    requires record.RecordText?
  {
    exists t :: Reaches(s, t) && id in t.operations && t.operations[id] == Preflight(Judged(Crossed(record, cookies)))
  }

  /** From a disk with another state in place, the gate passed and the record readable, it goes wrong. */
  lemma FinishCrossed(s: System, t: System, id: int, k: int)
    requires Quiet(s) && Reaches(s, t) && id in t.operations && t.operations[id] == Preflight(SeekArtefact)
    requires HasState(t.files) && RecordFinal in t.files && ParseAuthCapabilityRecord(t.files[RecordFinal]).Some?
    requires k != id && Ready(s, t, k) && Installs(s, k, t.files[RecordFinal].record.artefactDigest.of)
    ensures CrossedReached(s, id, t.files[RecordFinal], t.files[ArtefactFinal])
  {
    var record, cookies := t.files[RecordFinal], t.files[ArtefactFinal];
    ReadTo(t.files, id);
    var t1 := After(t, id, 5);
    ReachesAfter(s, t, id, 5);
    StaysReady(s, t, k, id, 5);
    var n := InstallCalls(s.operations[k]);
    InstallRun(s, t1, k, record.record.artefactDigest.of);
    var t2 := After(t1, k, n);
    ReachesAfter(s, t1, k, n);
    hide Turns;
    ReadDigest(t2.files, id, record, cookies);
    ReachesAfter(s, t2, id, 1);
    var t3 := After(t2, id, 1);
    hide Reaches;
    assert t3.operations[id] == Preflight(Judged(Crossed(record, cookies)));
  }

  /** The same, with the other state still to be brought in. */
  lemma BringAndFinish(s: System, t: System, id: int, j: int, k: int)
    requires Quiet(s) && Reaches(s, t) && id in t.operations && t.operations[id] == Preflight(SeekArtefact)
    requires RecordFinal in t.files && ParseAuthCapabilityRecord(t.files[RecordFinal]).Some?
    requires var x := t.files[RecordFinal].record.artefactDigest.of;
             k != id && Ready(s, t, k) && Installs(s, k, x) && j != id && Ready(s, t, j) && InstallsOther(s, j, x)
    ensures CrossedReached(s, id, t.files[RecordFinal], s.files[StagedArtefact(j)])
  {
    var n := InstallCalls(s.operations[j]);
    InstallRun(s, t, j, s.files[StagedArtefact(j)]);
    ReachesAfter(s, t, j, n);
    StaysReady(s, t, k, j, n);
    hide Turns;
    FinishCrossed(s, After(t, j, n), id, k);
  }

  /** The gate passed, everything else as at the start. */
  lemma GatePassed(s: System, id: int)
    requires Quiet(s) && id in s.operations && s.operations[id].Preflight?
    ensures var t := After(s, id, 1);
            && Reaches(s, t) && t.files == s.files && t.operations == s.operations[id := Preflight(SeekArtefact)]
            && forall i :: i != id && i in s.operations && !s.operations[i].Recover? ==> Ready(s, t, i)
  {
    assert Starting(s.operations[id]);
    PassGate(s.files, id);
    ReachesItself(s);
    ReachesAfter(s, s, id, 1);
    hide Turns;
    hide Reaches;
  }

  // ----- the three ways -----

  lemma FirstCrossed(s: System, id: int)
    requires Quiet(s) && id in s.operations && s.operations[id].Preflight? && FirstReturns(s)
    ensures exists cookies: Content :: cookies.StorageState? && cookies != s.files[RecordFinal].record.artefactDigest.of
                                       && CrossedReached(s, id, s.files[RecordFinal], cookies)
  {
    GatePassed(s, id);
    var t, x := After(s, id, 1), s.files[RecordFinal].record.artefactDigest.of;
    hide After;
    hide CrossedReached;
    hide Reaches;
    var k :| Installs(s, k, x);
    if HasState(s.files) && s.files[ArtefactFinal] != x {
      FinishCrossed(s, t, id, k);
    } else {
      var j :| InstallsOther(s, j, x);
      BringAndFinish(s, t, id, j, k);
    }
  }

  lemma PublishedCrossed(s: System, id: int, i: int, j: int, k: int)
    requires Quiet(s) && id in s.operations && s.operations[id].Preflight? && PublishedReturns(s, i, j, k)
    ensures CrossedReached(s, id, RecordText(s.operations[i].record), s.files[StagedArtefact(j)])
  {
    GatePassed(s, id);
    var t := After(s, id, 1);
    PublishRun(s, t, i);
    ReachesAfter(s, t, i, 9);
    StaysReady(s, t, j, i, 9);
    StaysReady(s, t, k, i, 9);
    hide Turns;
    hide Reaches;
    hide CrossedReached;
    var u := After(t, i, 9);
    BringAndFinish(s, u, id, j, k);
  }

  /** The adoption has looked for an old record; the rest is as at the start. */
  lemma AdoptionBegun(s: System, id: int, a: int)
    requires Quiet(s) && id in s.operations && s.operations[id].Preflight? && CanAdopt(s, a)
    ensures var t := After(After(s, id, 1), a, 1);
            && Reaches(s, t) && t.files == s.files && t.operations.Keys == s.operations.Keys
            && t.operations[id] == Preflight(SeekArtefact)
            && t.operations[a] == Adopt(s.operations[a].template, s.operations[a].replaceExisting, ValidateCurrent)
            && forall i :: i != id && i != a && i in s.operations && !s.operations[i].Recover? ==> Ready(s, t, i)
  {
    assert Starting(s.operations[a]);
    GatePassed(s, id);
    var t := After(s, id, 1);
    AdoptSeeks(s.files, a, s.operations[a].template, s.operations[a].replaceExisting);
    ReachesAfter(s, t, a, 1);
    hide Turns;
    hide Reaches;
  }

  /** An adoption that has looked for an old record and reads these states takes its record to disk. */
  ghost predicate MayWrite(s: System, t: System, a: int) {
    && a in s.operations && s.operations[a].Adopt? && a in t.operations && t.operations[a].Adopt?
    && t.operations[a].template == s.operations[a].template
    && TemporaryRecord(a) !in t.files
  }

  lemma AdoptionValidated(s: System, t: System, id: int, a: int)
    requires Reaches(s, t) && MayWrite(s, t, a) && id in t.operations && t.operations[id] == Preflight(SeekArtefact) && id != a
    requires t.operations[a].adopt == ValidateCurrent && HasState(t.files)
    ensures var u := After(t, a, 2);
            && Reaches(s, u) && MayWrite(s, u, a) && u.files == t.files && u.operations[a].adopt.DigestArtefact?
            && id in u.operations && u.operations[id] == Preflight(SeekArtefact)
            && forall i :: i != a && Ready(s, t, i) ==> Ready(s, u, i)
  {
    AdoptLooksTwice(t.files, a, t.operations[a].template, t.operations[a].replaceExisting);
    ReachesAfter(s, t, a, 2);
    hide Turns;
    hide Reaches;
  }

  lemma AdoptionWritten(s: System, t: System, id: int, a: int)
    requires Reaches(s, t) && MayWrite(s, t, a) && id in t.operations && t.operations[id] == Preflight(SeekArtefact) && id != a
    requires t.operations[a].adopt.DigestArtefact? && ArtefactFinal in t.files
    ensures var u := After(t, a, 4);
            && Reaches(s, u) && id in u.operations && u.operations[id] == Preflight(SeekArtefact)
            && RecordFinal in u.files
            && u.files[RecordFinal] == RecordText(AdoptedRecord(s.operations[a].template, t.operations[a].adopt.earliest, t.files[ArtefactFinal]))
            && forall i :: i != a && Ready(s, t, i) ==> Ready(s, u, i)
  {
    AdoptWrites(t.files, a, t.operations[a].template, t.operations[a].replaceExisting, t.operations[a].adopt.earliest);
    ReachesAfter(s, t, a, 4);
    forall i | i != a && Ready(s, t, i) ensures Ready(s, After(t, a, 4), i) {
      StaysReady(s, t, i, a, 4);
    }
    hide Turns;
    hide Reaches;
    hide Ready;
  }

  /** Another operation puts its artefact in place; the adoption and the pre-flight wait. */
  lemma BroughtIn(s: System, t: System, id: int, a: int, i: int)
    requires Quiet(s) && Reaches(s, t) && MayWrite(s, t, a) && id in t.operations && t.operations[id] == Preflight(SeekArtefact)
    requires Ready(s, t, i) && Installer(s, i) && i != a && i != id
    ensures var u := After(t, i, InstallCalls(s.operations[i]));
            && Reaches(s, u) && MayWrite(s, u, a) && u.operations[a] == t.operations[a]
            && id in u.operations && u.operations[id] == Preflight(SeekArtefact)
            && ArtefactFinal in u.files && u.files[ArtefactFinal] == s.files[StagedArtefact(i)]
            && forall q :: q != i && Ready(s, t, q) ==> Ready(s, u, q)
  {
    var n := InstallCalls(s.operations[i]);
    InstallRun(s, t, i, s.files[StagedArtefact(i)]);
    ReachesAfter(s, t, i, n);
    TurnsTouchOwn(t.files, i, t.operations[i], n);
    assert SameAt(t.files, After(t, i, n).files, TemporaryRecord(a));
    forall q | q != i && Ready(s, t, q) ensures Ready(s, After(t, i, n), q) {
      StaysReady(s, t, q, i, n);
    }
    hide Turns;
    hide Reaches;
    hide Ready;
  }

  /** The adoption is about to take its digest of `x`, and the last two installers have not begun. */
  ghost predicate BeforeDigest(s: System, t: System, id: int, a: int, j: int, k: int, x: Content) {
    && Reaches(s, t) && MayWrite(s, t, a) && t.operations[a].adopt.DigestArtefact?
    && id in t.operations && t.operations[id] == Preflight(SeekArtefact)
    && ArtefactFinal in t.files && t.files[ArtefactFinal] == x
    && Ready(s, t, j) && Ready(s, t, k)
  }

  /** A storage state is adopted as it stands, or after a first installer brought it in. */
  lemma StateAdopted(s: System, t: System, id: int, a: int, j: int, k: int, x: Content)
    requires AdoptedReturns(s, a, j, k) && x == s.files[StagedArtefact(k)] && x.StorageState?
    requires Quiet(s) && id in s.operations && s.operations[id].Preflight? && t == After(After(s, id, 1), a, 1)
    ensures exists u :: BeforeDigest(s, u, id, a, j, k, x)
  {
    AdoptionBegun(s, id, a);
    assert MayWrite(s, t, a);
    hide After;
    hide Reaches;
    hide Ready;
    hide Quiet;
    hide MayWrite;
    var u := t;
    if !(ArtefactFinal in s.files && s.files[ArtefactFinal] == x) {
      var i :| i != k && Installs(s, i, x);
      BroughtIn(s, t, id, a, i);
      u := After(t, i, InstallCalls(s.operations[i]));
    }
    AdoptionValidated(s, u, id, a);
    assert BeforeDigest(s, After(u, a, 2), id, a, j, k, x);
  }

  /** Other bytes are adopted when they come in after the adoption has looked at a storage state. */
  lemma OtherAdopted(s: System, t: System, id: int, a: int, j: int, k: int, x: Content)
    requires AdoptedReturns(s, a, j, k) && x == s.files[StagedArtefact(k)] && !x.StorageState?
    requires Quiet(s) && id in s.operations && s.operations[id].Preflight? && t == After(After(s, id, 1), a, 1)
    ensures exists u :: BeforeDigest(s, u, id, a, j, k, x)
  {
    AdoptionBegun(s, id, a);
    assert MayWrite(s, t, a);
    hide After;
    hide Reaches;
    hide Ready;
    hide Quiet;
    hide MayWrite;
    var u := t;
    if !HasState(s.files) {
      var m :| m != j && InstallsState(s, m);
      BroughtIn(s, t, id, a, m);
      u := After(t, m, InstallCalls(s.operations[m]));
    }
    AdoptionValidated(s, u, id, a);
    var v := After(u, a, 2);
    var i :| i != k && Installs(s, i, x);
    BroughtIn(s, v, id, a, i);
    assert BeforeDigest(s, After(v, i, InstallCalls(s.operations[i])), id, a, j, k, x);
  }

  lemma AdoptedCrossed(s: System, id: int, a: int, j: int, k: int)
    requires Quiet(s) && id in s.operations && s.operations[id].Preflight? && AdoptedReturns(s, a, j, k)
    ensures exists earliest ::
              CrossedReached(s, id, RecordText(AdoptedRecord(s.operations[a].template, earliest, s.files[StagedArtefact(k)])),
                             s.files[StagedArtefact(j)])
  {
    var x := s.files[StagedArtefact(k)];
    if x.StorageState? {
      StateAdopted(s, After(After(s, id, 1), a, 1), id, a, j, k, x);
    } else {
      OtherAdopted(s, After(After(s, id, 1), a, 1), id, a, j, k, x);
    }
    var t :| BeforeDigest(s, t, id, a, j, k, x);
    hide After;
    hide Reaches;
    hide Ready;
    hide Quiet;
    hide CrossedReached;
    AdoptionWritten(s, t, id, a);
    BringAndFinish(s, After(t, a, 4), id, j, k);
  }

  // ----- the main result -----

  lemma CrossedMisjudges(s: System, id: int, record: Content, cookies: Content)
    requires ParseAuthCapabilityRecord(record).Some? && cookies.StorageState?
    requires cookies != record.record.artefactDigest.of && CrossedReached(s, id, record, cookies)
    ensures exists schedule :: Misjudges(Run(s, schedule), id)
  {
    var t :| Reaches(s, t) && id in t.operations && t.operations[id] == Preflight(Judged(Crossed(record, cookies)));
    var schedule :| Run(s, schedule) == t;
    hide Run;
    assert Misjudges(Run(s, schedule), id);
  }

  /**
    Exactly when the digest check can pass wrongly: some interleaving lets a pre-flight judge other
    cookies than those of the recorded artefact iff a recorded artefact, the first one, a published one
    or an adopted one, can be installed once more after another storage state.
   */
  lemma MisjudgesExactly(s: System, id: int)
    requires Quiet(s) && id in s.operations && s.operations[id].Preflight?
    ensures (exists schedule :: Misjudges(Run(s, schedule), id)) <==> CanReturn(s)
  {
    hide Run;
    hide Misjudges;
    hide Quiet;
    hide CrossedReached;
    if !CanReturn(s) {
      hide CanReturn;
      forall schedule ensures !Misjudges(Run(s, schedule), id) {
        NeverMisjudges(s, schedule, id);
      }
    } else if FirstReturns(s) {
      FirstCrossed(s, id);
      var cookies: Content :| cookies.StorageState? && cookies != s.files[RecordFinal].record.artefactDigest.of
                              && CrossedReached(s, id, s.files[RecordFinal], cookies);
      CrossedMisjudges(s, id, s.files[RecordFinal], cookies);
    } else if i, j, k :| PublishedReturns(s, i, j, k) {
      PublishedCrossed(s, id, i, j, k);
      CrossedMisjudges(s, id, RecordText(s.operations[i].record), s.files[StagedArtefact(j)]);
    } else {
      var a, j, k :| AdoptedReturns(s, a, j, k);
      AdoptedCrossed(s, id, a, j, k);
      var earliest :| CrossedReached(s, id, RecordText(AdoptedRecord(s.operations[a].template, earliest, s.files[StagedArtefact(k)])),
                                     s.files[StagedArtefact(j)]);
      CrossedMisjudges(s, id, RecordText(AdoptedRecord(s.operations[a].template, earliest, s.files[StagedArtefact(k)])),
                       s.files[StagedArtefact(j)]);
    }
  }

  // ----- two small systems -----

  const FIRST := StorageState([], "first")
  const SECOND := StorageState([], "second")
  const OF_FIRST := CapabilityRecord(0, Dev, "http://h", None, MIN_AUTH_VALIDITY_WINDOW_MS, Sha256(FIRST))

  /** The first artefact with its record, a pre-flight, and two replacements. */
  function TwoReplacements(one: Content, two: Content): System {
    System(
      map[ArtefactFinal := FIRST, RecordFinal := RecordText(OF_FIRST), StagedArtefact(1) := one, StagedArtefact(2) := two],
      map[0 := Preflight(Gate), 1 := Replace(ValidatePending), 2 := Replace(ValidatePending)])
  }

  /** A pre-flight came out VALID on these cookies and this record. */
  predicate JudgedValid(t: System, id: int, record: Content, cookies: Content) {
    && id in t.operations && t.operations[id].Preflight? && t.operations[id].read.Judged?
    && var r := t.operations[id].read.readings;
    && r.record == Some(record) && r.artefact == Some(cookies)
    && EvaluateAuthCapabilityPreflight(Request(Dev, None, None), r, 0).Valid?
  }

  lemma ReplacementsReady()
    ensures var s := TwoReplacements(SECOND, FIRST);
            && Quiet(s) && Installs(s, 2, FIRST) && InstallsOther(s, 1, FIRST)
            && 0 in s.operations && s.operations[0] == Preflight(Gate) && 1 in s.operations && 2 in s.operations
            && s.files[StagedArtefact(1)] == SECOND && RecordFinal in s.files && s.files[RecordFinal] == RecordText(OF_FIRST)
  {
  }

  /**
    With the first bytes staged again, an interleaving ends VALID on the cookies of the artefact in
    between.
   */
  lemma SameBytesTwiceDefeatTheDigest()
    ensures exists schedule ::
              JudgedValid(Run(TwoReplacements(SECOND, FIRST), schedule), 0, RecordText(OF_FIRST), SECOND)
              && Sha256(SECOND) != OF_FIRST.artefactDigest
  {
    var s := TwoReplacements(SECOND, FIRST);
    ReplacementsReady();
    ReturnedVerdict();
    hide TwoReplacements;
    hide EvaluateAuthCapabilityPreflight;
    hide Reaches;
    hide Ready;
    hide Run;
    hide Quiet;
    GatePassed(s, 0);
    BringAndFinish(s, After(s, 0, 1), 0, 1, 2);
    hide After;
    var t :| Reaches(s, t) && 0 in t.operations && t.operations[0] == Preflight(Judged(Crossed(RecordText(OF_FIRST), SECOND)));
    RunTo(s, t);
    var schedule :| Run(s, schedule) == t;
    assert JudgedValid(Run(s, schedule), 0, RecordText(OF_FIRST), SECOND);
  }

  lemma RunTo(s: System, t: System)
    requires Reaches(s, t)
    ensures exists schedule :: Run(s, schedule) == t
  {
  }

  lemma ReturnedVerdict()
    ensures EvaluateAuthCapabilityPreflight(Request(Dev, None, None), Crossed(RecordText(OF_FIRST), SECOND), 0).Valid?
  {
    ValidExactly(OF_FIRST, [], None, 0);
    hide Judge;
  }

  /** Equal artefacts alone do no harm: here nothing recorded can return, in whatever order they come. */
  lemma EqualArtefactsCanBeHarmless()
    ensures !DistinctArtefacts(TwoReplacements(SECOND, SECOND)) && !CanReturn(TwoReplacements(SECOND, SECOND))
  {
    var s := TwoReplacements(SECOND, SECOND);
    assert StagedArtefact(1) in s.files && StagedArtefact(2) in s.files;
    assert forall k :: Installer(s, k) ==> k == 1 || k == 2;
  }
}
