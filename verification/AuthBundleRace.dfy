/**
  Any number of publications, recoveries, artefact replacements, adoptions and pre-flights on one
  artefact path, interleaved one system call at a time. An operation that crashes is one that the
  schedule never names again.
 */
module AuthBundleRace {
  import opened Wrappers
  import opened AuthCapability
  import opened AuthBundle

  datatype System = System(files: Files, operations: map<int, Operation>)

  function Step(s: System, id: int): System {
    if id !in s.operations then s
    else
      var p := OperationStep(s.files, id, s.operations[id]);
      System(p.files, s.operations[id := p.operation])
  }

  function Run(s: System, schedule: seq<int>): System {
    if schedule == [] then s else Step(Run(s, schedule[..|schedule| - 1]), schedule[|schedule| - 1])
  }

  /** No transaction is pending and every operation stands before its first system call. */
  ghost predicate Quiet(s: System) {
    && JournalFile !in s.files
    && (forall i :: StagedRecord(i) !in s.files && TemporaryRecord(i) !in s.files && TemporaryJournal(i) !in s.files)
    && (forall id :: id in s.operations ==> Starting(s.operations[id]))
  }

  // ----- when a recorded artefact can come back -----

  predicate HasState(files: Files) {
    ArtefactFinal in files && files[ArtefactFinal].StorageState?
  }

  /** The operation can put its staged artefact in place: a valid replacement, or a publication whose digest is right. */
  predicate Installer(s: System, i: int) {
    && i in s.operations && StagedArtefact(i) in s.files
    && match s.operations[i]
       case Replace(_) => s.files[StagedArtefact(i)].StorageState?
       case Publish(record, _) => Sha256(s.files[StagedArtefact(i)]) == record.artefactDigest
       case _ => false
  }

  predicate Installs(s: System, i: int, c: Content) {
    Installer(s, i) && s.files[StagedArtefact(i)] == c
  }

  predicate InstallsState(s: System, i: int) {
    Installer(s, i) && s.files[StagedArtefact(i)].StorageState?
  }

  predicate InstallsOther(s: System, i: int, c: Content) {
    InstallsState(s, i) && s.files[StagedArtefact(i)] != c
  }

  /** The artefact of the first record can be installed after another one was in place. */
  ghost predicate FirstReturns(s: System) {
    && RecordFinal in s.files && ParseAuthCapabilityRecord(s.files[RecordFinal]).Some?
    && var x := s.files[RecordFinal].record.artefactDigest.of;
    && (exists k :: Installs(s, k, x))
    && ((HasState(s.files) && s.files[ArtefactFinal] != x) || exists j :: InstallsOther(s, j, x))
  }

  /** The artefact of publication `i` is staged a second time, and another one can come in between. */
  predicate PublishedReturns(s: System, i: int, j: int, k: int) {
    && Installer(s, i) && s.operations[i].Publish? && ParseAuthCapabilityRecord(RecordText(s.operations[i].record)).Some?
    && k != i && Installs(s, k, s.files[StagedArtefact(i)]) && InstallsOther(s, j, s.files[StagedArtefact(i)])
  }

  predicate CanAdopt(s: System, a: int) {
    && a in s.operations && s.operations[a].Adopt?
    && (s.operations[a].replaceExisting || RecordFinal !in s.files)
    && ParseAuthCapabilityRecord(RecordText(s.operations[a].template)).Some?
  }

  /**
    The artefact that `k` stages can be adopted before, and another one can come in between. An
    adoption looks at a storage state first, and what it then records may be any bytes.
   */
  ghost predicate AdoptedReturns(s: System, a: int, j: int, k: int) {
    && CanAdopt(s, a) && Installer(s, k)
    && var x := s.files[StagedArtefact(k)];
    && InstallsOther(s, j, x)
    && ((exists i :: i != k && Installs(s, i, x)) || (x.StorageState? && ArtefactFinal in s.files && s.files[ArtefactFinal] == x))
    && (x.StorageState? || HasState(s.files) || exists m :: m != j && InstallsState(s, m))
  }

  /** Some artefact can be recorded, replaced by another storage state, and installed once more. */
  ghost predicate CanReturn(s: System) {
    || FirstReturns(s)
    || (exists i, j, k :: PublishedReturns(s, i, j, k))
    || (exists a, j, k :: AdoptedReturns(s, a, j, k))
  }

  /** Every artefact waiting to be installed is new, and no two of them are equal. */
  ghost predicate DistinctArtefacts(s: System) {
    && (forall i :: StagedArtefact(i) in s.files && ArtefactFinal in s.files ==> s.files[StagedArtefact(i)] != s.files[ArtefactFinal])
    && (forall i :: StagedArtefact(i) in s.files && RecordFinal in s.files && s.files[RecordFinal].RecordText? ==>
          s.files[StagedArtefact(i)] != s.files[RecordFinal].record.artefactDigest.of)
    && (forall i, j :: StagedArtefact(i) in s.files && StagedArtefact(j) in s.files && i != j ==>
          s.files[StagedArtefact(i)] != s.files[StagedArtefact(j)])
  }

  /** Distinct artefacts are more than enough. */
  lemma DistinctNeverReturn(s: System)
    requires DistinctArtefacts(s)
    ensures !CanReturn(s)
  {
    if CanReturn(s) {
      if i, j, k :| PublishedReturns(s, i, j, k) {
      } else if a, j, k :| AdoptedReturns(s, a, j, k) {
      }
    }
  }

  // ----- the invariant -----

  predicate SameAt(files: Files, after: Files, path: Path) {
    (path in files <==> path in after) && (path in files ==> files[path] == after[path])
  }

  /** The operation has put its artefact in place, itself or through a recovery. */
  predicate Spent(start: System, files: Files, i: int) {
    Installer(start, i) && StagedArtefact(i) !in files
  }

  predicate Brought(start: System, files: Files, i: int, c: Content) {
    Spent(start, files, i) && start.files[StagedArtefact(i)] == c
  }

  predicate BroughtState(start: System, files: Files, i: int) {
    Spent(start, files, i) && start.files[StagedArtefact(i)].StorageState?
  }

  predicate Publication(start: System, i: int, content: Content) {
    Installer(start, i) && start.operations[i].Publish? && content == RecordText(start.operations[i].record)
  }

  predicate GoodJournal(start: System, j: BundleJournal) {
    && j.artefactStaged.StagedArtefact?
    && Installer(start, j.artefactStaged.id) && start.operations[j.artefactStaged.id].Publish?
    && j.recordStaged == StagedRecord(j.artefactStaged.id)
    && j.artefactFinal == ArtefactFinal && j.recordFinal == RecordFinal
  }

  ghost predicate StateSeen(start: System, files: Files) {
    HasState(start.files) || exists m :: BroughtState(start, files, m)
  }

  ghost predicate TwoStatesBrought(start: System, files: Files) {
    exists m, j :: m != j && BroughtState(start, files, m) && BroughtState(start, files, j)
  }

  /** These bytes have been in place, and for an adoption to take them a storage state came before. */
  ghost predicate Adoptable(start: System, files: Files, x: Content) {
    if x.StorageState? then
      (ArtefactFinal in start.files && start.files[ArtefactFinal] == x) || exists i :: Brought(start, files, i, x)
    else
      && (exists i :: Brought(start, files, i, x)) && StateSeen(start, files)
      && (HasState(files) ==> HasState(start.files) || TwoStatesBrought(start, files))
  }

  ghost predicate AdoptedBy(start: System, files: Files, a: int, content: Content) {
    && content.RecordText? && a in start.operations && start.operations[a].Adopt?
    && (start.operations[a].replaceExisting || RecordFinal !in start.files)
    && content.record.captureMs == start.operations[a].template.captureMs
    && content.record.validityWindowMs == start.operations[a].template.validityWindowMs
    && Adoptable(start, files, content.record.artefactDigest.of)
  }

  /** Where a record on disk comes from. */
  ghost predicate KnownRecord(start: System, files: Files, content: Content) {
    || (RecordFinal in start.files && content == start.files[RecordFinal])
    || (exists i :: Spent(start, files, i) && Publication(start, i, content))
    || (exists a :: AdoptedBy(start, files, a, content))
  }

  ghost predicate StagedOk(start: System, files: Files) {
    && (forall i :: StagedArtefact(i) in files ==> StagedArtefact(i) in start.files && files[StagedArtefact(i)] == start.files[StagedArtefact(i)])
    && (forall i :: StagedRecord(i) in files ==> Publication(start, i, files[StagedRecord(i)]))
    && (JournalFile in files ==> files[JournalFile].JournalText? && GoodJournal(start, files[JournalFile].journal))
  }

  ghost predicate CurrentOk(start: System, files: Files) {
    || (SameAt(start.files, files, ArtefactFinal) && forall i :: !Spent(start, files, i))
    || (ArtefactFinal in files && exists i :: Brought(start, files, i, files[ArtefactFinal]))
  }

  ghost predicate RecordOk(start: System, files: Files) {
    && (RecordFinal in start.files ==> RecordFinal in files)
    && (RecordFinal in files ==> KnownRecord(start, files, files[RecordFinal]))
  }

  ghost predicate FilesOk(start: System, files: Files) {
    StagedOk(start, files) && CurrentOk(start, files) && RecordOk(start, files)
  }

  /** These bytes are not in place, and nobody is left who could put them there. */
  ghost predicate Gone(start: System, files: Files, x: Content) {
    && !(ArtefactFinal in files && files[ArtefactFinal] == x)
    && forall k :: Installs(start, k, x) ==> Spent(start, files, k)
  }

  /** The digest was checked against the record, and agrees only with the bytes whose cookies were read. */
  predicate Matched(r: Readings) {
    r.digest.Some? ==>
      && r.record.Some? && r.record.value.RecordText? && r.artefact.Some?
      && (r.digest.value == r.record.value.record.artefactDigest ==> Sha256(r.artefact.value) == r.digest.value)
  }

  predicate PublishOk(start: System, files: Files, id: int, record: CapabilityRecord, p: PublishPoint) {
    && (!p.DigestStaged? && !p.PublishThrew? ==> Installer(start, id))
    && (p.StageRecord? && TemporaryRecord(id) in files ==> files[TemporaryRecord(id)] == RecordText(record))
    && (p.StageJournal? && TemporaryJournal(id) in files ==> files[TemporaryJournal(id)] == JournalText(JournalFor(id, record)))
    && (p.RenameRecord? ==> Spent(start, files, id))
  }

  predicate RecoverOk(start: System, files: Files, p: RecoverPoint) {
    p.SeekJournal? || p.ReadJournal? || p.RemoveJournal? || p.Recovered? ||
    (GoodJournal(start, p.journal) && (p.CommitRecord? ==> Spent(start, files, p.journal.artefactStaged.id)))
  }

  ghost predicate AdoptOk(start: System, files: Files, id: int, replaceExisting: bool, p: AdoptPoint) {
    && (p.SeekOldRecord? || p.AdoptThrew? || replaceExisting || RecordFinal !in start.files)
    && (p.ReadExpiries? || p.DigestArtefact? ==> StateSeen(start, files))
    && (p.CreateAdopted? || p.WriteAdopted? || p.RenameAdopted? ==> AdoptedBy(start, files, id, RecordText(p.record)))
    && (p.RenameAdopted? && TemporaryRecord(id) in files ==> files[TemporaryRecord(id)] == RecordText(p.record))
  }

  ghost predicate ReadOk(start: System, files: Files, p: ReadPoint) {
    && (p.ValidateArtefact? || p.ReadCookies? ==>
          ParseAuthCapabilityRecord(p.record).Some? && KnownRecord(start, files, p.record))
    && (p.DigestCurrent? ==>
          p.record.RecordText? &&
          (p.cookies == p.record.record.artefactDigest.of || Gone(start, files, p.record.record.artefactDigest.of)))
    && (p.Judged? ==> Matched(p.readings))
  }

  predicate SameRole(a: Operation, b: Operation) {
    match a
    case Publish(record, _) => b.Publish? && b.record == record
    case Recover(_) => b.Recover?
    case Replace(_) => b.Replace?
    case Adopt(template, replaceExisting, _) => b.Adopt? && b.template == template && b.replaceExisting == replaceExisting
    case Preflight(_) => b.Preflight?
  }

  ghost predicate PointOk(start: System, files: Files, id: int, op: Operation) {
    && id in start.operations && SameRole(start.operations[id], op)
    && match op
       case Publish(record, p) => PublishOk(start, files, id, record, p)
       case Recover(p) => RecoverOk(start, files, p)
       case Replace(p) => p.RenamePending? ==> Installer(start, id)
       case Adopt(_, replaceExisting, p) => AdoptOk(start, files, id, replaceExisting, p)
       case Preflight(p) => ReadOk(start, files, p)
  }

  ghost predicate Invariant(start: System, s: System) {
    FilesOk(start, s.files) && forall id :: id in s.operations ==> PointOk(start, s.files, id, s.operations[id])
  }

  /** The artefact in place changed by bringing in one that was still staged. */
  predicate BringsIn(start: System, files: Files, after: Files, j: int) {
    StagedArtefact(j) in files && ArtefactFinal in after && Brought(start, after, j, after[ArtefactFinal])
  }

  /** What a step may do to the artefacts. */
  ghost predicate Advances(start: System, files: Files, after: Files) {
    && (forall i :: StagedArtefact(i) in after ==> StagedArtefact(i) in files)
    && (SameAt(files, after, ArtefactFinal) || exists j :: BringsIn(start, files, after, j))
  }

  /** What a step of one operation may do to the files that others rely on. */
  ghost predicate Frame(start: System, files: Files, after: Files, id: int) {
    && (forall q :: q != id ==> SameAt(files, after, TemporaryRecord(q)) && SameAt(files, after, TemporaryJournal(q)))
    && Advances(start, files, after)
  }

  // ----- what survives an advance -----

  lemma SpentStays(start: System, files: Files, after: Files)
    requires Advances(start, files, after)
    ensures forall i :: Spent(start, files, i) ==> Spent(start, after, i)
    ensures forall i, c :: Brought(start, files, i, c) ==> Brought(start, after, i, c)
    ensures forall i :: BroughtState(start, files, i) ==> BroughtState(start, after, i)
  {
    hide Installer;
  }

  lemma AdoptableStays(start: System, files: Files, after: Files, x: Content)
    requires Advances(start, files, after) && Adoptable(start, files, x)
    ensures Adoptable(start, after, x)
  {
    SpentStays(start, files, after);
    if !x.StorageState? {
      var i :| Brought(start, files, i, x);
      assert Brought(start, after, i, x);
      SeenStays(start, files, after);
      if HasState(after) && !HasState(start.files) {
        NewStateIsSecond(start, files, after);
      }
    }
    hide BringsIn;
    hide Spent;
  }

  lemma SeenStays(start: System, files: Files, after: Files)
    requires Advances(start, files, after) && StateSeen(start, files)
    ensures StateSeen(start, after)
  {
    SpentStays(start, files, after);
  }

  lemma NewStateIsSecond(start: System, files: Files, after: Files)
    requires Advances(start, files, after) && StateSeen(start, files) && !HasState(start.files)
    requires HasState(files) ==> TwoStatesBrought(start, files)
    requires HasState(after)
    ensures TwoStatesBrought(start, after)
  {
    SpentStays(start, files, after);
    if SameAt(files, after, ArtefactFinal) {
      var m, j :| m != j && BroughtState(start, files, m) && BroughtState(start, files, j);
      assert BroughtState(start, after, m) && BroughtState(start, after, j);
    } else {
      var j :| BringsIn(start, files, after, j);
      var m :| BroughtState(start, files, m);
      assert m != j && BroughtState(start, after, m) && BroughtState(start, after, j);
    }
  }

  lemma KnownStays(start: System, files: Files, after: Files, content: Content)
    requires Advances(start, files, after) && KnownRecord(start, files, content)
    ensures KnownRecord(start, after, content)
  {
    SpentStays(start, files, after);
    if i :| Spent(start, files, i) && Publication(start, i, content) {
      assert Spent(start, after, i);
    } else if a :| AdoptedBy(start, files, a, content) {
      AdoptableStays(start, files, after, content.record.artefactDigest.of);
      hide Adoptable;
      assert AdoptedBy(start, after, a, content);
    }
  }

  lemma GoneStays(start: System, files: Files, after: Files, x: Content)
    requires Advances(start, files, after) && Gone(start, files, x)
    ensures Gone(start, after, x)
  {
    SpentStays(start, files, after);
    if !SameAt(files, after, ArtefactFinal) {
      var j :| BringsIn(start, files, after, j);
      assert Installs(start, j, x) ==> Spent(start, files, j);
    }
  }

  // ----- one step on the files -----

  /** A step that leaves the artefacts and the finals alone, or writes a record of known origin. */
  lemma AsideKeeps(start: System, files: Files, after: Files)
    requires FilesOk(start, files)
    requires SameAt(files, after, ArtefactFinal) && forall i :: SameAt(files, after, StagedArtefact(i))
    requires SameAt(files, after, RecordFinal) || (RecordFinal in after && KnownRecord(start, files, after[RecordFinal]))
    requires forall i :: StagedRecord(i) in after && !SameAt(files, after, StagedRecord(i)) ==> Publication(start, i, after[StagedRecord(i)])
    requires JournalFile in after && !SameAt(files, after, JournalFile) ==>
               after[JournalFile].JournalText? && GoodJournal(start, after[JournalFile].journal)
    ensures FilesOk(start, after) && Advances(start, files, after)
  {
    assert Advances(start, files, after) by {
      forall i | StagedArtefact(i) in after ensures StagedArtefact(i) in files {
        assert SameAt(files, after, StagedArtefact(i));
      }
    }
    hide GoodJournal;
    hide Publication;
    if RecordFinal in after {
      KnownStays(start, files, after, after[RecordFinal]);
    }
    hide KnownRecord;
    SameCurrent(start, files, after);
    assert StagedOk(start, after) by {
      forall i | StagedArtefact(i) in after
        ensures StagedArtefact(i) in start.files && after[StagedArtefact(i)] == start.files[StagedArtefact(i)] {
        assert SameAt(files, after, StagedArtefact(i));
      }
    }
  }

  lemma SameCurrent(start: System, files: Files, after: Files)
    requires CurrentOk(start, files)
    requires SameAt(files, after, ArtefactFinal) && forall i :: SameAt(files, after, StagedArtefact(i))
    ensures CurrentOk(start, after)
  {
    hide Installer;
    assert forall i :: Spent(start, files, i) <==> Spent(start, after, i) by {
      forall i ensures Spent(start, files, i) <==> Spent(start, after, i) {
        assert SameAt(files, after, StagedArtefact(i));
      }
    }
    if i :| ArtefactFinal in files && Brought(start, files, i, files[ArtefactFinal]) {
      assert Brought(start, after, i, after[ArtefactFinal]);
    }
  }

  lemma InstallKeeps(start: System, files: Files, i: int)
    requires FilesOk(start, files) && Installer(start, i) && StagedArtefact(i) in files
    ensures var after := Renamed(files, StagedArtefact(i), ArtefactFinal);
            FilesOk(start, after) && Advances(start, files, after) && Spent(start, after, i)
  {
    var after := Renamed(files, StagedArtefact(i), ArtefactFinal);
    hide Installer;
    assert BringsIn(start, files, after, i);
    assert Brought(start, after, i, after[ArtefactFinal]);
    hide GoodJournal;
    hide Publication;
    if RecordFinal in files {
      KnownStays(start, files, after, files[RecordFinal]);
    }
    hide KnownRecord;
  }

  lemma RecordKeeps(start: System, files: Files, i: int)
    requires FilesOk(start, files) && StagedRecord(i) in files && Spent(start, files, i)
    ensures var after := Renamed(files, StagedRecord(i), RecordFinal);
            FilesOk(start, after) && Advances(start, files, after)
  {
    var after := Renamed(files, StagedRecord(i), RecordFinal);
    assert Publication(start, i, files[StagedRecord(i)]);
    assert KnownRecord(start, files, after[RecordFinal]);
    hide KnownRecord;
    hide FilesOk;
    AsideKeeps(start, files, after);
  }

  // ----- one step of each operation -----

  lemma PublishOwn(start: System, files: Files, id: int, record: CapabilityRecord, p: PublishPoint)
    requires StagedOk(start, files) && PointOk(start, files, id, Publish(record, p))
    ensures var after := PublishStep(files, id, record, p);
            && PointOk(start, after.files, id, after.operation)
            && forall q :: q != id ==>
                 SameAt(files, after.files, TemporaryRecord(q)) && SameAt(files, after.files, TemporaryJournal(q))
  {
  }

  lemma PublishKeeps(start: System, files: Files, id: int, record: CapabilityRecord, p: PublishPoint)
    requires FilesOk(start, files) && PointOk(start, files, id, Publish(record, p))
    ensures var after := PublishStep(files, id, record, p);
            && FilesOk(start, after.files) && Frame(start, files, after.files, id)
            && PointOk(start, after.files, id, after.operation)
  {
    PublishOwn(start, files, id, record, p);
    if p.RenameArtefact? && StagedArtefact(id) in files {
      InstallKeeps(start, files, id);
    } else if p.RenameRecord? && StagedRecord(id) in files {
      RecordKeeps(start, files, id);
    } else {
      PublishAside(start, files, id, record, p);
    }
    hide FilesOk;
    hide Advances;
    hide PointOk;
  }

  lemma PublishAside(start: System, files: Files, id: int, record: CapabilityRecord, p: PublishPoint)
    requires FilesOk(start, files) && PointOk(start, files, id, Publish(record, p))
    requires p.RenameArtefact? ==> StagedArtefact(id) !in files
    requires p.RenameRecord? ==> StagedRecord(id) !in files
    ensures var after := PublishStep(files, id, record, p).files;
            FilesOk(start, after) && Advances(start, files, after)
  {
    var after := PublishStep(files, id, record, p).files;
    AsideKeeps(start, files, after) by {
      hide FilesOk;
    }
    hide FilesOk;
    hide PublishStep;
  }

  lemma RecoverOwn(start: System, files: Files, id: int, p: RecoverPoint)
    requires StagedOk(start, files) && RecoverOk(start, files, p)
    ensures var after := RecoverStep(files, p);
            && after.operation.Recover? && RecoverOk(start, after.files, after.operation.recover)
            && forall q :: SameAt(files, after.files, TemporaryRecord(q)) && SameAt(files, after.files, TemporaryJournal(q))
  {
    hide Holding;
    hide Installer;
    if p.ReadJournal? || p.CommitArtefact? || p.CommitRecord? || p.RemoveJournal? {
    } else {
      RecoverLooksOnly(start, files, p);
    }
  }

  /** The looks and the digests of a recovery change no file and keep its journal. */
  lemma RecoverLooksOnly(start: System, files: Files, p: RecoverPoint)
    requires RecoverOk(start, files, p)
    requires !p.ReadJournal? && !p.CommitArtefact? && !p.CommitRecord? && !p.RemoveJournal?
    ensures RecoverStep(files, p).files == files && RecoverStep(files, p).operation.Recover?
    ensures RecoverOk(start, files, RecoverStep(files, p).operation.recover)
  {
    hide Holding;
    hide GoodJournal;
  }

  lemma RecoverKeeps(start: System, files: Files, id: int, p: RecoverPoint)
    requires FilesOk(start, files) && RecoverOk(start, files, p)
    ensures var after := RecoverStep(files, p);
            && FilesOk(start, after.files) && Frame(start, files, after.files, id)
            && after.operation.Recover? && RecoverOk(start, after.files, after.operation.recover)
  {
    RecoverOwn(start, files, id, p);
    if p.CommitArtefact? && p.journal.artefactStaged in files {
      InstallKeeps(start, files, p.journal.artefactStaged.id);
    } else if p.CommitRecord? && p.journal.recordStaged in files {
      RecordKeeps(start, files, p.journal.artefactStaged.id);
    } else {
      RecoverAside(start, files, p);
    }
    hide FilesOk;
    hide Advances;
    hide RecoverOk;
  }

  lemma RecoverAside(start: System, files: Files, p: RecoverPoint)
    requires FilesOk(start, files)
    requires p.CommitArtefact? ==> p.journal.artefactStaged !in files
    requires p.CommitRecord? ==> p.journal.recordStaged !in files
    ensures var after := RecoverStep(files, p).files;
            FilesOk(start, after) && Advances(start, files, after)
  {
    hide Holding;
    var after := RecoverStep(files, p).files;
    assert after == files || after == files - {JournalFile};
    hide RecoverStep;
    AsideKeeps(start, files, after) by {
      hide FilesOk;
    }
  }

  lemma ReplaceKeeps(start: System, files: Files, id: int, p: ReplacePoint)
    requires FilesOk(start, files) && PointOk(start, files, id, Replace(p))
    ensures var after := ReplaceStep(files, id, p);
            && FilesOk(start, after.files) && Frame(start, files, after.files, id)
            && PointOk(start, after.files, id, after.operation)
  {
    var after := ReplaceStep(files, id, p);
    if p.RenamePending? && StagedArtefact(id) in files {
      InstallKeeps(start, files, id);
      hide FilesOk;
      hide Advances;
    } else {
      assert after.files == files;
      assert Advances(start, files, files);
    }
  }

  /** Whatever is in place was there at the start or has been brought in. */
  lemma StateInPlaceSeen(start: System, files: Files)
    requires CurrentOk(start, files) && HasState(files)
    ensures StateSeen(start, files)
  {
    if i :| Brought(start, files, i, files[ArtefactFinal]) {
      assert BroughtState(start, files, i);
    }
  }

  lemma InPlaceAdoptable(start: System, files: Files)
    requires CurrentOk(start, files) && StateSeen(start, files) && ArtefactFinal in files
    ensures Adoptable(start, files, files[ArtefactFinal])
  {
    hide Spent;
    if SameAt(start.files, files, ArtefactFinal) && forall i :: !Spent(start, files, i) {
      assert forall m :: BroughtState(start, files, m) ==> Spent(start, files, m);
    }
  }

  lemma AdoptKeeps(start: System, files: Files, id: int, template: CapabilityRecord, replaceExisting: bool,
      p: AdoptPoint)
    requires FilesOk(start, files) && PointOk(start, files, id, Adopt(template, replaceExisting, p))
    ensures var after := AdoptStep(files, id, template, replaceExisting, p);
            && FilesOk(start, after.files) && Frame(start, files, after.files, id)
            && PointOk(start, after.files, id, after.operation)
  {
    var after := AdoptStep(files, id, template, replaceExisting, p);
    AdoptAside(start, files, id, template, replaceExisting, p);
    hide FilesOk;
    if p.CreateAdopted? || p.WriteAdopted? || p.RenameAdopted? {
      AdoptedStays(start, files, after.files, id, RecordText(p.record));
      hide AdoptedBy;
      hide Advances;
    } else {
      AdoptLooks(start, files, id, template, replaceExisting, p);
      hide Advances;
      hide PointOk;
    }
  }

  lemma AdoptedStays(start: System, files: Files, after: Files, a: int, content: Content)
    requires Advances(start, files, after) && AdoptedBy(start, files, a, content)
    ensures AdoptedBy(start, after, a, content)
  {
    AdoptableStays(start, files, after, content.record.artefactDigest.of);
    hide Adoptable;
  }

  lemma AdoptAside(start: System, files: Files, id: int, template: CapabilityRecord, replaceExisting: bool,
      p: AdoptPoint)
    requires FilesOk(start, files) && PointOk(start, files, id, Adopt(template, replaceExisting, p))
    ensures var after := AdoptStep(files, id, template, replaceExisting, p).files;
            FilesOk(start, after) && Frame(start, files, after, id)
  {
    var after := AdoptStep(files, id, template, replaceExisting, p).files;
    hide AdoptedBy;
    hide FilesOk;
    assert p.RenameAdopted? && TemporaryRecord(id) in files ==> KnownRecord(start, files, after[RecordFinal]) by {
      assert p.RenameAdopted? && TemporaryRecord(id) in files ==> AdoptedBy(start, files, id, after[RecordFinal]);
    }
    hide KnownRecord;
    AsideKeeps(start, files, after);
    hide Advances;
  }

  /** The looks and reads of an adoption change no file. */
  lemma AdoptLooks(start: System, files: Files, id: int, template: CapabilityRecord, replaceExisting: bool,
      p: AdoptPoint)
    requires FilesOk(start, files) && PointOk(start, files, id, Adopt(template, replaceExisting, p))
    requires !p.CreateAdopted? && !p.WriteAdopted? && !p.RenameAdopted?
    ensures var after := AdoptStep(files, id, template, replaceExisting, p);
            after.files == files && PointOk(start, files, id, after.operation)
  {
    if HasState(files) { StateInPlaceSeen(start, files); }
    if p.DigestArtefact? && ArtefactFinal in files { InPlaceAdoptable(start, files); }
    hide StateSeen;
    hide Adoptable;
    hide CurrentOk;
    hide StagedOk;
    hide KnownRecord;
  }

  // ----- the digest check -----

  /**
    The heart of the matter: a record whose artefact is not in place, but another storage state is, and
    an installer of the recorded bytes that is still to come, are only possible where they can return.
   */
  lemma StillStagedReturns(start: System, files: Files, content: Content, k: int)
    requires FilesOk(start, files) && KnownRecord(start, files, content)
    requires ParseAuthCapabilityRecord(content).Some? && HasState(files)
    requires var x := content.record.artefactDigest.of;
             files[ArtefactFinal] != x && Installs(start, k, x) && !Spent(start, files, k)
    ensures CanReturn(start)
  {
    var x := content.record.artefactDigest.of;
    if RecordFinal in start.files && content == start.files[RecordFinal] {
      FirstStaged(start, files, x, k);
    } else if i :| Spent(start, files, i) && Publication(start, i, content) {
      var j := BroughtOther(start, files, x, i);
      assert PublishedReturns(start, i, j, k);
    } else {
      var a :| AdoptedBy(start, files, a, content);
      AdoptedStaged(start, files, a, content, k);
    }
  }

  /** Once anything was brought in, another state in place was brought in too. */
  lemma BroughtOther(start: System, files: Files, x: Content, i: int) returns (j: int)
    requires CurrentOk(start, files) && HasState(files) && files[ArtefactFinal] != x && Spent(start, files, i)
    ensures InstallsOther(start, j, x) && BroughtState(start, files, j)
  {
    j :| Brought(start, files, j, files[ArtefactFinal]);
  }

  lemma FirstStaged(start: System, files: Files, x: Content, k: int)
    requires CurrentOk(start, files) && HasState(files) && files[ArtefactFinal] != x && Installs(start, k, x)
    requires RecordFinal in start.files && ParseAuthCapabilityRecord(start.files[RecordFinal]).Some?
    requires x == start.files[RecordFinal].record.artefactDigest.of
    ensures FirstReturns(start)
  {
    if i :| Brought(start, files, i, files[ArtefactFinal]) {
      assert InstallsOther(start, i, x);
    }
  }

  lemma AdoptedStaged(start: System, files: Files, a: int, content: Content, k: int)
    requires CurrentOk(start, files) && HasState(files) && AdoptedBy(start, files, a, content)
    requires ParseAuthCapabilityRecord(content).Some?
    requires var x := content.record.artefactDigest.of;
             files[ArtefactFinal] != x && Installs(start, k, x) && !Spent(start, files, k)
    ensures exists j :: AdoptedReturns(start, a, j, k)
  {
    var x := content.record.artefactDigest.of;
    if i :| Brought(start, files, i, x) {
      var j := BroughtOther(start, files, x, i);
      assert i != k && Installs(start, i, x);
      if !x.StorageState? && !HasState(start.files) {
        var m, n :| m != n && BroughtState(start, files, m) && BroughtState(start, files, n);
        assert InstallsState(start, m) && InstallsState(start, n);
      }
      assert AdoptedReturns(start, a, j, k);
    } else {
      var j :| Brought(start, files, j, files[ArtefactFinal]);
      assert AdoptedReturns(start, a, j, k);
    }
  }

  lemma ReadKeeps(start: System, files: Files, p: ReadPoint)
    requires FilesOk(start, files) && ReadOk(start, files, p) && !CanReturn(start)
    ensures var after := ReadStep(files, p);
            after.files == files && after.operation.Preflight? && ReadOk(start, files, after.operation.read)
  {
    if p.ReadCookies? && HasState(files) {
      var x := p.record.record.artefactDigest.of;
      if files[ArtefactFinal] != x {
        forall k | Installs(start, k, x) ensures Spent(start, files, k) {
          if !Spent(start, files, k) { StillStagedReturns(start, files, p.record, k); }
        }
        assert Gone(start, files, x);
      }
    }
    hide CanReturn;
    hide KnownRecord;
    hide StagedOk;
    hide CurrentOk;
    hide Installs;
    hide Spent;
  }

  // ----- one step of the system -----

  lemma OwnKeeps(start: System, s: System, id: int)
    requires Invariant(start, s) && !CanReturn(start) && id in s.operations
    ensures var t := Step(s, id);
            FilesOk(start, t.files) && Frame(start, s.files, t.files, id) && PointOk(start, t.files, id, t.operations[id])
  {
    hide PublishStep;
    hide RecoverStep;
    hide AdoptStep;
    hide ReadStep;
    hide PublishOk;
    hide RecoverOk;
    hide AdoptOk;
    hide ReadOk;
    hide CanReturn;
    hide FilesOk;
    assert PointOk(start, s.files, id, s.operations[id]);
    match s.operations[id]
    case Publish(record, p) => PublishKeeps(start, s.files, id, record, p);
    case Recover(p) => RecoverKeeps(start, s.files, id, p);
    case Adopt(template, replaceExisting, p) => AdoptKeeps(start, s.files, id, template, replaceExisting, p);
    case Replace(p) => ReplaceKeeps(start, s.files, id, p);
    case Preflight(p) => ReadKeeps(start, s.files, p);
  }

  /** What one operation knows survives a step of another. */
  lemma OthersKeep(start: System, files: Files, after: Files, id: int, q: int, op: Operation)
    requires PointOk(start, files, q, op) && q != id && Frame(start, files, after, id)
    ensures PointOk(start, after, q, op)
  {
    SpentStays(start, files, after);
    assert SameAt(files, after, TemporaryRecord(q)) && SameAt(files, after, TemporaryJournal(q));
    if op.Adopt? { AdopterKeeps(start, files, after, q, op.replaceExisting, op.adopt); }
    if op.Preflight? { ReaderKeeps(start, files, after, op.read); }
    hide Advances;
    hide AdoptOk;
    hide ReadOk;
    hide GoodJournal;
    hide Installer;
  }

  lemma AdopterKeeps(start: System, files: Files, after: Files, q: int, replaceExisting: bool, p: AdoptPoint)
    requires AdoptOk(start, files, q, replaceExisting, p) && Advances(start, files, after)
    requires SameAt(files, after, TemporaryRecord(q))
    ensures AdoptOk(start, after, q, replaceExisting, p)
  {
    if p.ReadExpiries? || p.DigestArtefact? { SeenStays(start, files, after); }
    if p.CreateAdopted? || p.WriteAdopted? || p.RenameAdopted? { AdoptedStays(start, files, after, q, RecordText(p.record)); }
    hide Advances;
    hide StateSeen;
    hide AdoptedBy;
  }

  lemma ReaderKeeps(start: System, files: Files, after: Files, p: ReadPoint)
    requires ReadOk(start, files, p) && Advances(start, files, after)
    ensures ReadOk(start, after, p)
  {
    if p.ValidateArtefact? || p.ReadCookies? { KnownStays(start, files, after, p.record); }
    if p.DigestCurrent? && p.cookies != p.record.record.artefactDigest.of {
      GoneStays(start, files, after, p.record.record.artefactDigest.of);
    }
    hide Advances;
    hide KnownRecord;
    hide Gone;
  }

  lemma StepKeeps(start: System, s: System, id: int)
    requires Invariant(start, s) && !CanReturn(start)
    ensures Invariant(start, Step(s, id))
  {
    hide FilesOk;
    hide PointOk;
    hide Frame;
    hide CanReturn;
    if id in s.operations {
      OwnKeeps(start, s, id);
      var t := Step(s, id);
      forall q | q in t.operations ensures PointOk(start, t.files, q, t.operations[q]) {
        if q != id { OthersKeep(start, s.files, t.files, id, q, s.operations[q]); }
      }
    }
  }

  lemma {:induction false} RunKeeps(s: System, schedule: seq<int>)
    requires Quiet(s) && !CanReturn(s)
    ensures Invariant(s, Run(s, schedule))
  {
    hide Step;
    hide CanReturn;
    if schedule == [] {
      StartHolds(s);
    } else {
      RunKeeps(s, schedule[..|schedule| - 1]);
      hide Invariant;
      StepKeeps(s, Run(s, schedule[..|schedule| - 1]), schedule[|schedule| - 1]);
    }
  }

  lemma StartHolds(s: System)
    requires Quiet(s)
    ensures Invariant(s, s)
  {
    assert FilesOk(s, s.files) by {
      assert forall i :: Installer(s, i) ==> !Spent(s, s.files, i);
    }
    hide FilesOk;
  }

  // ----- the main result -----

  /** A pre-flight came to a coherent reading, and yet judged the cookies of other bytes than the recorded ones. */
  predicate Misjudges(t: System, id: int) {
    && id in t.operations && t.operations[id].Preflight? && t.operations[id].read.Judged?
    && var r := t.operations[id].read.readings;
    Coherent(r) && Sha256(r.artefact.value) != r.record.value.record.artefactDigest
  }

  lemma NeverMisjudges(s: System, schedule: seq<int>, id: int)
    requires Quiet(s) && !CanReturn(s)
    ensures !Misjudges(Run(s, schedule), id)
  {
    RunKeeps(s, schedule);
    hide Run;
    hide CanReturn;
    var t := Run(s, schedule);
    if id in t.operations {
      assert PointOk(s, t.files, id, t.operations[id]);
    }
  }

  /**
    Under any interleaving, a pre-flight that comes out VALID used a record and cookies of one and the
    same artefact: the bytes whose cookies it judged are the bytes the record was written for. It takes
    no more than that no recorded artefact can return after another one; distinct artefacts never do.
   */
  lemma ValidUsesOneArtefact(s: System, schedule: seq<int>, id: int, request: Request, nowMs: int)
    requires Quiet(s) && !CanReturn(s)
    requires id in Run(s, schedule).operations
    requires Run(s, schedule).operations[id].Preflight? && Run(s, schedule).operations[id].read.Judged?
    requires EvaluateAuthCapabilityPreflight(request, Run(s, schedule).operations[id].read.readings, nowMs).Valid?
    ensures var r := Run(s, schedule).operations[id].read.readings;
            && r.record.Some? && r.record.value.RecordText? && r.artefact.Some?
            && Sha256(r.artefact.value) == r.record.value.record.artefactDigest
  {
    NeverMisjudges(s, schedule, id);
    hide Run;
    hide CanReturn;
    StatesExactly(request, Run(s, schedule).operations[id].read.readings, nowMs);
    hide EvaluateAuthCapabilityPreflight;
  }
}
