/**
  Publications and recoveries that overlap. They share one journal path, so one publication may drop
  the journal of another that stands between its two renames; then an open gate shows a torn pair.
 */
module AuthBundleOverlap {
  import opened Wrappers
  import opened AuthCapability
  import opened AuthBundle
  import opened AuthBundleRace
  import opened AuthBundleReturn
  import Crash = AuthBundleCrash

  /** Nothing here writes the artefact or the record without the journal. */
  predicate Journaled(s: System) {
    forall i :: i in s.operations ==> s.operations[i].Publish? || s.operations[i].Recover? || s.operations[i].Preflight?
  }

  /** A whole pair: the first one, or that of one publication. */
  ghost predicate Whole(start: System, pair: Crash.Pair) {
    || pair == Crash.Finals(start.files)
    || exists i :: Installer(start, i) && start.operations[i].Publish? && pair == Crash.PairOf(start.operations[i].record)
  }

  /** A reader passes the gate and finds the artefact of one beside the record of another. */
  ghost predicate TornBehindOpenGate(start: System, files: Files) {
    JournalFile !in files && !Whole(start, Crash.Finals(files))
  }

  /** Two publications that would succeed alone stage different artefacts. */
  predicate Differ(s: System, i: int, j: int) {
    && Installer(s, i) && Installer(s, j) && s.operations[i].Publish? && s.operations[j].Publish?
    && s.files[StagedArtefact(i)] != s.files[StagedArtefact(j)]
  }

  // ----- one artefact only: what every reachable state keeps -----

  ghost predicate OnlyArtefact(start: System, c: Content) {
    forall i :: Installer(start, i) ==> start.files[StagedArtefact(i)] == c
  }

  predicate Placed(files: Files, c: Content) {
    ArtefactFinal in files && files[ArtefactFinal] == c
  }

  /** The record in place is the one of a publication. */
  ghost predicate Written(start: System, files: Files) {
    RecordFinal in files && exists i :: Publication(start, i, files[RecordFinal])
  }

  /** The gate is shut, or need not be shut any more. */
  ghost predicate Guarded(start: System, files: Files) {
    JournalFile in files || Written(start, files)
  }

  predicate JournalOk(start: System, j: BundleJournal) {
    && j.artefactStaged.StagedArtefact?
    && var i := j.artefactStaged.id;
    Installer(start, i) && start.operations[i].Publish? && j == JournalFor(i, start.operations[i].record)
  }

  ghost predicate DiskOk(start: System, c: Content, files: Files) {
    && (forall i :: StagedArtefact(i) in files ==> StagedArtefact(i) in start.files && files[StagedArtefact(i)] == start.files[StagedArtefact(i)])
    && (forall i :: StagedRecord(i) in files ==> Publication(start, i, files[StagedRecord(i)]))
    && (JournalFile in files ==> files[JournalFile].JournalText? && JournalOk(start, files[JournalFile].journal))
    && (SameAt(start.files, files, ArtefactFinal) || (Placed(files, c) && Guarded(start, files)))
    && (SameAt(start.files, files, RecordFinal) || (Placed(files, c) && Written(start, files)))
  }

  ghost predicate PublishOk(start: System, c: Content, files: Files, id: int, record: CapabilityRecord, p: PublishPoint) {
    && (!p.DigestStaged? && !p.PublishThrew? ==> Installer(start, id))
    && (p.StageRecord? && TemporaryRecord(id) in files ==> files[TemporaryRecord(id)] == RecordText(record))
    && (p.StageJournal? && TemporaryJournal(id) in files ==> files[TemporaryJournal(id)] == JournalText(JournalFor(id, record)))
    && (p.RenameArtefact? || p.RenameRecord? ==> Guarded(start, files))
    && (p.RenameRecord? ==> Placed(files, c))
    && (p.DropJournal? ==> Written(start, files))
  }

  ghost predicate RecoverOk(start: System, c: Content, files: Files, p: RecoverPoint) {
    p.SeekJournal? || p.ReadJournal? || p.Recovered? ||
    (if p.RemoveJournal? then Written(start, files)
     else JournalOk(start, p.journal) && Guarded(start, files) && (p.CommitRecord? ==> Placed(files, c)))
  }

  ghost predicate OperationOk(start: System, c: Content, files: Files, id: int, op: Operation) {
    && id in start.operations && SameRole(start.operations[id], op)
    && match op
       case Publish(record, p) => PublishOk(start, c, files, id, record, p)
       case Recover(p) => RecoverOk(start, c, files, p)
       case Preflight(_) => true
       case _ => false
  }

  /** What no step takes back. */
  ghost predicate Onward(start: System, c: Content, files: Files, after: Files, id: int) {
    && (Written(start, files) ==> Written(start, after))
    && (Guarded(start, files) ==> Guarded(start, after))
    && (Placed(files, c) ==> Placed(after, c))
    && forall q :: q != id ==> SameAt(files, after, TemporaryRecord(q)) && SameAt(files, after, TemporaryJournal(q))
  }

  ghost predicate Keeps(start: System, c: Content, files: Files, id: int, p: Progress) {
    DiskOk(start, c, p.files) && OperationOk(start, c, p.files, id, p.operation) && Onward(start, c, files, p.files, id)
  }

  ghost predicate AllOk(start: System, c: Content, s: System) {
    DiskOk(start, c, s.files) && forall id :: id in s.operations ==> OperationOk(start, c, s.files, id, s.operations[id])
  }

  // ----- the three writes that a reader can notice -----

  /** Renaming a staged artefact, behind the gate. */
  lemma ArtefactPlaced(start: System, c: Content, files: Files, i: int, id: int)
    requires DiskOk(start, c, files) && OnlyArtefact(start, c) && Installer(start, i)
    requires StagedArtefact(i) in files && Guarded(start, files)
    ensures var after := Renamed(files, StagedArtefact(i), ArtefactFinal);
            DiskOk(start, c, after) && Placed(after, c) && Onward(start, c, files, after, id)
  {
    hide Publication;
    hide JournalOk;
    hide Installer;
    var after := Renamed(files, StagedArtefact(i), ArtefactFinal);
    assert Written(start, files) <==> Written(start, after);
    hide Written;
  }

  /** Renaming a staged record, with the artefact in place. */
  lemma RecordPlaced(start: System, c: Content, files: Files, i: int, id: int)
    requires DiskOk(start, c, files) && StagedRecord(i) in files && Placed(files, c)
    ensures var after := Renamed(files, StagedRecord(i), RecordFinal);
            DiskOk(start, c, after) && Placed(after, c) && Written(start, after) && Onward(start, c, files, after, id)
  {
    hide Publication;
    hide JournalOk;
    var after := Renamed(files, StagedRecord(i), RecordFinal);
    assert Publication(start, i, after[RecordFinal]);
    assert Written(start, after);
    hide Written;
  }

  /** Removing the journal, with a published record in place. */
  lemma JournalRemoved(start: System, c: Content, files: Files, id: int)
    requires DiskOk(start, c, files) && Written(start, files)
    ensures DiskOk(start, c, files - {JournalFile}) && Written(start, files - {JournalFile})
            && Onward(start, c, files, files - {JournalFile}, id)
  {
    hide Publication;
    hide JournalOk;
    assert Written(start, files) <==> Written(start, files - {JournalFile});
    hide Written;
  }

  /** A step that touches no final, no staged artefact and no journal of others. */
  lemma AsideOk(start: System, c: Content, files: Files, after: Files, id: int)
    requires DiskOk(start, c, files)
    requires SameAt(files, after, ArtefactFinal) && SameAt(files, after, RecordFinal)
    requires forall i :: SameAt(files, after, StagedArtefact(i))
    requires forall i :: StagedRecord(i) in after && !SameAt(files, after, StagedRecord(i)) ==> Publication(start, i, after[StagedRecord(i)])
    requires JournalFile in files ==> JournalFile in after
    requires JournalFile in after && !SameAt(files, after, JournalFile) ==>
               after[JournalFile].JournalText? && JournalOk(start, after[JournalFile].journal)
    requires forall q :: q != id ==> SameAt(files, after, TemporaryRecord(q)) && SameAt(files, after, TemporaryJournal(q))
    ensures DiskOk(start, c, after) && Onward(start, c, files, after, id)
  {
    hide Publication;
    hide JournalOk;
    assert Written(start, files) <==> Written(start, after);
    hide Written;
    forall i | StagedArtefact(i) in after
      ensures StagedArtefact(i) in start.files && after[StagedArtefact(i)] == start.files[StagedArtefact(i)] {
      assert SameAt(files, after, StagedArtefact(i));
    }
  }

  // ----- the steps -----

  predicate Commits(p: PublishPoint) {
    p.RenameArtefact? || p.RenameRecord? || p.DropJournal?
  }

  lemma CommitKeeps(start: System, c: Content, files: Files, id: int, record: CapabilityRecord, p: PublishPoint)
    requires DiskOk(start, c, files) && OnlyArtefact(start, c) && OperationOk(start, c, files, id, Publish(record, p))
    requires Commits(p)
    ensures Keeps(start, c, files, id, PublishStep(files, id, record, p))
  {
    hide OnlyArtefact;
    if p.RenameArtefact? && StagedArtefact(id) in files {
      ArtefactPlaced(start, c, files, id, id);
    } else if p.RenameRecord? && StagedRecord(id) in files {
      RecordPlaced(start, c, files, id, id);
    } else if p.DropJournal? && JournalFile in files {
      JournalRemoved(start, c, files, id);
    } else {
      NothingChanges(start, c, files, id);
    }
    hide DiskOk;
    hide Onward;
  }

  predicate OwnTemporary(path: Path, id: int) {
    path == TemporaryRecord(id) || path == TemporaryJournal(id)
  }

  lemma TemporaryWritten(start: System, c: Content, files: Files, path: Path, content: Content, id: int)
    requires DiskOk(start, c, files) && OwnTemporary(path, id)
    ensures DiskOk(start, c, files[path := content]) && Onward(start, c, files, files[path := content], id)
  {
    AsideOk(start, c, files, files[path := content], id);
  }

  lemma RecordStaged(start: System, c: Content, files: Files, id: int)
    requires DiskOk(start, c, files) && TemporaryRecord(id) in files && Publication(start, id, files[TemporaryRecord(id)])
    ensures var after := Renamed(files, TemporaryRecord(id), StagedRecord(id));
            DiskOk(start, c, after) && Onward(start, c, files, after, id)
  {
    hide JournalOk;
    AsideOk(start, c, files, Renamed(files, TemporaryRecord(id), StagedRecord(id)), id);
  }

  lemma JournalStaged(start: System, c: Content, files: Files, id: int)
    requires DiskOk(start, c, files) && TemporaryJournal(id) in files
    requires files[TemporaryJournal(id)].JournalText? && JournalOk(start, files[TemporaryJournal(id)].journal)
    ensures var after := Renamed(files, TemporaryJournal(id), JournalFile);
            DiskOk(start, c, after) && Onward(start, c, files, after, id) && Guarded(start, after)
  {
    hide JournalOk;
    AsideOk(start, c, files, Renamed(files, TemporaryJournal(id), JournalFile), id);
  }

  /** The staging of the record. */
  lemma RecordPrepared(start: System, c: Content, files: Files, id: int, record: CapabilityRecord, p: PublishPoint)
    requires DiskOk(start, c, files) && OperationOk(start, c, files, id, Publish(record, p))
    requires p.DigestStaged? || p.CreateRecord? || p.WriteRecord? || p.StageRecord?
    ensures Keeps(start, c, files, id, PublishStep(files, id, record, p))
  {
    NothingChanges(start, c, files, id);
    if p.DigestStaged? {
      if Holding(files, StagedArtefact(id), record.artefactDigest) { StagedFromStart(start, c, files, id, record); }
    } else if p.CreateRecord? {
      TemporaryWritten(start, c, files, TemporaryRecord(id), OtherBytes(""), id);
    } else if p.WriteRecord? {
      TemporaryWritten(start, c, files, TemporaryRecord(id), RecordText(record), id);
    } else if TemporaryRecord(id) in files {
      RecordStaged(start, c, files, id);
    }
    hide DiskOk;
    hide Onward;
    hide Guarded;
    hide Placed;
    hide Written;
    hide Installer;
  }

  /** The staging of the journal, and the ends. */
  lemma JournalPrepared(start: System, c: Content, files: Files, id: int, record: CapabilityRecord, p: PublishPoint)
    requires DiskOk(start, c, files) && OperationOk(start, c, files, id, Publish(record, p))
    requires p.CreateJournal? || p.WriteJournal? || p.StageJournal? || p.Published? || p.PublishThrew?
    ensures Keeps(start, c, files, id, PublishStep(files, id, record, p))
  {
    NothingChanges(start, c, files, id);
    if p.CreateJournal? {
      TemporaryWritten(start, c, files, TemporaryJournal(id), OtherBytes(""), id);
    } else if p.WriteJournal? {
      TemporaryWritten(start, c, files, TemporaryJournal(id), JournalText(JournalFor(id, record)), id);
    } else if p.StageJournal? && TemporaryJournal(id) in files {
      JournalIsOk(start, id, record);
      JournalStaged(start, c, files, id);
    }
    hide DiskOk;
    hide Onward;
    hide Guarded;
    hide Placed;
    hide Written;
    hide Installer;
  }

  lemma JournalIsOk(start: System, id: int, record: CapabilityRecord)
    requires Installer(start, id) && start.operations[id].Publish? && start.operations[id].record == record
    ensures JournalOk(start, JournalFor(id, record))
  {
  }

  lemma PublishKeeps(start: System, c: Content, files: Files, id: int, record: CapabilityRecord, p: PublishPoint)
    requires DiskOk(start, c, files) && OnlyArtefact(start, c) && OperationOk(start, c, files, id, Publish(record, p))
    ensures Keeps(start, c, files, id, PublishStep(files, id, record, p))
  {
    hide DiskOk;
    hide OnlyArtefact;
    hide OperationOk;
    hide Keeps;
    hide PublishStep;
    if Commits(p) {
      CommitKeeps(start, c, files, id, record, p);
    } else if p.DigestStaged? || p.CreateRecord? || p.WriteRecord? || p.StageRecord? {
      RecordPrepared(start, c, files, id, record, p);
    } else {
      JournalPrepared(start, c, files, id, record, p);
    }
  }

  lemma StagedFromStart(start: System, c: Content, files: Files, id: int, record: CapabilityRecord)
    requires DiskOk(start, c, files) && id in start.operations && start.operations[id].Publish? && start.operations[id].record == record
    requires Holding(files, StagedArtefact(id), record.artefactDigest)
    ensures Installer(start, id)
  {
  }

  lemma RecoverKeeps(start: System, c: Content, files: Files, id: int, p: RecoverPoint)
    requires DiskOk(start, c, files) && OnlyArtefact(start, c) && OperationOk(start, c, files, id, Recover(p))
    ensures Keeps(start, c, files, id, RecoverStep(files, p))
  {
    hide OnlyArtefact;
    if p.CommitArtefact? && p.journal.artefactStaged in files {
      ArtefactPlaced(start, c, files, p.journal.artefactStaged.id, id);
      hide DiskOk;
    } else if p.CommitRecord? && p.journal.recordStaged in files {
      RecordPlaced(start, c, files, p.journal.artefactStaged.id, id);
      hide DiskOk;
    } else if p.RemoveJournal? && JournalFile in files {
      JournalRemoved(start, c, files, id);
      hide DiskOk;
    } else {
      NothingChanges(start, c, files, id);
      LookKeeps(start, c, files, id, p);
      hide DiskOk;
      hide OperationOk;
    }
    hide Onward;
    hide Written;
    hide Placed;
  }

  predicate LooksAtStaged(p: RecoverPoint) {
    p.SeekStagedArtefact? || p.DigestStagedArtefact? || p.SeekStagedRecord? || p.DigestStagedRecord?
  }

  lemma StagedLookKeeps(start: System, c: Content, files: Files, id: int, p: RecoverPoint)
    requires OperationOk(start, c, files, id, Recover(p)) && LooksAtStaged(p)
    ensures RecoverStep(files, p).files == files && OperationOk(start, c, files, id, RecoverStep(files, p).operation)
  {
    hide JournalOk;
    hide Guarded;
    hide Holding;
  }

  /** A look at a file changes none; finding the published record in place is finding it written. */
  lemma LookKeeps(start: System, c: Content, files: Files, id: int, p: RecoverPoint)
    requires DiskOk(start, c, files) && OperationOk(start, c, files, id, Recover(p))
    requires !(p.CommitArtefact? && p.journal.artefactStaged in files)
    requires !(p.CommitRecord? && p.journal.recordStaged in files) && !(p.RemoveJournal? && JournalFile in files)
    ensures RecoverStep(files, p).files == files && OperationOk(start, c, files, id, RecoverStep(files, p).operation)
  {
    if LooksAtStaged(p) {
      hide DiskOk;
      hide RecoverStep;
      hide OperationOk;
      StagedLookKeeps(start, c, files, id, p);
    } else if p.DigestFinalRecord? {
      hide DiskOk;
      if RecoverStep(files, p).operation.recover.RemoveJournal? {
        assert Publication(start, p.journal.artefactStaged.id, files[RecordFinal]);
        assert Written(start, files);
      }
    } else {
      if !p.ReadJournal? { hide DiskOk; }
      hide Written;
      hide JournalOk;
      hide Placed;
    }
  }

  lemma NothingChanges(start: System, c: Content, files: Files, id: int)
    ensures Onward(start, c, files, files, id)
  {
  }

  lemma OthersStayOk(start: System, c: Content, files: Files, after: Files, id: int, q: int, op: Operation)
    requires OperationOk(start, c, files, q, op) && Onward(start, c, files, after, id) && q != id
    ensures OperationOk(start, c, after, q, op)
  {
    hide Written;
    hide Guarded;
    hide Placed;
    hide JournalOk;
    hide Installer;
    assert SameAt(files, after, TemporaryRecord(q)) && SameAt(files, after, TemporaryJournal(q));
  }

  lemma OwnStepKeeps(start: System, c: Content, s: System, id: int)
    requires AllOk(start, c, s) && OnlyArtefact(start, c) && id in s.operations
    ensures Keeps(start, c, s.files, id, OperationStep(s.files, id, s.operations[id]))
  {
    hide DiskOk;
    hide OnlyArtefact;
    hide Onward;
    hide PublishStep;
    hide RecoverStep;
    assert OperationOk(start, c, s.files, id, s.operations[id]);
    match s.operations[id]
    case Publish(record, p) => PublishKeeps(start, c, s.files, id, record, p);
    case Recover(p) => RecoverKeeps(start, c, s.files, id, p);
    case Preflight(p) => NothingChanges(start, c, s.files, id);
    case _ =>
  }

  lemma OverlapStepKeeps(start: System, c: Content, s: System, id: int)
    requires AllOk(start, c, s) && OnlyArtefact(start, c)
    ensures AllOk(start, c, Step(s, id))
  {
    hide DiskOk;
    hide OnlyArtefact;
    hide Onward;
    hide OperationOk;
    if id in s.operations {
      OwnStepKeeps(start, c, s, id);
      hide OperationStep;
      var t := Step(s, id);
      forall q | q in t.operations ensures OperationOk(start, c, t.files, q, t.operations[q]) {
        if q != id { OthersStayOk(start, c, s.files, t.files, id, q, s.operations[q]); }
      }
    }
  }

  lemma {:induction false} OverlapRunKeeps(s: System, c: Content, schedule: seq<int>)
    requires Quiet(s) && Journaled(s) && OnlyArtefact(s, c)
    ensures AllOk(s, c, Run(s, schedule))
  {
    hide Step;
    hide OnlyArtefact;
    if schedule != [] {
      hide AllOk;
      OverlapRunKeeps(s, c, schedule[..|schedule| - 1]);
      OverlapStepKeeps(s, c, Run(s, schedule[..|schedule| - 1]), schedule[|schedule| - 1]);
    }
  }

  lemma OpenGateIsWhole(start: System, c: Content, files: Files)
    requires DiskOk(start, c, files) && OnlyArtefact(start, c) && JournalFile !in files
    ensures Whole(start, Crash.Finals(files))
  {
    if SameAt(start.files, files, ArtefactFinal) && SameAt(start.files, files, RecordFinal) {
      assert Crash.Finals(files) == Crash.Finals(start.files);
    } else {
      var i :| Publication(start, i, files[RecordFinal]);
      assert Crash.Finals(files) == Crash.PairOf(start.operations[i].record);
    }
  }

  // ----- two artefacts: the run that tears the pair -----

  /** The first publication stops before its removal of the journal, the second between its renames. */
  lemma Overtaken(s: System, i: int, j: int)
    requires Quiet(s) && Differ(s, i, j)
    ensures exists t :: Reaches(s, t) && JournalFile !in t.files && Crash.Finals(t.files)
              == Crash.Pair(Some(s.files[StagedArtefact(j)]), Some(RecordText(s.operations[i].record)))
  {
    var ri, rj := s.operations[i].record, s.operations[j].record;
    assert Starting(s.operations[i]) && Starting(s.operations[j]);
    ReachesItself(s);
    var t := After(s, i, 9);
    FreshPublication(s, s, i);
    Crash.PublishCommits(s.files, i, ri, 9);
    ReachesAfter(s, s, i, 9);
    StaysReady(s, s, j, i, 9);
    FreshPublication(s, t, j);
    assert SameAt(s.files, t.files, StagedArtefact(j));
    var u := After(t, j, 8);
    Crash.PublishCommits(t.files, j, rj, 8);
    ReachesAfter(s, t, j, 8);
    hide Turns;
    assert u.operations[i] == Publish(ri, DropJournal) && JournalFile in u.files;
    Dropped(u, i, ri);
    ReachesAfter(s, u, i, 1);
    hide After;
    hide Reaches;
    assert Crash.Finals(After(u, i, 1).files) == Crash.Finals(u.files);
  }

  lemma Dropped(u: System, i: int, record: CapabilityRecord)
    requires i in u.operations && u.operations[i] == Publish(record, DropJournal) && JournalFile in u.files
    ensures After(u, i, 1).files == u.files - {JournalFile}
    ensures Crash.Finals(After(u, i, 1).files) == Crash.Finals(u.files)
  {
    assert Turns(u.files, i, u.operations[i], 0) == Progress(u.files, u.operations[i]);
  }

  /** That pair is no publication's; it can only be the first one, by chance. */
  lemma MixedPair(s: System, i: int, j: int)
    requires Differ(s, i, j)
    ensures var pair := Crash.Pair(Some(s.files[StagedArtefact(j)]), Some(RecordText(s.operations[i].record)));
            Whole(s, pair) ==> pair == Crash.Finals(s.files)
  {
  }

  lemma TornRun(s: System, i: int, j: int)
    requires Quiet(s) && Differ(s, i, j)
    requires Crash.Look(s.files, ArtefactFinal) != Some(s.files[StagedArtefact(j)])
    ensures exists schedule :: TornBehindOpenGate(s, Run(s, schedule).files)
  {
    Overtaken(s, i, j);
    MixedPair(s, i, j);
    var t :| Reaches(s, t) && JournalFile !in t.files && Crash.Finals(t.files)
              == Crash.Pair(Some(s.files[StagedArtefact(j)]), Some(RecordText(s.operations[i].record)));
    hide Whole;
    hide Differ;
    var schedule :| Run(s, schedule) == t;
    hide Run;
    assert TornBehindOpenGate(s, Run(s, schedule).files);
  }

  /**
    Exactly when overlapping publications can tear the pair: over every interleaving of publications,
    recoveries and pre-flights, some run shows a torn pair behind an open gate iff two publications
    that would succeed alone stage different artefacts. One publication and any number of recoveries
    never do.
   */
  lemma OverlapTearsExactly(s: System)
    requires Quiet(s) && Journaled(s)
    ensures (exists schedule :: TornBehindOpenGate(s, Run(s, schedule).files)) <==> (exists i, j :: Differ(s, i, j))
  {
    hide Run;
    hide Quiet;
    hide TornBehindOpenGate;
    if i, j :| Differ(s, i, j) {
      if Crash.Look(s.files, ArtefactFinal) != Some(s.files[StagedArtefact(j)]) {
        TornRun(s, i, j);
      } else {
        assert Differ(s, j, i);
        TornRun(s, j, i);
      }
    } else {
      forall schedule ensures !TornBehindOpenGate(s, Run(s, schedule).files) {
        NeverTorn(s, schedule);
      }
    }
  }

  lemma NeverTorn(s: System, schedule: seq<int>)
    requires Quiet(s) && Journaled(s) && !exists i, j :: Differ(s, i, j)
    ensures !TornBehindOpenGate(s, Run(s, schedule).files)
  {
    var c := if i :| Installer(s, i) then s.files[StagedArtefact(i)] else OtherBytes("");
    assert OnlyArtefact(s, c) by {
      forall i, k | Installer(s, i) && Installer(s, k) ensures s.files[StagedArtefact(i)] == s.files[StagedArtefact(k)] {
        assert !Differ(s, i, k);
      }
    }
    OverlapRunKeeps(s, c, schedule);
    hide Run;
    if JournalFile !in Run(s, schedule).files {
      OpenGateIsWhole(s, c, Run(s, schedule).files);
    }
  }
}
