/**
  The operations on a bundle when nobody else touches its files: what each of them reads, writes and
  reports, and exactly when it throws instead.
 */
module AuthBundleAlone {
  import opened Wrappers
  import opened CookieApplicability
  import opened AuthCapability
  import opened AuthBundle
  import opened AuthBundleReturn
  import Crash = AuthBundleCrash

  // ----- steps in a row -----

  lemma MoreTurns(files: Files, id: int, op: Operation, n: nat, before: Progress)
    requires Turns(files, id, op, n) == before
    ensures Turns(files, id, op, n + 1) == OperationStep(before.files, id, before.operation)
  {
    hide OperationStep;
  }

  lemma {:induction false} Stays(files: Files, id: int, op: Operation, n: nat, m: nat, end: Progress)
    requires n <= m && Turns(files, id, op, n) == end && OperationStep(end.files, id, end.operation) == end
    ensures Turns(files, id, op, m) == end
  {
    hide OperationStep;
    if n < m {
      Stays(files, id, op, n, m - 1, end);
      MoreTurns(files, id, op, m - 1, end);
    }
  }

  // ----- adoption -----

  /** The earliest positive expiry among all cookie rows, whatever host they are for. */
  ghost predicate EarliestOf(rows: seq<Row>, earliest: Option<real>) {
    && (earliest.None? <==> forall row :: row in rows ==> !Timed(row))
    && (earliest.Some? ==>
          && (exists row :: row in rows && Timed(row) && row.expires == earliest)
          && forall row :: row in rows && Timed(row) ==> earliest.value <= row.expires.value)
  }

  lemma LeastIsEarliest(rows: seq<Row>)
    ensures EarliestOf(rows, Least(Expiries(rows)))
  {
    ExpiriesMembers(rows);
    LeastIsMinimum(Expiries(rows));
    hide Expiries;
    hide Least;
    forall row | row in rows && Timed(row) ensures row.expires.value in Expiries(rows) {
    }
    if Expiries(rows) != [] {
      var e := Expiries(rows)[0];
      assert e in Expiries(rows);
    }
  }

  predicate CanBeAdopted(files: Files, a: int, replaceExisting: bool) {
    && (replaceExisting || RecordFinal !in files)
    && ArtefactFinal in files && files[ArtefactFinal].StorageState?
    && TemporaryRecord(a) !in files
  }

  /**
    An adoption alone: it throws and leaves every file as it was iff there is a record that it may not
    replace, or no storage state to adopt; otherwise it puts in place the declared record with the
    digest of the artefact and the earliest expiry among all its rows, and touches nothing else.
   */
  lemma AdoptsExactly(files: Files, a: int, template: CapabilityRecord, replaceExisting: bool)
    ensures var p := Turns(files, a, Adopt(template, replaceExisting, SeekOldRecord), 7);
            if CanBeAdopted(files, a, replaceExisting) then
              && p.operation == Adopt(template, replaceExisting, Adopted)
              && exists earliest ::
                   EarliestOf(files[ArtefactFinal].cookies, earliest)
                   && p.files == files[RecordFinal := RecordText(template.(earliestCookieExpiry := earliest, artefactDigest := Sha256(files[ArtefactFinal])))]
            else p == Progress(files, Adopt(template, replaceExisting, AdoptThrew))
  {
    hide Turns;
    var op, threw := Adopt(template, replaceExisting, SeekOldRecord), Adopt(template, replaceExisting, AdoptThrew);
    AdoptSeeksAlone(files, a, template, replaceExisting);
    if RecordFinal in files && !replaceExisting {
      Stays(files, a, op, 1, 7, Progress(files, threw));
    } else if !(ArtefactFinal in files && files[ArtefactFinal].StorageState?) {
      MoreTurns(files, a, op, 1, Progress(files, Adopt(template, replaceExisting, ValidateCurrent)));
      Stays(files, a, op, 2, 7, Progress(files, threw));
    } else {
      var earliest := Least(Expiries(files[ArtefactFinal].cookies));
      LeastIsEarliest(files[ArtefactFinal].cookies);
      hide EarliestOf;
      MoreTurns(files, a, op, 1, Progress(files, Adopt(template, replaceExisting, ValidateCurrent)));
      MoreTurns(files, a, op, 2, Progress(files, Adopt(template, replaceExisting, ReadExpiries)));
      MoreTurns(files, a, op, 3, Progress(files, Adopt(template, replaceExisting, DigestArtefact(earliest))));
      AdoptTail(files, a, template, replaceExisting, earliest);
    }
  }

  lemma AdoptSeeksAlone(files: Files, a: int, template: CapabilityRecord, replaceExisting: bool)
    ensures Turns(files, a, Adopt(template, replaceExisting, SeekOldRecord), 1)
            == Progress(files, if RecordFinal in files && !replaceExisting then Adopt(template, replaceExisting, AdoptThrew)
                               else Adopt(template, replaceExisting, ValidateCurrent))
  {
    assert Turns(files, a, Adopt(template, replaceExisting, SeekOldRecord), 0).files == files;
  }

  /** From the digest on: create, write and rename. */
  lemma AdoptTail(files: Files, a: int, template: CapabilityRecord, replaceExisting: bool, earliest: Option<real>)
    requires ArtefactFinal in files
    requires var op := Adopt(template, replaceExisting, SeekOldRecord);
             var record := AdoptedRecord(template, earliest, files[ArtefactFinal]);
             Turns(files, a, op, 4) == Progress(files, Adopt(template, replaceExisting, CreateAdopted(record)))
    ensures var record := AdoptedRecord(template, earliest, files[ArtefactFinal]);
            var p := Turns(files, a, Adopt(template, replaceExisting, SeekOldRecord), 7);
            if TemporaryRecord(a) in files then p == Progress(files, Adopt(template, replaceExisting, AdoptThrew))
            else p == Progress(files[RecordFinal := RecordText(record)], Adopt(template, replaceExisting, Adopted))
  {
    hide Turns;
    var op := Adopt(template, replaceExisting, SeekOldRecord);
    var record := AdoptedRecord(template, earliest, files[ArtefactFinal]);
    MoreTurns(files, a, op, 4, Progress(files, Adopt(template, replaceExisting, CreateAdopted(record))));
    if TemporaryRecord(a) in files {
      Stays(files, a, op, 5, 7, Progress(files, Adopt(template, replaceExisting, AdoptThrew)));
    } else {
      var created := files[TemporaryRecord(a) := OtherBytes("")];
      var written := created[TemporaryRecord(a) := RecordText(record)];
      MoreTurns(files, a, op, 5, Progress(created, Adopt(template, replaceExisting, WriteAdopted(record))));
      MoreTurns(files, a, op, 6, Progress(written, Adopt(template, replaceExisting, RenameAdopted(record))));
      assert Renamed(written, TemporaryRecord(a), RecordFinal) == files[RecordFinal := RecordText(record)];
    }
  }

  // ----- replacement -----

  /** An artefact-only replacement alone: the staged storage state takes the artefact's place, or it throws and changes nothing. */
  lemma ReplacesExactly(files: Files, i: int)
    ensures var p := Turns(files, i, Replace(ValidatePending), 2);
            if StagedArtefact(i) in files && files[StagedArtefact(i)].StorageState?
            then p == Progress((files - {StagedArtefact(i)})[ArtefactFinal := files[StagedArtefact(i)]], Replace(Replaced))
            else p == Progress(files, Replace(ReplaceThrew))
  {
    hide Turns;
    StartsAlone(files, i, Replace(ValidatePending));
    MoreTurns(files, i, Replace(ValidatePending), 0, Progress(files, Replace(ValidatePending)));
    if StagedArtefact(i) in files && files[StagedArtefact(i)].StorageState? {
      MoreTurns(files, i, Replace(ValidatePending), 1, Progress(files, Replace(RenamePending)));
    } else {
      Stays(files, i, Replace(ValidatePending), 1, 2, Progress(files, Replace(ReplaceThrew)));
    }
  }

  lemma StartsAlone(files: Files, id: int, op: Operation)
    ensures Turns(files, id, op, 0) == Progress(files, op)
  {
  }

  // ----- what makes a call throw -----

  /** The file that must be there for the next call of a publication, and the one that must not. */
  function NeedsFile(id: int, p: PublishPoint): Option<Path> {
    match p
    case DigestStaged => Some(StagedArtefact(id))
    case StageRecord => Some(TemporaryRecord(id))
    case StageJournal => Some(TemporaryJournal(id))
    case RenameArtefact => Some(StagedArtefact(id))
    case RenameRecord => Some(StagedRecord(id))
    case DropJournal => Some(JournalFile)
    case _ => None
  }

  function NeedsFree(id: int, p: PublishPoint): Option<Path> {
    if p.CreateRecord? then Some(TemporaryRecord(id)) else if p.CreateJournal? then Some(TemporaryJournal(id)) else None
  }

  predicate CallFails(files: Files, id: int, record: CapabilityRecord, p: PublishPoint) {
    || (NeedsFile(id, p).Some? && NeedsFile(id, p).value !in files)
    || (NeedsFree(id, p).Some? && NeedsFree(id, p).value in files)
    || (p.DigestStaged? && StagedArtefact(id) in files && Sha256(files[StagedArtefact(id)]) != record.artefactDigest)
  }

  /** A publication throws at a call iff that call fails, and then it changes no file. */
  lemma PublishThrowsExactly(files: Files, id: int, record: CapabilityRecord, p: PublishPoint)
    requires !p.Published? && !p.PublishThrew?
    ensures var next := OperationStep(files, id, Publish(record, p));
            && next.operation.Publish? && next.operation.record == record
            && (next.operation.publish.PublishThrew? <==> CallFails(files, id, record, p))
            && (next.operation.publish.PublishThrew? ==> next.files == files)
            && (next.operation.publish.Published? <==> p.DropJournal? && JournalFile in files)
  {
  }

  /** The file that must still be there for the next call of a recovery. */
  function RecoverNeeds(p: RecoverPoint): Option<Path> {
    match p
    case ReadJournal => Some(JournalFile)
    case DigestStagedArtefact(j) => Some(j.artefactStaged)
    case DigestStagedRecord(j, _) => Some(j.recordStaged)
    case CommitArtefact(j) => Some(j.artefactStaged)
    case CommitRecord(j) => Some(j.recordStaged)
    case DigestFinalArtefact(j) => Some(j.artefactFinal)
    case DigestFinalRecord(j, _) => Some(j.recordFinal)
    case RemoveJournal => Some(JournalFile)
    case _ => None
  }

  /**
    How a call of a recovery ends it: with nothing to do iff there is no journal to begin with; thrown
    iff a file it counted on is gone; refused iff the journal is no journal or the last look at the
    finals finds other bytes; completed iff it removes the journal. Only commits and that removal change
    a file.
   */
  lemma RecoverEndsExactly(files: Files, id: int, p: RecoverPoint)
    requires !p.Recovered?
    ensures var next := OperationStep(files, id, Recover(p));
            var end := next.operation.recover;
            && next.operation.Recover?
            && (end == Recovered(NothingPending) <==> p.SeekJournal? && JournalFile !in files)
            && (end == Recovered(RecoveryThrew) <==> RecoverNeeds(p).Some? && RecoverNeeds(p).value !in files)
            && (end == Recovered(Completed) <==> p.RemoveJournal? && JournalFile in files)
            && (end == Recovered(RecoveryRefused) <==>
                  || (p.ReadJournal? && JournalFile in files && !files[JournalFile].JournalText?)
                  || (p.SeekFinalRecord? && p.journal.recordFinal !in files)
                  || (p.DigestFinalRecord? && p.journal.recordFinal in files
                      && !(p.artefactMatches && Sha256(files[p.journal.recordFinal]) == p.journal.recordDigest)))
            && (!p.CommitArtefact? && !p.CommitRecord? && !p.RemoveJournal? ==> next.files == files)
  {
  }

  // ----- recovery -----

  /** Four files of its own, none of them the journal. */
  predicate FourFiles(j: BundleJournal) {
    && JournalFile !in {j.artefactStaged, j.recordStaged, j.artefactFinal, j.recordFinal}
    && j.artefactStaged !in {j.recordStaged, j.artefactFinal, j.recordFinal}
    && j.recordStaged !in {j.artefactFinal, j.recordFinal} && j.artefactFinal != j.recordFinal
  }

  predicate StagedMatch(files: Files, j: BundleJournal) {
    Holding(files, j.artefactStaged, j.artefactDigest) && Holding(files, j.recordStaged, j.recordDigest)
  }

  predicate FinalsMatch(files: Files, j: BundleJournal) {
    Holding(files, j.artefactFinal, j.artefactDigest) && Holding(files, j.recordFinal, j.recordDigest)
  }

  /** The staged files in place of the finals, and no journal. */
  function Committed(files: Files, j: BundleJournal): Files
    requires j.artefactStaged in files && j.recordStaged in files
  {
    (files - {j.artefactStaged, j.recordStaged, JournalFile})[j.artefactFinal := files[j.artefactStaged]][j.recordFinal := files[j.recordStaged]]
  }

  /** What an undisturbed recovery comes to, on any files whatever. */
  function RecoveryEnd(files: Files): (Files, RecoveryOutcome) {
    if JournalFile !in files then (files, NothingPending)
    else if !files[JournalFile].JournalText? then (files, RecoveryRefused)
    else
      var j := files[JournalFile].journal;
      if StagedMatch(files, j) then (Committed(files, j), Completed)
      else if FinalsMatch(files, j) then (files - {JournalFile}, Completed)
      else (files, RecoveryRefused)
  }

  lemma StagedLooks(files: Files, id: int, j: BundleJournal)
    requires JournalFile in files && files[JournalFile] == JournalText(j)
    ensures var next := if StagedMatch(files, j) then CommitArtefact(j) else SeekFinalArtefact(j);
            exists n: nat :: 4 <= n <= 6 && Turns(files, id, Recover(SeekJournal), n) == Progress(files, Recover(next))
  {
    hide Turns;
    var op := Recover(SeekJournal);
    var a, r := Holding(files, j.artefactStaged, j.artefactDigest), Holding(files, j.recordStaged, j.recordDigest);
    StartsAlone(files, id, op);
    MoreTurns(files, id, op, 0, Progress(files, op));
    MoreTurns(files, id, op, 1, Progress(files, Recover(ReadJournal)));
    MoreTurns(files, id, op, 2, Progress(files, Recover(SeekStagedArtefact(j))));
    var n: nat := 3;
    if j.artefactStaged in files {
      MoreTurns(files, id, op, 3, Progress(files, Recover(DigestStagedArtefact(j))));
      n := 4;
    }
    MoreTurns(files, id, op, n, Progress(files, Recover(SeekStagedRecord(j, a))));
    n := n + 1;
    if j.recordStaged in files {
      MoreTurns(files, id, op, n, Progress(files, Recover(DigestStagedRecord(j, a))));
      n := n + 1;
    }
    assert 4 <= n <= 6;
  }

  lemma Commits(files: Files, id: int, j: BundleJournal, n: nat)
    requires n <= 6 && JournalFile in files && FourFiles(j) && StagedMatch(files, j)
    requires Turns(files, id, Recover(SeekJournal), n) == Progress(files, Recover(CommitArtefact(j)))
    ensures Turns(files, id, Recover(SeekJournal), 11) == Progress(Committed(files, j), Recover(Recovered(Completed)))
  {
    hide Turns;
    var op := Recover(SeekJournal);
    MoreTurns(files, id, op, n, Progress(files, Recover(CommitArtefact(j))));
    var one := Renamed(files, j.artefactStaged, j.artefactFinal);
    MoreTurns(files, id, op, n + 1, Progress(one, Recover(CommitRecord(j))));
    var two := Renamed(one, j.recordStaged, j.recordFinal);
    MoreTurns(files, id, op, n + 2, Progress(two, Recover(RemoveJournal)));
    assert two - {JournalFile} == Committed(files, j);
    Stays(files, id, op, n + 3, 11, Progress(Committed(files, j), Recover(Recovered(Completed))));
  }

  lemma FinalLooks(files: Files, id: int, j: BundleJournal, n: nat)
    requires n <= 6 && JournalFile in files
    requires Turns(files, id, Recover(SeekJournal), n) == Progress(files, Recover(SeekFinalArtefact(j)))
    ensures Turns(files, id, Recover(SeekJournal), 11) ==
            if FinalsMatch(files, j) then Progress(files - {JournalFile}, Recover(Recovered(Completed)))
            else Progress(files, Recover(Recovered(RecoveryRefused)))
  {
    hide Turns;
    var op, a := Recover(SeekJournal), Holding(files, j.artefactFinal, j.artefactDigest);
    MoreTurns(files, id, op, n, Progress(files, Recover(SeekFinalArtefact(j))));
    if j.artefactFinal in files {
      MoreTurns(files, id, op, n + 1, Progress(files, Recover(DigestFinalArtefact(j))));
      FinalRecordLooks(files, id, j, n + 2, a);
    } else {
      FinalRecordLooks(files, id, j, n + 1, a);
    }
  }

  lemma FinalRecordLooks(files: Files, id: int, j: BundleJournal, n: nat, artefact: bool)
    requires n <= 8 && JournalFile in files
    requires Turns(files, id, Recover(SeekJournal), n) == Progress(files, Recover(SeekFinalRecord(j, artefact)))
    ensures Turns(files, id, Recover(SeekJournal), 11) ==
            if artefact && Holding(files, j.recordFinal, j.recordDigest) then Progress(files - {JournalFile}, Recover(Recovered(Completed)))
            else Progress(files, Recover(Recovered(RecoveryRefused)))
  {
    hide Turns;
    var op, m := Recover(SeekJournal), n + 1;
    MoreTurns(files, id, op, n, Progress(files, Recover(SeekFinalRecord(j, artefact))));
    if j.recordFinal in files {
      MoreTurns(files, id, op, m, Progress(files, Recover(DigestFinalRecord(j, artefact))));
      m := m + 1;
    }
    if artefact && Holding(files, j.recordFinal, j.recordDigest) {
      MoreTurns(files, id, op, m, Progress(files, Recover(RemoveJournal)));
      Stays(files, id, op, m + 1, 11, Progress(files - {JournalFile}, Recover(Recovered(Completed))));
    } else {
      Stays(files, id, op, m, 11, Progress(files, Recover(Recovered(RecoveryRefused))));
    }
  }

  /**
    A recovery that nobody disturbs, on any files: nothing without a journal; otherwise the commit iff
    both staged files have the journal's digests; otherwise the removal of the journal iff both finals
    do; and in every other case a refusal that changes nothing.
   */
  lemma RecoversExactly(files: Files, id: int)
    requires JournalFile in files && files[JournalFile].JournalText? ==> FourFiles(files[JournalFile].journal)
    ensures Turns(files, id, Recover(SeekJournal), 11) == Progress(RecoveryEnd(files).0, Recover(Recovered(RecoveryEnd(files).1)))
  {
    hide Turns;
    var op := Recover(SeekJournal);
    StartsAlone(files, id, op);
    MoreTurns(files, id, op, 0, Progress(files, op));
    if JournalFile !in files {
      Stays(files, id, op, 1, 11, Progress(files, Recover(Recovered(NothingPending))));
    } else {
      MoreTurns(files, id, op, 1, Progress(files, Recover(ReadJournal)));
      if !files[JournalFile].JournalText? {
        Stays(files, id, op, 2, 11, Progress(files, Recover(Recovered(RecoveryRefused))));
      } else {
        JournalledEnd(files, id, files[JournalFile].journal);
      }
    }
  }

  lemma JournalledEnd(files: Files, id: int, j: BundleJournal)
    requires JournalFile in files && files[JournalFile] == JournalText(j) && FourFiles(j)
    ensures Turns(files, id, Recover(SeekJournal), 11) == Progress(RecoveryEnd(files).0, Recover(Recovered(RecoveryEnd(files).1)))
  {
    hide Turns;
    hide FourFiles;
    StagedLooks(files, id, j);
    var next := if StagedMatch(files, j) then CommitArtefact(j) else SeekFinalArtefact(j);
    var n: nat :| 4 <= n <= 6 && Turns(files, id, Recover(SeekJournal), n) == Progress(files, Recover(next));
    if StagedMatch(files, j) { Commits(files, id, j, n); } else { FinalLooks(files, id, j, n); }
    hide StagedMatch;
    hide FinalsMatch;
  }

  // ----- publication -----

  predicate CanBePublished(files: Files, id: int, record: CapabilityRecord) {
    Holding(files, StagedArtefact(id), record.artefactDigest) && TemporaryRecord(id) !in files && TemporaryJournal(id) !in files
  }

  /** The files after a publication: the staged artefact and the record are the finals, and what was staged is gone. */
  function PublishedFiles(files: Files, id: int, record: CapabilityRecord): Files
    requires StagedArtefact(id) in files
  {
    (files - {StagedArtefact(id), StagedRecord(id), JournalFile})[ArtefactFinal := files[StagedArtefact(id)]][RecordFinal := RecordText(record)]
  }

  /**
    A publication that nobody disturbs ends with exactly the staged artefact and its record as the
    finals, whatever was there before, and leaves nothing else behind.
   */
  lemma PublishesExactly(files: Files, id: int, record: CapabilityRecord)
    requires CanBePublished(files, id, record)
    ensures Turns(files, id, Publish(record, DigestStaged), 10) == Progress(PublishedFiles(files, id, record), Publish(record, Published))
  {
    hide Turns;
    var op := Publish(record, DigestStaged);
    StartsAlone(files, id, op);
    MoreTurns(files, id, op, 0, Progress(files, op));
    MoreTurns(files, id, op, 1, Progress(files, Publish(record, CreateRecord)));
    var f2 := files[TemporaryRecord(id) := OtherBytes("")];
    MoreTurns(files, id, op, 2, Progress(f2, Publish(record, WriteRecord)));
    var f3 := f2[TemporaryRecord(id) := RecordText(record)];
    MoreTurns(files, id, op, 3, Progress(f3, Publish(record, StageRecord)));
    var f4 := Renamed(f3, TemporaryRecord(id), StagedRecord(id));
    assert f4 == files[StagedRecord(id) := RecordText(record)];
    MoreTurns(files, id, op, 4, Progress(f4, Publish(record, CreateJournal)));
    PublishesJournal(files, id, record);
  }

  lemma PublishesJournal(files: Files, id: int, record: CapabilityRecord)
    requires StagedArtefact(id) in files && TemporaryJournal(id) !in files
    requires var staged := files[StagedRecord(id) := RecordText(record)];
             Turns(files, id, Publish(record, DigestStaged), 5) ==
             Progress(staged[TemporaryJournal(id) := OtherBytes("")], Publish(record, WriteJournal))
    ensures Turns(files, id, Publish(record, DigestStaged), 10) == Progress(PublishedFiles(files, id, record), Publish(record, Published))
  {
    hide Turns;
    hide JournalFor;
    hide PublishedFiles;
    var op, staged := Publish(record, DigestStaged), files[StagedRecord(id) := RecordText(record)];
    var journal := JournalText(JournalFor(id, record));
    MoreTurns(files, id, op, 5, Progress(staged[TemporaryJournal(id) := OtherBytes("")], Publish(record, WriteJournal)));
    var f6 := staged[TemporaryJournal(id) := journal];
    assert staged[TemporaryJournal(id) := OtherBytes("")][TemporaryJournal(id) := journal] == f6;
    MoreTurns(files, id, op, 6, Progress(f6, Publish(record, StageJournal)));
    assert Renamed(f6, TemporaryJournal(id), JournalFile) == staged[JournalFile := journal];
    PublishesPair(files, id, record, journal);
  }

  lemma PublishesPair(files: Files, id: int, record: CapabilityRecord, journal: Content)
    requires StagedArtefact(id) in files
    requires Turns(files, id, Publish(record, DigestStaged), 7) ==
             Progress(files[StagedRecord(id) := RecordText(record)][JournalFile := journal], Publish(record, RenameArtefact))
    ensures Turns(files, id, Publish(record, DigestStaged), 10) == Progress(PublishedFiles(files, id, record), Publish(record, Published))
  {
    hide Turns;
    var op, f7 := Publish(record, DigestStaged), files[StagedRecord(id) := RecordText(record)][JournalFile := journal];
    MoreTurns(files, id, op, 7, Progress(f7, Publish(record, RenameArtefact)));
    var f8 := Renamed(f7, StagedArtefact(id), ArtefactFinal);
    MoreTurns(files, id, op, 8, Progress(f8, Publish(record, RenameRecord)));
    var f9 := Renamed(f8, StagedRecord(id), RecordFinal);
    MoreTurns(files, id, op, 9, Progress(f9, Publish(record, DropJournal)));
    PairInPlace(files, id, record, journal);
  }

  lemma PairInPlace(files: Files, id: int, record: CapabilityRecord, journal: Content)
    requires StagedArtefact(id) in files
    ensures var f7 := files[StagedRecord(id) := RecordText(record)][JournalFile := journal];
            var f8 := Renamed(f7, StagedArtefact(id), ArtefactFinal);
            Renamed(f8, StagedRecord(id), RecordFinal) - {JournalFile} == PublishedFiles(files, id, record)
  {
  }

  // ----- the pre-flight on a quiet disk -----

  /** Everything a pre-flight reads of two files. */
  function ReadingsOf(pair: Crash.Pair): Readings {
    if pair.artefact.None? then Readings(false, None, None, None)
    else if pair.record.None? then Readings(true, None, None, None)
    else if ParseAuthCapabilityRecord(pair.record.value).None? || !pair.artefact.value.StorageState? then
      Readings(true, pair.record, None, None)
    else Readings(true, pair.record, pair.artefact, Some(Sha256(pair.artefact.value)))
  }

  /** On a disk nobody else touches, the gated pre-flight is refused iff the journal is there, and otherwise reads all there is to read. */
  lemma ReadsExactly(files: Files, op: int)
    ensures var p := Turns(files, op, Preflight(Gate), 7);
            && p.files == files
            && p.operation == Preflight(if JournalFile in files then TransactionPending else Judged(ReadingsOf(Crash.Finals(files))))
  {
    hide Turns;
    hide ParseAuthCapabilityRecord;
    var gate := Preflight(Gate);
    StartsAlone(files, op, gate);
    MoreTurns(files, op, gate, 0, Progress(files, gate));
    if JournalFile in files {
      Stays(files, op, gate, 1, 7, Progress(files, Preflight(TransactionPending)));
    } else {
      MoreTurns(files, op, gate, 1, Progress(files, Preflight(SeekArtefact)));
      if ArtefactFinal !in files {
        Stays(files, op, gate, 2, 7, Progress(files, Preflight(Judged(Readings(false, None, None, None)))));
      } else {
        MoreTurns(files, op, gate, 2, Progress(files, Preflight(SeekRecord)));
        if RecordFinal !in files {
          Stays(files, op, gate, 3, 7, Progress(files, Preflight(Judged(Readings(true, None, None, None)))));
        } else {
          RecordReadOn(files, op);
        }
      }
    }
  }

  lemma RecordReadOn(files: Files, op: int)
    requires ArtefactFinal in files && RecordFinal in files
    requires Turns(files, op, Preflight(Gate), 3) == Progress(files, Preflight(ReadRecord))
    ensures Turns(files, op, Preflight(Gate), 7) == Progress(files, Preflight(Judged(ReadingsOf(Crash.Finals(files)))))
  {
    hide Turns;
    hide ParseAuthCapabilityRecord;
    var gate, record := Preflight(Gate), files[RecordFinal];
    var cut := Progress(files, Preflight(Judged(Readings(true, Some(record), None, None))));
    MoreTurns(files, op, gate, 3, Progress(files, Preflight(ReadRecord)));
    if ParseAuthCapabilityRecord(record).None? {
      Stays(files, op, gate, 4, 7, cut);
    } else {
      MoreTurns(files, op, gate, 4, Progress(files, Preflight(ValidateArtefact(record))));
      if !files[ArtefactFinal].StorageState? {
        Stays(files, op, gate, 5, 7, cut);
      } else {
        MoreTurns(files, op, gate, 5, Progress(files, Preflight(ReadCookies(record))));
        MoreTurns(files, op, gate, 6, Progress(files, Preflight(DigestCurrent(record, files[ArtefactFinal]))));
      }
    }
  }
}
