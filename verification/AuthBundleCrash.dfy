/**
  Publications and recoveries one after the other, each of them crashing after any system call or
  running to its end.
 */
module AuthBundleCrash {
  import opened Wrappers
  import opened AuthCapability
  import opened AuthBundle

  /** One operation that gets `steps` system calls and then never runs again. */
  datatype Turn = Turn(id: int, operation: Operation, steps: nat)

  function Serial(start: Files, turns: seq<Turn>): Files {
    if turns == [] then start
    else
      var turn := turns[|turns| - 1];
      Turns(Serial(start, turns[..|turns| - 1]), turn.id, turn.operation, turn.steps).files
  }

  predicate PublishOrRecover(turn: Turn) {
    Starting(turn.operation) && (turn.operation.Publish? || turn.operation.Recover?)
  }

  /** The two finals as a reader finds them. */
  datatype Pair = Pair(artefact: Option<Content>, record: Option<Content>)

  function Look(files: Files, path: Path): Option<Content> {
    if path in files then Some(files[path]) else None
  }

  function Finals(files: Files): Pair {
    Pair(Look(files, ArtefactFinal), Look(files, RecordFinal))
  }

  /** The pair a publication means to install. */
  function PairOf(record: CapabilityRecord): Pair {
    Pair(Some(record.artefactDigest.of), Some(RecordText(record)))
  }

  /** Nothing is pending on disk, and the names an operation draws are its own. */
  ghost predicate Clean(start: Files) {
    && JournalFile !in start
    && forall i :: StagedRecord(i) !in start && TemporaryRecord(i) !in start && TemporaryJournal(i) !in start
  }

  predicate DistinctIds(turns: seq<Turn>) {
    forall a, b :: 0 <= a < b < |turns| ==> turns[a].id != turns[b].id
  }

  predicate SerialTurns(turns: seq<Turn>) {
    DistinctIds(turns) && forall a :: 0 <= a < |turns| ==> PublishOrRecover(turns[a])
  }

  /** A whole pair: the one from before the first turn, or the one of a publication among the turns. */
  predicate WholePair(start: Files, turns: seq<Turn>, pair: Pair) {
    || pair == Finals(start)
    || exists a :: 0 <= a < |turns| && turns[a].operation.Publish? && pair == PairOf(turns[a].operation.record)
  }

  // ----- how far a pending transaction has got -----

  /** Both staged files are still there. */
  predicate BeforeCommit(files: Files, id: int, record: CapabilityRecord) {
    && Holding(files, StagedArtefact(id), record.artefactDigest)
    && StagedRecord(id) in files && files[StagedRecord(id)] == RecordText(record)
  }

  /** Between the two renames. */
  predicate Torn(files: Files, id: int, record: CapabilityRecord) {
    && StagedArtefact(id) !in files && Holding(files, ArtefactFinal, record.artefactDigest)
    && StagedRecord(id) in files && files[StagedRecord(id)] == RecordText(record)
  }

  /** Only the journal is left to remove. */
  predicate Committed(files: Files, id: int, record: CapabilityRecord) {
    StagedArtefact(id) !in files && StagedRecord(id) !in files && Finals(files) == PairOf(record)
  }

  predicate Pending(files: Files, id: int, record: CapabilityRecord) {
    && JournalFile in files && files[JournalFile] == JournalText(JournalFor(id, record))
    && (BeforeCommit(files, id, record) || Torn(files, id, record) || Committed(files, id, record))
  }

  ghost predicate Fresh(files: Files, id: int) {
    StagedRecord(id) !in files && TemporaryRecord(id) !in files && TemporaryJournal(id) !in files
  }

  predicate SameAt(files: Files, after: Files, path: Path) {
    Look(files, path) == Look(after, path)
  }

  /** Preparing touches nothing but names the publication has drawn. */
  ghost predicate OnlyOwnNames(files: Files, after: Files, id: int) {
    forall path ::
      path != StagedRecord(id) && path != TemporaryRecord(id) && path != TemporaryJournal(id) ==> SameAt(files, after, path)
  }

  ghost predicate OthersStayFresh(files: Files, after: Files, id: int) {
    forall i :: i != id && Fresh(files, i) ==> Fresh(after, i)
  }

  // ----- the commit, one rename at a time -----

  lemma JournalPlaced(files: Files, id: int, record: CapabilityRecord)
    requires BeforeCommit(files, id, record) && Look(files, TemporaryJournal(id)) == Some(JournalText(JournalFor(id, record)))
    ensures var after := Renamed(files, TemporaryJournal(id), JournalFile);
            && Pending(after, id, record) && BeforeCommit(after, id, record) && Finals(after) == Finals(files)
            && OthersStayFresh(files, after, id)
  {
  }

  lemma ArtefactCommitted(files: Files, id: int, record: CapabilityRecord)
    requires Pending(files, id, record) && BeforeCommit(files, id, record)
    ensures var after := Renamed(files, StagedArtefact(id), ArtefactFinal);
            && Pending(after, id, record) && Torn(after, id, record)
            && Finals(after) == Pair(PairOf(record).artefact, Finals(files).record)
            && OthersStayFresh(files, after, id)
  {
  }

  lemma RecordCommitted(files: Files, id: int, record: CapabilityRecord)
    requires Pending(files, id, record) && Torn(files, id, record)
    ensures var after := Renamed(files, StagedRecord(id), RecordFinal);
            && Pending(after, id, record) && Committed(after, id, record)
            && OthersStayFresh(files, after, id)
  {
  }

  lemma JournalDropped(files: Files, id: int, record: CapabilityRecord)
    requires Pending(files, id, record) && Finals(files) == PairOf(record)
    ensures var after := files - {JournalFile};
            JournalFile !in after && Finals(after) == PairOf(record) && OthersStayFresh(files, after, id)
  {
  }

  // ----- one publication -----

  lemma PublishPrepares(files: Files, id: int, record: CapabilityRecord, n: nat)
    requires Fresh(files, id) && n <= 6
    requires Holding(files, StagedArtefact(id), record.artefactDigest)
    ensures var p := Turns(files, id, Publish(record, DigestStaged), n);
            && OnlyOwnNames(files, p.files, id)
            && (n == 0 ==> p.operation == Publish(record, DigestStaged) && Fresh(p.files, id))
            && (n == 1 ==> p.operation == Publish(record, CreateRecord) && Fresh(p.files, id))
            && (n == 2 ==> p.operation == Publish(record, WriteRecord) && TemporaryJournal(id) !in p.files)
            && (n == 3 ==> p.operation == Publish(record, StageRecord) && TemporaryJournal(id) !in p.files
                           && Look(p.files, TemporaryRecord(id)) == Some(RecordText(record)))
            && (n == 4 ==> p.operation == Publish(record, CreateJournal) && TemporaryJournal(id) !in p.files && BeforeCommit(p.files, id, record))
            && (n == 5 ==> p.operation == Publish(record, WriteJournal) && BeforeCommit(p.files, id, record))
            && (n == 6 ==> p.operation == Publish(record, StageJournal) && BeforeCommit(p.files, id, record)
                           && Look(p.files, TemporaryJournal(id)) == Some(JournalText(JournalFor(id, record))))
  {
    if n > 0 {
      PublishPrepares(files, id, record, n - 1);
      var p := Turns(files, id, Publish(record, DigestStaged), n - 1);
      assert SameAt(files, p.files, StagedArtefact(id));
      var after := Turns(files, id, Publish(record, DigestStaged), n).files;
      forall path | path != StagedRecord(id) && path != TemporaryRecord(id) && path != TemporaryJournal(id)
        ensures SameAt(files, after, path) {
        assert SameAt(files, p.files, path);
      }
    }
  }

  /** What a publication has done after `n` system calls, once it is past its preparation. */
  predicate CommitTable(files: Files, p: Progress, id: int, record: CapabilityRecord, n: nat) {
    && (n == 7 ==> p.operation == Publish(record, RenameArtefact)
                   && Pending(p.files, id, record) && BeforeCommit(p.files, id, record) && Finals(p.files) == Finals(files))
    && (n == 8 ==> p.operation == Publish(record, RenameRecord)
                   && Pending(p.files, id, record) && Torn(p.files, id, record)
                   && Finals(p.files) == Pair(PairOf(record).artefact, Finals(files).record))
    && (n == 9 ==> p.operation == Publish(record, DropJournal)
                   && Pending(p.files, id, record) && Committed(p.files, id, record))
    && (n >= 10 ==> p.operation == Publish(record, Published)
                    && JournalFile !in p.files && Finals(p.files) == PairOf(record))
  }

  lemma JournalStaged(files: Files, id: int, record: CapabilityRecord)
    requires Fresh(files, id) && Holding(files, StagedArtefact(id), record.artefactDigest)
    ensures var p := Turns(files, id, Publish(record, DigestStaged), 7);
            && p.operation == Publish(record, RenameArtefact)
            && Pending(p.files, id, record) && BeforeCommit(p.files, id, record) && Finals(p.files) == Finals(files)
            && OthersStayFresh(files, p.files, id)
  {
    PublishPrepares(files, id, record, 6);
    hide BeforeCommit;
    var before := Turns(files, id, Publish(record, DigestStaged), 6);
    assert SameAt(files, before.files, ArtefactFinal) && SameAt(files, before.files, RecordFinal);
    JournalPlaced(before.files, id, record);
    OwnNamesKeepOthersFresh(files, before.files, id);
    hide Pending;
    hide OnlyOwnNames;
    hide Fresh;
    assert Turns(files, id, Publish(record, DigestStaged), 7) == OperationStep(before.files, id, before.operation);
  }

  lemma FreshTwice(files: Files, middle: Files, after: Files, id: int)
    requires OthersStayFresh(files, middle, id) && OthersStayFresh(middle, after, id)
    ensures OthersStayFresh(files, after, id)
  {
    hide Fresh;
  }

  /** One more call of a publication that is past its preparation. */
  lemma CommitStep(files: Files, before: Progress, id: int, record: CapabilityRecord, n: nat)
    requires 7 <= n && CommitTable(files, before, id, record, n)
    ensures var p := OperationStep(before.files, id, before.operation);
            CommitTable(files, p, id, record, n + 1) && OthersStayFresh(before.files, p.files, id)
  {
    hide RecoverStep;
    hide AdoptStep;
    hide ReadStep;
    hide ReplaceStep;
    hide Fresh;
    if n == 7 {
      ArtefactCommitted(before.files, id, record);
    } else if n == 8 {
      RecordCommitted(before.files, id, record);
    } else if n == 9 {
      JournalDropped(before.files, id, record);
    } else {
      assert OperationStep(before.files, id, before.operation) == before;
    }
  }

  lemma {:induction false} PublishCommits(files: Files, id: int, record: CapabilityRecord, n: nat)
    requires Fresh(files, id) && 7 <= n
    requires Holding(files, StagedArtefact(id), record.artefactDigest)
    ensures var p := Turns(files, id, Publish(record, DigestStaged), n);
            CommitTable(files, p, id, record, n) && OthersStayFresh(files, p.files, id)
  {
    hide Fresh;
    hide Pending;
    hide BeforeCommit;
    if n == 7 {
      JournalStaged(files, id, record);
    } else {
      var before := Turns(files, id, Publish(record, DigestStaged), n - 1);
      assert Turns(files, id, Publish(record, DigestStaged), n) == OperationStep(before.files, id, before.operation);
      hide OperationStep;
      PublishCommits(files, id, record, n - 1);
      hide Turns;
      hide CommitTable;
      CommitStep(files, before, id, record, n - 1);
      FreshTwice(files, before.files, OperationStep(before.files, id, before.operation).files, id);
    }
  }

  lemma OwnNamesKeepOthersFresh(files: Files, after: Files, id: int)
    requires OnlyOwnNames(files, after, id)
    ensures OthersStayFresh(files, after, id)
  {
    forall i | i != id && Fresh(files, i) ensures Fresh(after, i) {
      assert SameAt(files, after, StagedRecord(i)) && SameAt(files, after, TemporaryRecord(i)) && SameAt(files, after, TemporaryJournal(i));
    }
  }

  /**
    A publication that crashes after `n` system calls, from any disk with no transaction pending: the
    gate is open and the old pair whole up to the sixth call, the gate is shut from the seventh to the
    ninth, and from the tenth on it is open on the new pair. Between the eighth and the ninth call the
    new artefact stands beside the old record.
   */
  lemma PublishCrash(files: Files, id: int, record: CapabilityRecord, n: nat)
    requires JournalFile !in files && Fresh(files, id)
    requires Holding(files, StagedArtefact(id), record.artefactDigest)
    ensures var p := Turns(files, id, Publish(record, DigestStaged), n);
            && (n <= 6 ==> JournalFile !in p.files && Finals(p.files) == Finals(files))
            && CommitTable(files, p, id, record, n)
  {
    if n <= 6 {
      PublishPrepares(files, id, record, n);
      var p := Turns(files, id, Publish(record, DigestStaged), n);
      assert SameAt(files, p.files, JournalFile) && SameAt(files, p.files, ArtefactFinal) && SameAt(files, p.files, RecordFinal);
    } else {
      PublishCommits(files, id, record, n);
    }
  }

  // ----- one recovery -----

  const RECOVER := Recover(SeekJournal)

  /** Both staged files match: the recovery goes on to commit them. */
  lemma {:induction false} RecoverSeesStaged(files: Files, op: int, id: int, record: CapabilityRecord, n: nat)
    requires Pending(files, id, record) && BeforeCommit(files, id, record) && n <= 6
    ensures var p := Turns(files, op, RECOVER, n);
            var j := JournalFor(id, record);
            && p.files == files
            && (n == 0 ==> p.operation == RECOVER)
            && (n == 1 ==> p.operation == Recover(ReadJournal))
            && (n == 2 ==> p.operation == Recover(SeekStagedArtefact(j)))
            && (n == 3 ==> p.operation == Recover(DigestStagedArtefact(j)))
            && (n == 4 ==> p.operation == Recover(SeekStagedRecord(j, true)))
            && (n == 5 ==> p.operation == Recover(DigestStagedRecord(j, true)))
            && (n == 6 ==> p.operation == Recover(CommitArtefact(j)))
  {
    if n > 0 {
      RecoverSeesStaged(files, op, id, record, n - 1);
    }
  }

  /** The same renames, and the same removal, as the publication it completes. */
  lemma {:induction false} RecoverCommits(files: Files, op: int, id: int, record: CapabilityRecord, n: nat)
    requires Pending(files, id, record) && BeforeCommit(files, id, record) && 7 <= n
    ensures var p := Turns(files, op, RECOVER, n);
            && OthersStayFresh(files, p.files, id)
            && (n == 7 ==> p.operation == Recover(CommitRecord(JournalFor(id, record))) && Pending(p.files, id, record) && Torn(p.files, id, record))
            && (n == 8 ==> p.operation == Recover(RemoveJournal) && Pending(p.files, id, record) && Committed(p.files, id, record))
            && (n >= 9 ==> p.operation == Recover(Recovered(Completed)) && JournalFile !in p.files && Finals(p.files) == PairOf(record))
  {
    hide Fresh;
    hide PublishStep;
    hide AdoptStep;
    hide ReadStep;
    var before := Turns(files, op, RECOVER, n - 1);
    assert Turns(files, op, RECOVER, n) == OperationStep(before.files, op, before.operation);
    if n == 7 {
      RecoverSeesStaged(files, op, id, record, 6);
      ArtefactCommitted(files, id, record);
      hide Pending;
      hide Torn;
    } else {
      RecoverCommits(files, op, id, record, n - 1);
      hide Turns;
      hide BeforeCommit;
      if n == 8 {
        RecordCommitted(before.files, id, record);
      } else if n == 9 {
        JournalDropped(before.files, id, record);
      }
    }
  }

  /** The staged artefact is gone: the finals decide, and a refusal changes nothing. */
  lemma {:induction false} RecoverSeesFinals(files: Files, op: int, id: int, record: CapabilityRecord, n: nat)
    requires Pending(files, id, record) && !BeforeCommit(files, id, record)
    ensures DecidedByFinals(files, Turns(files, op, RECOVER, n), record, n)
  {
    if n <= 8 {
      RecoverLooks(files, op, id, record, n);
    } else if n == 9 {
      RecoverDecides(files, op, id, record, n);
    } else {
      RecoverSeesFinals(files, op, id, record, n - 1);
      var before := Turns(files, op, RECOVER, n - 1);
      assert Turns(files, op, RECOVER, n) == OperationStep(before.files, op, before.operation);
      hide Turns;
      hide PublishStep;
      hide AdoptStep;
      hide ReadStep;
      hide Finals;
    }
  }

  /** After the ninth call only the removal of the journal can be left to do. */
  predicate DecidedByFinals(files: Files, p: Progress, record: CapabilityRecord, n: nat) {
    var whole := Finals(files) == PairOf(record);
    var completed := Progress(files - {JournalFile}, Recover(Recovered(Completed)));
    && JournalFile in files
    && (n <= 8 ==> p.files == files)
    && (n >= 9 && !whole ==> p == Progress(files, Recover(Recovered(RecoveryRefused))))
    && (n == 9 && whole ==> p == Progress(files, Recover(RemoveJournal)) || p == completed)
    && (n >= 10 && whole ==> p == completed)
  }

  lemma RecoverDecides(files: Files, op: int, id: int, record: CapabilityRecord, n: nat)
    requires Pending(files, id, record) && !BeforeCommit(files, id, record) && n == 9
    ensures DecidedByFinals(files, Turns(files, op, RECOVER, n), record, n)
  {
    hide PublishStep;
    hide AdoptStep;
    hide ReadStep;
    RecoverLooks(files, op, id, record, n - 1);
    var before := Turns(files, op, RECOVER, n - 1);
    assert Turns(files, op, RECOVER, n) == OperationStep(before.files, op, before.operation);
    hide Turns;
  }

  lemma {:induction false} RecoverLooks(files: Files, op: int, id: int, record: CapabilityRecord, n: nat)
    requires Pending(files, id, record) && !BeforeCommit(files, id, record) && n <= 8
    ensures var p := Turns(files, op, RECOVER, n);
            var j := JournalFor(id, record);
            && p.files == files
            && (n == 0 ==> p.operation == RECOVER)
            && (n == 1 ==> p.operation == Recover(ReadJournal))
            && (n == 2 ==> p.operation == Recover(SeekStagedArtefact(j)))
            && (n == 3 ==> p.operation == Recover(SeekStagedRecord(j, false)))
            && (n == 4 ==> p.operation == Recover(if StagedRecord(id) in files then DigestStagedRecord(j, false) else SeekFinalArtefact(j)))
            && (n == 5 ==> p.operation == Recover(if StagedRecord(id) in files then SeekFinalArtefact(j) else DigestFinalArtefact(j)))
            && (n == 6 ==> p.operation == Recover(if StagedRecord(id) in files then DigestFinalArtefact(j) else SeekFinalRecord(j, true)))
            && (n == 7 ==> p.operation == Recover(if StagedRecord(id) in files then SeekFinalRecord(j, true) else DigestFinalRecord(j, true)))
            && (n == 8 ==> p.operation == Recover(
                  if StagedRecord(id) !in files then RemoveJournal
                  else if RecordFinal in files then DigestFinalRecord(j, true) else Recovered(RecoveryRefused)))
  {
    hide PublishStep;
    hide AdoptStep;
    hide ReadStep;
    if n > 0 {
      RecoverLooks(files, op, id, record, n - 1);
    }
  }

  // ----- any number of turns -----

  /** The journal on disk, if any, belongs to this publication and stands at one of its three stages. */
  predicate PendingOf(turns: seq<Turn>, files: Files, a: int) {
    && 0 <= a < |turns| && turns[a].operation.Publish?
    && Pending(files, turns[a].id, turns[a].operation.record)
  }

  ghost predicate SerialState(start: Files, turns: seq<Turn>, files: Files) {
    && (forall i :: (forall a :: 0 <= a < |turns| ==> turns[a].id != i) ==> Fresh(files, i))
    && (if JournalFile in files then exists a :: PendingOf(turns, files, a) else WholePair(start, turns, Finals(files)))
  }

  lemma MoreTurns(start: Files, turns: seq<Turn>, turn: Turn, files: Files)
    ensures WholePair(start, turns, Finals(files)) ==> WholePair(start, turns + [turn], Finals(files))
    ensures forall a :: PendingOf(turns, files, a) ==> PendingOf(turns + [turn], files, a)
    ensures turn.operation.Publish? ==> WholePair(start, turns + [turn], PairOf(turn.operation.record))
    ensures turn.operation.Publish? && Pending(files, turn.id, turn.operation.record) ==> PendingOf(turns + [turn], files, |turns|)
  {
    hide Pending;
    var all := turns + [turn];
    assert all[|turns|] == turn;
    if WholePair(start, turns, Finals(files)) && Finals(files) != Finals(start) {
      var a :| 0 <= a < |turns| && turns[a].operation.Publish? && Finals(files) == PairOf(turns[a].operation.record);
      assert all[a] == turns[a];
    }
  }

  lemma FreshAfter(turns: seq<Turn>, turn: Turn, files: Files, after: Files)
    requires forall i :: (forall a :: 0 <= a < |turns| ==> turns[a].id != i) ==> Fresh(files, i)
    requires OthersStayFresh(files, after, turn.id)
    ensures forall i :: (forall a :: 0 <= a < |turns + [turn]| ==> (turns + [turn])[a].id != i) ==> Fresh(after, i)
  {
    hide Fresh;
    var all := turns + [turn];
    assert all[|turns|] == turn;
    forall i | forall a :: 0 <= a < |all| ==> all[a].id != i ensures Fresh(after, i) {
      assert forall a :: 0 <= a < |turns| ==> turns[a] == all[a];
    }
  }

  /** A publication that finds its staged artefact missing or changed throws at once. */
  lemma {:induction false} PublishRefused(files: Files, id: int, record: CapabilityRecord, n: nat)
    requires !Holding(files, StagedArtefact(id), record.artefactDigest)
    ensures Turns(files, id, Publish(record, DigestStaged), n).files == files
    ensures n > 0 ==> Turns(files, id, Publish(record, DigestStaged), n).operation == Publish(record, PublishThrew)
  {
    hide RecoverStep;
    hide AdoptStep;
    hide ReadStep;
    if n > 0 { PublishRefused(files, id, record, n - 1); }
  }

  lemma PreparingKeepsPending(files: Files, after: Files, id: int, other: int, record: CapabilityRecord)
    requires OnlyOwnNames(files, after, id) && other != id && Pending(files, other, record)
    ensures Pending(after, other, record)
  {
    assert SameAt(files, after, JournalFile) && SameAt(files, after, ArtefactFinal) && SameAt(files, after, RecordFinal);
    assert SameAt(files, after, StagedArtefact(other)) && SameAt(files, after, StagedRecord(other));
  }

  lemma PublishTurn(start: Files, turns: seq<Turn>, turn: Turn, files: Files)
    requires SerialState(start, turns, files) && turn.operation.Publish? && PublishOrRecover(turn)
    requires forall a :: 0 <= a < |turns| ==> turns[a].id != turn.id
    ensures SerialState(start, turns + [turn], Turns(files, turn.id, turn.operation, turn.steps).files)
  {
    var id, record, n := turn.id, turn.operation.record, turn.steps;
    var after := Turns(files, id, turn.operation, n).files;
    assert Fresh(files, id);
    MoreTurns(start, turns, turn, files);
    MoreTurns(start, turns, turn, after);
    if !Holding(files, StagedArtefact(id), record.artefactDigest) {
      PublishRefused(files, id, record, n);
      assert OthersStayFresh(files, after, id);
      FreshAfter(turns, turn, files, after);
      hide *;
    } else if n <= 6 {
      PublishPrepares(files, id, record, n);
      OwnNamesKeepOthersFresh(files, after, id);
      FreshAfter(turns, turn, files, after);
      PreparedState(start, turns, turn, files, after);
    } else {
      PublishCommits(files, id, record, n);
      FreshAfter(turns, turn, files, after);
      hide Fresh;
      hide Turns;
      hide BeforeCommit;
      hide Torn;
      hide Committed;
      assert JournalFile in after ==> PendingOf(turns + [turn], after, |turns|);
    }
  }

  lemma PreparedState(start: Files, turns: seq<Turn>, turn: Turn, files: Files, after: Files)
    requires SerialState(start, turns, files) && OnlyOwnNames(files, after, turn.id)
    requires forall a :: 0 <= a < |turns| ==> turns[a].id != turn.id
    ensures JournalFile in after ==> exists a :: PendingOf(turns + [turn], after, a)
    ensures JournalFile !in after ==> WholePair(start, turns + [turn], Finals(after))
  {
    assert SameAt(files, after, JournalFile) && SameAt(files, after, ArtefactFinal) && SameAt(files, after, RecordFinal);
    MoreTurns(start, turns, turn, after);
    if JournalFile in files {
      var a :| PendingOf(turns, files, a);
      PreparingKeepsPending(files, after, turn.id, turns[a].id, turns[a].operation.record);
      assert PendingOf(turns, after, a);
    }
  }

  lemma RecoverTurn(start: Files, turns: seq<Turn>, turn: Turn, files: Files)
    requires SerialState(start, turns, files) && turn.operation == RECOVER
    ensures SerialState(start, turns + [turn], Turns(files, turn.id, turn.operation, turn.steps).files)
  {
    var op, n := turn.id, turn.steps;
    var after := Turns(files, op, RECOVER, n).files;
    MoreTurns(start, turns, turn, files);
    MoreTurns(start, turns, turn, after);
    if JournalFile !in files {
      NothingToRecover(files, op, n);
      AllStayFresh(turns, turn, files, files);
    } else {
      var a :| PendingOf(turns, files, a);
      RecoverPending(files, op, turns[a].id, turns[a].operation.record, n);
      hide Pending;
      hide Fresh;
      AllStayFresh(turns, turn, files, after);
      if JournalFile in after {
        assert PendingOf(turns, after, a);
      } else {
        assert WholePair(start, turns, Finals(after));
      }
    }
  }

  lemma AllStayFresh(turns: seq<Turn>, turn: Turn, files: Files, after: Files)
    requires forall i :: (forall a :: 0 <= a < |turns| ==> turns[a].id != i) ==> Fresh(files, i)
    requires forall i :: Fresh(files, i) ==> Fresh(after, i)
    ensures forall i :: (forall a :: 0 <= a < |turns + [turn]| ==> (turns + [turn])[a].id != i) ==> Fresh(after, i)
  {
    hide Fresh;
    FreshAfter(turns, turn, files, after);
  }

  lemma {:induction false} NothingToRecover(files: Files, op: int, n: nat)
    requires JournalFile !in files
    ensures Turns(files, op, RECOVER, n).files == files
    ensures n > 0 ==> Turns(files, op, RECOVER, n).operation == Recover(Recovered(NothingPending))
  {
    hide PublishStep;
    hide AdoptStep;
    hide ReadStep;
    if n > 0 { NothingToRecover(files, op, n - 1); }
  }

  /** Wherever a recovery crashes, the transaction is still pending or the pair is whole. */
  lemma RecoverPending(files: Files, op: int, id: int, record: CapabilityRecord, n: nat)
    requires Pending(files, id, record)
    ensures var after := Turns(files, op, RECOVER, n).files;
            && (if JournalFile in after then Pending(after, id, record) else Finals(after) == PairOf(record))
            && forall i :: Fresh(files, i) ==> Fresh(after, i)
  {
    var after := Turns(files, op, RECOVER, n).files;
    if BeforeCommit(files, id, record) {
      if n <= 6 {
        RecoverSeesStaged(files, op, id, record, n);
      } else {
        RecoverCommits(files, op, id, record, n);
        assert !Fresh(files, id);
      }
    } else {
      RecoverSeesFinals(files, op, id, record, n);
      hide Turns;
    }
  }

  lemma {:induction false} SerialRun(start: Files, turns: seq<Turn>)
    requires Clean(start) && SerialTurns(turns)
    ensures SerialState(start, turns, Serial(start, turns))
  {
    if turns != [] {
      var before, turn := turns[..|turns| - 1], turns[|turns| - 1];
      SerialRun(start, before);
      hide SerialState;
      assert turns == before + [turn];
      assert forall a :: 0 <= a < |before| ==> before[a] == turns[a];
      if turn.operation.Publish? {
        PublishTurn(start, before, turn, Serial(start, before));
      } else {
        RecoverTurn(start, before, turn, Serial(start, before));
      }
    }
  }

  // ----- the main results -----

  /**
    After any sequence of publications and recoveries, each crashing after any system call: a reader
    that passes the journal gate finds a whole pair, the first one or that of one publication, and
    never the artefact of one beside the record of another.
   */
  lemma OpenGateShowsWholePair(start: Files, turns: seq<Turn>)
    requires Clean(start) && SerialTurns(turns)
    requires JournalFile !in Serial(start, turns)
    ensures WholePair(start, turns, Finals(Serial(start, turns)))
  {
    SerialRun(start, turns);
  }

  predicate RecoversExactly(files: Files, p: Progress, id: int, record: CapabilityRecord) {
    if StagedArtefact(id) in files || Finals(files) == PairOf(record) then
      p.operation == Recover(Recovered(Completed)) && JournalFile !in p.files && Finals(p.files) == PairOf(record)
    else
      && p == Progress(files, Recover(Recovered(RecoveryRefused)))
      && Finals(files).artefact == PairOf(record).artefact && Finals(files).record != PairOf(record).record
  }

  /**
    Exactly when recovery works. On any such disk: nothing to do while the gate is open; otherwise it
    completes the pending publication iff its staged artefact is still there or its pair is whole
    already, and if it is between the two renames it refuses and changes no file.
   */
  lemma RecoveryExactly(start: Files, turns: seq<Turn>, op: int)
    requires Clean(start) && SerialTurns(turns)
    ensures var files := Serial(start, turns);
            var p := Turns(files, op, RECOVER, 10);
            if JournalFile !in files then p == Progress(files, Recover(Recovered(NothingPending)))
            else exists a :: PendingOf(turns, files, a) && RecoversExactly(files, p, turns[a].id, turns[a].operation.record)
  {
    SerialRun(start, turns);
    var files := Serial(start, turns);
    hide Turns;
    if JournalFile !in files {
      NothingToRecover(files, op, 10);
    } else {
      var a :| PendingOf(turns, files, a);
      var id, record := turns[a].id, turns[a].operation.record;
      if BeforeCommit(files, id, record) {
        RecoverCommits(files, op, id, record, 10);
      } else {
        RecoverSeesFinals(files, op, id, record, 10);
      }
    }
  }

  /** A torn pair is a dead end for recovery: no number of recoveries, crashing anywhere, moves it. */
  lemma {:induction false} TornForever(files: Files, id: int, record: CapabilityRecord, turns: seq<Turn>)
    requires Pending(files, id, record) && Torn(files, id, record) && Finals(files) != PairOf(record)
    requires forall a :: 0 <= a < |turns| ==> turns[a].operation == RECOVER
    ensures Serial(files, turns) == files
  {
    if turns != [] {
      TornForever(files, id, record, turns[..|turns| - 1]);
      var turn := turns[|turns| - 1];
      RecoverSeesFinals(files, turn.id, id, record, turn.steps);
    }
  }

  /**
    A publication that crashes after `n` system calls, then one recovery: nothing to do up to the
    sixth call, completed after the seventh and the ninth, and after the eighth, between the two
    renames, refused with the new artefact beside the old record, unless both records are the same.
   */
  lemma CrashThenRecover(files: Files, id: int, record: CapabilityRecord, n: nat, op: int)
    requires JournalFile !in files && Fresh(files, id)
    requires Holding(files, StagedArtefact(id), record.artefactDigest)
    requires Finals(files).record != PairOf(record).record
    ensures var crashed := Turns(files, id, Publish(record, DigestStaged), n).files;
            var p := Turns(crashed, op, RECOVER, 10);
            && p.operation == Recover(Recovered(if n <= 6 || n >= 10 then NothingPending else if n == 8 then RecoveryRefused else Completed))
            && (n == 8 ==> p.files == crashed)
            && Finals(p.files) ==
                 if n <= 6 then Finals(files)
                 else if n == 8 then Pair(PairOf(record).artefact, Finals(files).record)
                 else PairOf(record)
  {
    var crashed := Turns(files, id, Publish(record, DigestStaged), n).files;
    PublishCrash(files, id, record, n);
    hide Turns;
    if n <= 6 || n >= 10 {
      NothingToRecover(crashed, op, 10);
    } else if n == 7 {
      RecoverCommits(crashed, op, id, record, 10);
    } else {
      RecoverSeesFinals(crashed, op, id, record, 10);
    }
  }

  predicate ReadFrom(pair: Pair, r: Readings) {
    && (r.artefactPresent <==> pair.artefact.Some?)
    && (r.record.Some? ==> r.record == pair.record)
    && (r.artefact.Some? ==> r.artefact == pair.artefact)
    && (r.digest.Some? ==> pair.artefact.Some? && r.digest.value == Sha256(pair.artefact.value))
  }

  function CallsLeft(p: ReadPoint): nat {
    match p
    case Gate => 7
    case SeekArtefact => 6
    case SeekRecord => 5
    case ReadRecord => 4
    case ValidateArtefact(_) => 3
    case ReadCookies(_) => 2
    case DigestCurrent(_, _) => 1
    case TransactionPending => 0
    case Judged(_) => 0
  }

  predicate ReadSoFar(files: Files, p: ReadPoint) {
    && (p.TransactionPending? ==> JournalFile in files)
    && (!p.TransactionPending? && !p.Gate? ==> JournalFile !in files)
    && (!p.TransactionPending? && !p.Gate? && !p.SeekArtefact? && !p.Judged? ==> ArtefactFinal in files)
    && (p.ValidateArtefact? || p.ReadCookies? || p.DigestCurrent? ==> Look(files, RecordFinal) == Some(p.record))
    && (p.ReadRecord? ==> RecordFinal in files)
    && (p.DigestCurrent? ==> Look(files, ArtefactFinal) == Some(p.cookies))
    && (p.Judged? ==> ReadFrom(Finals(files), p.readings))
  }

  lemma {:induction false} ReaderAfter(files: Files, op: int, n: nat)
    ensures var p := Turns(files, op, Preflight(Gate), n);
            && p.files == files && p.operation.Preflight? && ReadSoFar(files, p.operation.read)
            && CallsLeft(p.operation.read) <= if n <= 7 then 7 - n else 0
  {
    hide ParseAuthCapabilityRecord;
    hide PublishStep;
    hide RecoverStep;
    hide AdoptStep;
    if n > 0 { ReaderAfter(files, op, n - 1); }
  }

  /**
    A pre-flight on a disk nobody else touches: behind a shut gate it refuses as pending, and through
    an open gate everything it judges comes from the finals as they stand.
   */
  lemma ReaderSeesFinals(files: Files, op: int)
    ensures var p := Turns(files, op, Preflight(Gate), 7);
            && p.files == files && p.operation.Preflight?
            && (JournalFile in files ==> p.operation.read == TransactionPending)
            && (JournalFile !in files ==> p.operation.read.Judged? && ReadFrom(Finals(files), p.operation.read.readings))
  {
    ReaderAfter(files, op, 7);
    hide Turns;
  }

  /** The whole promise: after any crashes, a reader is either refused or judges one whole pair. */
  lemma ReaderRefusedOrWhole(start: Files, turns: seq<Turn>, op: int)
    requires Clean(start) && SerialTurns(turns)
    ensures var operation := Turns(Serial(start, turns), op, Preflight(Gate), 7).operation;
            operation == Preflight(TransactionPending) ||
            (operation.Preflight? && operation.read.Judged?
             && exists pair :: WholePair(start, turns, pair) && ReadFrom(pair, operation.read.readings))
  {
    var files := Serial(start, turns);
    ReaderSeesFinals(files, op);
    if JournalFile !in files {
      OpenGateShowsWholePair(start, turns);
      hide Turns;
      hide ReadFrom;
      assert WholePair(start, turns, Finals(files));
    }
  }
}
