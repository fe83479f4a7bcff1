/**
  The bundle of a storage state and its lifecycle record: every operation on it as a machine that
  makes one system call per step. A crash is an operation that is never stepped again.
 */
module AuthBundle {
  import opened Wrappers
  import opened CookieApplicability
  import opened AuthCapability

  type Files = map<Path, Content>

  /** `renameSync`, atomic. */
  function Renamed(files: Files, from: Path, to: Path): Files
    requires from in files
  {
    (files - {from})[to := files[from]]
  }

  function Holding(files: Files, path: Path, digest: Digest): bool {
    path in files && Sha256(files[path]) == digest
  }

  function JournalFor(id: int, record: CapabilityRecord): BundleJournal {
    BundleJournal(
      StagedArtefact(id), ArtefactFinal, record.artefactDigest,
      StagedRecord(id), RecordFinal, Sha256(RecordText(record)))
  }

  /** The next system call of `publishAuthCapabilityBundle`; the staged artefact is already there. */
  datatype PublishPoint =
    | DigestStaged | CreateRecord | WriteRecord | StageRecord | CreateJournal | WriteJournal | StageJournal
    | RenameArtefact | RenameRecord | DropJournal | Published | PublishThrew

  datatype RecoveryOutcome = NothingPending | Completed | RecoveryRefused | RecoveryThrew

  /** The next system call of `recoverAuthCapabilityBundle`. */
  datatype RecoverPoint =
    | SeekJournal
    | ReadJournal
    | SeekStagedArtefact(journal: BundleJournal)
    | DigestStagedArtefact(journal: BundleJournal)
    | SeekStagedRecord(journal: BundleJournal, artefactMatches: bool)
    | DigestStagedRecord(journal: BundleJournal, artefactMatches: bool)
    | CommitArtefact(journal: BundleJournal)
    | CommitRecord(journal: BundleJournal)
    | SeekFinalArtefact(journal: BundleJournal)
    | DigestFinalArtefact(journal: BundleJournal)
    | SeekFinalRecord(journal: BundleJournal, artefactMatches: bool)
    | DigestFinalRecord(journal: BundleJournal, artefactMatches: bool)
    | RemoveJournal
    | Recovered(outcome: RecoveryOutcome)

  /** The next system call of `atomicallyReplaceValidatedStorageState`. */
  datatype ReplacePoint = ValidatePending | RenamePending | Replaced | ReplaceThrew

  /** The next system call of `adoptAuthCaptureRecord`. */
  datatype AdoptPoint =
    | SeekOldRecord
    | ValidateCurrent
    | ReadExpiries
    | DigestArtefact(earliest: Option<real>)
    | CreateAdopted(record: CapabilityRecord)
    | WriteAdopted(record: CapabilityRecord)
    | RenameAdopted(record: CapabilityRecord)
    | Adopted
    | AdoptThrew

  /** The next system call of `requireValidAuthCapability`. */
  datatype ReadPoint =
    | Gate
    | SeekArtefact
    | SeekRecord
    | ReadRecord
    | ValidateArtefact(record: Content)
    | ReadCookies(record: Content)
    | DigestCurrent(record: Content, cookies: Content)
    | TransactionPending
    | Judged(readings: Readings)

  datatype Operation =
    | Publish(record: CapabilityRecord, publish: PublishPoint)
    | Recover(recover: RecoverPoint)
    | Replace(replace: ReplacePoint)
    | Adopt(template: CapabilityRecord, replaceExisting: bool, adopt: AdoptPoint)
    | Preflight(read: ReadPoint)

  datatype Progress = Progress(files: Files, operation: Operation)

  /** A rename followed by the next point, or the throw when the source is gone. */
  function Move(files: Files, from: Path, to: Path, next: Operation, threw: Operation): Progress {
    if from in files then Progress(Renamed(files, from, to), next) else Progress(files, threw)
  }

  /** `openSync` with 'wx' followed by the next point, or the throw when the file exists. */
  function Create(files: Files, path: Path, next: Operation, threw: Operation): Progress {
    if path in files then Progress(files, threw) else Progress(files[path := OtherBytes("")], next)
  }

  function PublishStep(files: Files, id: int, record: CapabilityRecord, point: PublishPoint): Progress {
    var threw := Publish(record, PublishThrew);
    match point
    case DigestStaged =>
      Progress(files, if Holding(files, StagedArtefact(id), record.artefactDigest) then Publish(record, CreateRecord) else threw)
    case CreateRecord => Create(files, TemporaryRecord(id), Publish(record, WriteRecord), threw)
    case WriteRecord => Progress(files[TemporaryRecord(id) := RecordText(record)], Publish(record, StageRecord))
    case StageRecord => Move(files, TemporaryRecord(id), StagedRecord(id), Publish(record, CreateJournal), threw)
    case CreateJournal => Create(files, TemporaryJournal(id), Publish(record, WriteJournal), threw)
    case WriteJournal => Progress(files[TemporaryJournal(id) := JournalText(JournalFor(id, record))], Publish(record, StageJournal))
    case StageJournal => Move(files, TemporaryJournal(id), JournalFile, Publish(record, RenameArtefact), threw)
    case RenameArtefact => Move(files, StagedArtefact(id), ArtefactFinal, Publish(record, RenameRecord), threw)
    case RenameRecord => Move(files, StagedRecord(id), RecordFinal, Publish(record, DropJournal), threw)
    case DropJournal =>
      if JournalFile in files then Progress(files - {JournalFile}, Publish(record, Published)) else Progress(files, threw)
    case Published => Progress(files, Publish(record, Published))
    case PublishThrew => Progress(files, threw)
  }

  function AfterStaged(journal: BundleJournal, artefact: bool, record: bool): RecoverPoint {
    if artefact && record then CommitArtefact(journal) else SeekFinalArtefact(journal)
  }

  function AfterFinal(artefact: bool, record: bool): RecoverPoint {
    if artefact && record then RemoveJournal else Recovered(RecoveryRefused)
  }

  function RecoverStep(files: Files, point: RecoverPoint): Progress {
    match point
    case SeekJournal => Progress(files, Recover(if JournalFile in files then ReadJournal else Recovered(NothingPending)))
    case ReadJournal =>
      Progress(files, Recover(
        if JournalFile !in files then Recovered(RecoveryThrew)
        else if files[JournalFile].JournalText? then SeekStagedArtefact(files[JournalFile].journal)
        else Recovered(RecoveryRefused)))
    case SeekStagedArtefact(j) =>
      Progress(files, Recover(if j.artefactStaged in files then DigestStagedArtefact(j) else SeekStagedRecord(j, false)))
    case DigestStagedArtefact(j) =>
      Progress(files, Recover(
        if j.artefactStaged in files then SeekStagedRecord(j, Holding(files, j.artefactStaged, j.artefactDigest)) else Recovered(RecoveryThrew)))
    case SeekStagedRecord(j, artefact) =>
      Progress(files, Recover(if j.recordStaged in files then DigestStagedRecord(j, artefact) else AfterStaged(j, artefact, false)))
    case DigestStagedRecord(j, artefact) =>
      Progress(files, Recover(
        if j.recordStaged in files then AfterStaged(j, artefact, Holding(files, j.recordStaged, j.recordDigest)) else Recovered(RecoveryThrew)))
    case CommitArtefact(j) =>
      Move(files, j.artefactStaged, j.artefactFinal, Recover(CommitRecord(j)), Recover(Recovered(RecoveryThrew)))
    case CommitRecord(j) =>
      Move(files, j.recordStaged, j.recordFinal, Recover(RemoveJournal), Recover(Recovered(RecoveryThrew)))
    case SeekFinalArtefact(j) =>
      Progress(files, Recover(if j.artefactFinal in files then DigestFinalArtefact(j) else SeekFinalRecord(j, false)))
    case DigestFinalArtefact(j) =>
      Progress(files, Recover(
        if j.artefactFinal in files then SeekFinalRecord(j, Holding(files, j.artefactFinal, j.artefactDigest)) else Recovered(RecoveryThrew)))
    case SeekFinalRecord(j, artefact) =>
      Progress(files, Recover(if j.recordFinal in files then DigestFinalRecord(j, artefact) else AfterFinal(artefact, false)))
    case DigestFinalRecord(j, artefact) =>
      Progress(files, Recover(
        if j.recordFinal in files then AfterFinal(artefact, Holding(files, j.recordFinal, j.recordDigest)) else Recovered(RecoveryThrew)))
    case RemoveJournal =>
      if JournalFile in files then Progress(files - {JournalFile}, Recover(Recovered(Completed)))
      else Progress(files, Recover(Recovered(RecoveryThrew)))
    case Recovered(outcome) => Progress(files, Recover(Recovered(outcome)))
  }

  function ReplaceStep(files: Files, id: int, point: ReplacePoint): Progress {
    match point
    case ValidatePending =>
      Progress(files, Replace(
        if StagedArtefact(id) in files && files[StagedArtefact(id)].StorageState? then RenamePending else ReplaceThrew))
    case RenamePending => Move(files, StagedArtefact(id), ArtefactFinal, Replace(Replaced), Replace(ReplaceThrew))
    case Replaced => Progress(files, Replace(Replaced))
    case ReplaceThrew => Progress(files, Replace(ReplaceThrew))
  }

  /** The record is built from two reads of the artefact: its expiries, then its digest. */
  function AdoptStep(files: Files, id: int, template: CapabilityRecord, replaceExisting: bool,
      point: AdoptPoint): Progress {
    var threw := Adopt(template, replaceExisting, AdoptThrew);
    match point
    case SeekOldRecord =>
      Progress(files, if RecordFinal in files && !replaceExisting then threw else Adopt(template, replaceExisting, ValidateCurrent))
    case ValidateCurrent =>
      Progress(files,
        if ArtefactFinal in files && files[ArtefactFinal].StorageState? then Adopt(template, replaceExisting, ReadExpiries) else threw)
    case ReadExpiries =>
      Progress(files,
        if ArtefactFinal in files && files[ArtefactFinal].StorageState? then
          Adopt(template, replaceExisting, DigestArtefact(Least(Expiries(files[ArtefactFinal].cookies))))
        else threw)
    case DigestArtefact(earliest) =>
      Progress(files,
        if ArtefactFinal in files then
          Adopt(template, replaceExisting,
                CreateAdopted(template.(earliestCookieExpiry := earliest, artefactDigest := Sha256(files[ArtefactFinal]))))
        else threw)
    case CreateAdopted(record) =>
      Create(files, TemporaryRecord(id), Adopt(template, replaceExisting, WriteAdopted(record)), threw)
    case WriteAdopted(record) =>
      Progress(files[TemporaryRecord(id) := RecordText(record)], Adopt(template, replaceExisting, RenameAdopted(record)))
    case RenameAdopted(record) =>
      Move(files, TemporaryRecord(id), RecordFinal, Adopt(template, replaceExisting, Adopted), threw)
    case Adopted => Progress(files, Adopt(template, replaceExisting, Adopted))
    case AdoptThrew => Progress(files, threw)
  }

  /** A record that vanishes between the look and the read makes the read throw: it is unreadable. */
  function ReadStep(files: Files, point: ReadPoint): Progress {
    match point
    case Gate => Progress(files, Preflight(if JournalFile in files then TransactionPending else SeekArtefact))
    case SeekArtefact =>
      Progress(files, Preflight(if ArtefactFinal in files then SeekRecord else Judged(Readings(false, None, None, None))))
    case SeekRecord =>
      Progress(files, Preflight(if RecordFinal in files then ReadRecord else Judged(Readings(true, None, None, None))))
    case ReadRecord =>
      var record := if RecordFinal in files then files[RecordFinal] else OtherBytes("");
      Progress(files, Preflight(
        if ParseAuthCapabilityRecord(record).Some? then ValidateArtefact(record) else Judged(Readings(true, Some(record), None, None))))
    case ValidateArtefact(record) =>
      Progress(files, Preflight(
        if ArtefactFinal in files && files[ArtefactFinal].StorageState? then ReadCookies(record)
        else Judged(Readings(true, Some(record), None, None))))
    case ReadCookies(record) =>
      Progress(files, Preflight(
        if ArtefactFinal in files && files[ArtefactFinal].StorageState? then DigestCurrent(record, files[ArtefactFinal])
        else Judged(Readings(true, Some(record), None, None))))
    case DigestCurrent(record, cookies) =>
      var digest := if ArtefactFinal in files then Some(Sha256(files[ArtefactFinal])) else None;
      Progress(files, Preflight(Judged(Readings(true, Some(record), Some(cookies), digest))))
    case TransactionPending => Progress(files, Preflight(TransactionPending))
    case Judged(readings) => Progress(files, Preflight(Judged(readings)))
  }

  function OperationStep(files: Files, id: int, op: Operation): Progress {
    match op
    case Publish(record, point) => PublishStep(files, id, record, point)
    case Recover(point) => RecoverStep(files, point)
    case Replace(point) => ReplaceStep(files, id, point)
    case Adopt(template, replaceExisting, point) => AdoptStep(files, id, template, replaceExisting, point)
    case Preflight(point) => ReadStep(files, point)
  }

  /** An operation alone for `steps` system calls. */
  function Turns(files: Files, id: int, op: Operation, steps: nat): Progress {
    if steps == 0 then Progress(files, op)
    else
      var before := Turns(files, id, op, steps - 1);
      OperationStep(before.files, id, before.operation)
  }

  predicate Starting(op: Operation) {
    match op
    case Publish(_, point) => point == DigestStaged
    case Recover(point) => point == SeekJournal
    case Replace(point) => point == ValidatePending
    case Adopt(_, _, point) => point == SeekOldRecord
    case Preflight(point) => point == Gate
  }
}
