/**
  Publication and recovery as they run: methods that change the files of one directory in place, one
  system call after the other. Every call leaves a snapshot, so the contracts speak of every point a
  crash can hit.
 */
module AuthBundleStore {
  import opened Wrappers
  import opened AuthCapability
  import opened AuthBundle

  /** The files after each of the first `n` system calls of an operation. */
  function Snapshots(files: Files, id: int, op: Operation, n: nat): (r: seq<Files>)
    ensures |r| == n
  {
    if n == 0 then [] else Snapshots(files, id, op, n - 1) + [Turns(files, id, op, n).files]
  }

  /** `trace` extends `base` by exactly the snapshots of an operation that has come to `op`. */
  predicate Tracks(base: seq<Files>, before: Files, id: int, start: Operation, trace: seq<Files>, files: Files,
      op: Operation) {
    && |base| <= |trace|
    && var n := |trace| - |base|;
    && trace == base + Snapshots(before, id, start, n)
    && Turns(before, id, start, n) == Progress(files, op)
  }

  lemma Follow(base: seq<Files>, before: Files, id: int, start: Operation, trace: seq<Files>, files: Files,
      op: Operation, after: Files, next: Operation)
    requires Tracks(base, before, id, start, trace, files, op)
    requires OperationStep(files, id, op) == Progress(after, next)
    ensures Tracks(base, before, id, start, trace + [after], after, next)
  {
    hide OperationStep;
    var n := |trace| - |base|;
    assert Turns(before, id, start, n + 1) == OperationStep(files, id, op);
    assert trace + [after] == base + (Snapshots(before, id, start, n) + [after]);
  }

  class BundleStore {
    var files: Files
    ghost var trace: seq<Files>

    constructor (initial: Files)
      ensures files == initial && trace == []
    {
      files := initial;
      trace := [];
    }

    method Exists(path: Path) returns (found: bool)
      modifies this`trace
      ensures found == (path in files) && trace == old(trace) + [files]
    {
      found := path in files;
      trace := trace + [files];
    }

    /** `readFileSync`, or the throw when the file is gone. */
    method Read(path: Path) returns (content: Option<Content>)
      modifies this`trace
      ensures content == (if path in files then Some(files[path]) else None) && trace == old(trace) + [files]
    {
      content := if path in files then Some(files[path]) else None;
      trace := trace + [files];
    }

    method CreateExclusive(path: Path) returns (created: bool)
      modifies this
      ensures created == (path !in old(files))
      ensures files == if created then old(files)[path := OtherBytes("")] else old(files)
      ensures trace == old(trace) + [files]
    {
      created := path !in files;
      if created { files := files[path := OtherBytes("")]; }
      trace := trace + [files];
    }

    method Write(path: Path, content: Content)
      modifies this
      ensures files == old(files)[path := content] && trace == old(trace) + [files]
    {
      files := files[path := content];
      trace := trace + [files];
    }

    method Rename(from: Path, to: Path) returns (renamed: bool)
      modifies this
      ensures renamed == (from in old(files))
      ensures files == if renamed then Renamed(old(files), from, to) else old(files)
      ensures trace == old(trace) + [files]
    {
      renamed := from in files;
      if renamed { files := Renamed(files, from, to); }
      trace := trace + [files];
    }

    method Unlink(path: Path) returns (removed: bool)
      modifies this
      ensures removed == (path in old(files))
      ensures files == (if removed then old(files) - {path} else old(files)) && trace == old(trace) + [files]
    {
      removed := path in files;
      if removed { files := files - {path}; }
      trace := trace + [files];
    }

    /** A temporary of its own, its content, and the rename; false is the throw of the exclusive create. */
    method WriteFileAtomically(temporary: Path, file: Path, content: Content) returns (written: bool)
      modifies this
      ensures written == (temporary !in old(files))
      ensures !written ==> files == old(files) && trace == old(trace) + [files]
      ensures written ==>
                var created := old(files)[temporary := OtherBytes("")];
                var filled := created[temporary := content];
                files == Renamed(filled, temporary, file) && trace == old(trace) + [created] + [filled] + [files]
    {
      written := CreateExclusive(temporary);
      if !written { return; }
      Write(temporary, content);
      var renamed := Rename(temporary, file);
    }

    /** Every system call, in order, is the one the publication machine makes. */
    method PublishAuthCapabilityBundle(id: int, record: CapabilityRecord) returns (r: PublishPoint)
      modifies this
      ensures r == Published || r == PublishThrew
      ensures Tracks(old(trace), old(files), id, Publish(record, DigestStaged), trace, files, Publish(record, r))
    {
      ghost var base, before, start := trace, files, Publish(record, DigestStaged);
      hide Tracks;
      hide RecoverStep;
      hide AdoptStep;
      hide ReadStep;
      hide ReplaceStep;
      assert Tracks(base, before, id, start, trace, files, start) by { TracksNothing(base, before, id, start); }
      var staged := Read(StagedArtefact(id));
      if staged.None? || Sha256(staged.value) != record.artefactDigest {
        Follow(base, before, id, start, base, files, start, files, Publish(record, PublishThrew));
        return PublishThrew;
      }
      Follow(base, before, id, start, base, files, start, files, Publish(record, CreateRecord));
      ghost var trace1, files1 := trace, files;
      var recordStaged := WriteFileAtomically(TemporaryRecord(id), StagedRecord(id), RecordText(record));
      FollowWrite(base, before, id, start, trace1, files1, Publish(record, CreateRecord));
      if !recordStaged { return PublishThrew; }
      ghost var trace2, files2 := trace, files;
      var journalWritten := WriteFileAtomically(TemporaryJournal(id), JournalFile, JournalText(JournalFor(id, record)));
      FollowWrite(base, before, id, start, trace2, files2, Publish(record, CreateJournal));
      if !journalWritten { return PublishThrew; }
      r := CommitPublication(id, record, base, before);
    }

    /** The two renames of a publication, artefact first, then the journal. */
    method CommitPublication(id: int, record: CapabilityRecord, ghost base: seq<Files>,
        ghost before: Files) returns (r: PublishPoint)
      requires Tracks(base, before, id, Publish(record, DigestStaged), trace, files, Publish(record, RenameArtefact))
      modifies this
      ensures r == Published || r == PublishThrew
      ensures Tracks(base, before, id, Publish(record, DigestStaged), trace, files, Publish(record, r))
    {
      ghost var start := Publish(record, DigestStaged);
      hide Tracks;
      hide RecoverStep;
      hide AdoptStep;
      hide ReadStep;
      hide ReplaceStep;
      var artefactRenamed := Rename(StagedArtefact(id), ArtefactFinal);
      r := if artefactRenamed then RenameRecord else PublishThrew;
      Follow(base, before, id, start, old(trace), old(files), Publish(record, RenameArtefact), files, Publish(record, r));
      if !artefactRenamed { return; }
      ghost var trace1, files1 := trace, files;
      var recordRenamed := Rename(StagedRecord(id), RecordFinal);
      r := if recordRenamed then DropJournal else PublishThrew;
      Follow(base, before, id, start, trace1, files1, Publish(record, RenameRecord), files, Publish(record, r));
      if !recordRenamed { return; }
      ghost var trace2, files2 := trace, files;
      var removed := Unlink(JournalFile);
      r := if removed then Published else PublishThrew;
      Follow(base, before, id, start, trace2, files2, Publish(record, DropJournal), files, Publish(record, r));
    }

    /** Whether a file exists and holds these bytes: the look, then the read. */
    method Matches(path: Path, digest: Digest) returns (matches: bool)
      modifies this`trace
      ensures matches == Holding(files, path, digest)
      ensures trace == if path in files then old(trace) + [files] + [files] else old(trace) + [files]
    {
      var found := Exists(path);
      if !found { return false; }
      var held := Read(path);
      matches := Sha256(held.value) == digest;
    }

    /** Every system call, in order, is the one the recovery machine makes. */
    method RecoverAuthCapabilityBundle(id: int) returns (outcome: RecoveryOutcome)
      modifies this
      ensures Tracks(old(trace), old(files), id, Recover(SeekJournal), trace, files, Recover(Recovered(outcome)))
    {
      ghost var base, before, start := trace, files, Recover(SeekJournal);
      hide Tracks;
      hide PublishStep;
      hide AdoptStep;
      hide ReadStep;
      hide ReplaceStep;
      assert Tracks(base, before, id, start, trace, files, start) by { TracksNothing(base, before, id, start); }
      var pending := Exists(JournalFile);
      Follow(base, before, id, start, base, files, start, files, Recover(if pending then ReadJournal else Recovered(NothingPending)));
      if !pending { return NothingPending; }
      ghost var trace1 := trace;
      var text := Read(JournalFile);
      if !text.value.JournalText? {
        Follow(base, before, id, start, trace1, files, Recover(ReadJournal), files, Recover(Recovered(RecoveryRefused)));
        return RecoveryRefused;
      }
      var journal := text.value.journal;
      Follow(base, before, id, start, trace1, files, Recover(ReadJournal), files, Recover(SeekStagedArtefact(journal)));
      ghost var trace2 := trace;
      var stagedArtefact := Matches(journal.artefactStaged, journal.artefactDigest);
      FollowMatch(base, before, id, start, trace2, files, SeekStagedArtefact(journal));
      ghost var trace3 := trace;
      var stagedRecord := Matches(journal.recordStaged, journal.recordDigest);
      FollowMatch(base, before, id, start, trace3, files, SeekStagedRecord(journal, stagedArtefact));
      if stagedArtefact && stagedRecord {
        outcome := CommitStaged(id, journal, base, before);
        return;
      }
      ghost var trace4 := trace;
      var finalArtefact := Matches(journal.artefactFinal, journal.artefactDigest);
      FollowMatch(base, before, id, start, trace4, files, SeekFinalArtefact(journal));
      ghost var trace5 := trace;
      var finalRecord := Matches(journal.recordFinal, journal.recordDigest);
      FollowMatch(base, before, id, start, trace5, files, SeekFinalRecord(journal, finalArtefact));
      if !finalArtefact || !finalRecord { return RecoveryRefused; }
      outcome := RemoveLeftJournal(id, base, before);
    }

    /** Both renames of a recovery that found its staged files, then the journal. */
    method CommitStaged(id: int, journal: BundleJournal, ghost base: seq<Files>,
        ghost before: Files) returns (outcome: RecoveryOutcome)
      requires Tracks(base, before, id, Recover(SeekJournal), trace, files, Recover(CommitArtefact(journal)))
      modifies this
      ensures Tracks(base, before, id, Recover(SeekJournal), trace, files, Recover(Recovered(outcome)))
    {
      hide Tracks;
      hide PublishStep;
      hide AdoptStep;
      hide ReadStep;
      hide ReplaceStep;
      ghost var start := Recover(SeekJournal);
      var artefactRenamed := Rename(journal.artefactStaged, journal.artefactFinal);
      Follow(base, before, id, start, old(trace), old(files), Recover(CommitArtefact(journal)), files,
             Recover(if artefactRenamed then CommitRecord(journal) else Recovered(RecoveryThrew)));
      if !artefactRenamed { return RecoveryThrew; }
      ghost var trace1, files1 := trace, files;
      var recordRenamed := Rename(journal.recordStaged, journal.recordFinal);
      Follow(base, before, id, start, trace1, files1, Recover(CommitRecord(journal)), files,
             Recover(if recordRenamed then RemoveJournal else Recovered(RecoveryThrew)));
      if !recordRenamed { return RecoveryThrew; }
      outcome := RemoveLeftJournal(id, base, before);
    }

    method RemoveLeftJournal(id: int, ghost base: seq<Files>, ghost before: Files) returns (outcome: RecoveryOutcome)
      requires Tracks(base, before, id, Recover(SeekJournal), trace, files, Recover(RemoveJournal))
      modifies this
      ensures Tracks(base, before, id, Recover(SeekJournal), trace, files, Recover(Recovered(outcome)))
    {
      hide Tracks;
      var removed := Unlink(JournalFile);
      outcome := if removed then Completed else RecoveryThrew;
      Follow(base, before, id, Recover(SeekJournal), old(trace), old(files), Recover(RemoveJournal), files, Recover(Recovered(outcome)));
    }
  }

  lemma TracksNothing(base: seq<Files>, before: Files, id: int, start: Operation)
    ensures Tracks(base, before, id, start, base, before, start)
  {
    assert base == base + [];
  }

  /** The three calls of an atomic write, or its one refused create, seen from the publication. */
  lemma FollowWrite(base: seq<Files>, before: Files, id: int, start: Operation, trace: seq<Files>, files: Files,
      op: Operation)
    requires Tracks(base, before, id, start, trace, files, op) && op.Publish?
    requires op.publish == CreateRecord || op.publish == CreateJournal
    ensures var record := op.record;
            var first := op.publish == CreateRecord;
            var temporary := if first then TemporaryRecord(id) else TemporaryJournal(id);
            var file := if first then StagedRecord(id) else JournalFile;
            var content := if first then RecordText(record) else JournalText(JournalFor(id, record));
            var created := files[temporary := OtherBytes("")];
            var filled := created[temporary := content];
            var placed := Renamed(filled, temporary, file);
            if temporary in files then Tracks(base, before, id, start, trace + [files], files, Publish(record, PublishThrew))
            else Tracks(base, before, id, start, trace + [created] + [filled] + [placed], placed,
                        Publish(record, if first then CreateJournal else RenameArtefact))
  {
    hide Tracks;
    var record := op.record;
    var first := op.publish == CreateRecord;
    var temporary := if first then TemporaryRecord(id) else TemporaryJournal(id);
    var content := if first then RecordText(record) else JournalText(JournalFor(id, record));
    var created := files[temporary := OtherBytes("")];
    var filled := created[temporary := content];
    if temporary in files {
      Follow(base, before, id, start, trace, files, op, files, Publish(record, PublishThrew));
    } else {
      var placed := Renamed(filled, temporary, if first then StagedRecord(id) else JournalFile);
      var write := Publish(record, if first then WriteRecord else WriteJournal);
      var stage := Publish(record, if first then StageRecord else StageJournal);
      Follow(base, before, id, start, trace, files, op, created, write);
      Follow(base, before, id, start, trace + [created], created, write, filled, stage);
      Follow(base, before, id, start, trace + [created] + [filled], filled, stage, placed,
             Publish(record, if first then CreateJournal else RenameArtefact));
    }
  }

  /** A look and a read, or a look that finds nothing, seen from the recovery. */
  lemma FollowMatch(base: seq<Files>, before: Files, id: int, start: Operation, trace: seq<Files>, files: Files,
      p: RecoverPoint)
    requires Tracks(base, before, id, start, trace, files, Recover(p))
    requires p.SeekStagedArtefact? || p.SeekStagedRecord? || p.SeekFinalArtefact? || p.SeekFinalRecord?
    ensures var j := p.journal;
            var path := match p
              case SeekStagedArtefact(_) => j.artefactStaged
              case SeekStagedRecord(_, _) => j.recordStaged
              case SeekFinalArtefact(_) => j.artefactFinal
              case SeekFinalRecord(_, _) => j.recordFinal;
            var matches := Holding(files, path, if p.SeekStagedArtefact? || p.SeekFinalArtefact? then j.artefactDigest else j.recordDigest);
            Tracks(base, before, id, start, if path in files then trace + [files] + [files] else trace + [files], files,
              Recover(match p
                case SeekStagedArtefact(_) => SeekStagedRecord(j, matches)
                case SeekStagedRecord(_, artefact) => AfterStaged(j, artefact, matches)
                case SeekFinalArtefact(_) => SeekFinalRecord(j, matches)
                case SeekFinalRecord(_, artefact) => AfterFinal(artefact, matches)))
  {
    hide Tracks;
    hide PublishStep;
    hide AdoptStep;
    hide ReadStep;
    hide ReplaceStep;
    var p1 := RecoverStep(files, p);
    Follow(base, before, id, start, trace, files, Recover(p), p1.files, p1.operation);
    if p1.operation.recover.DigestStagedArtefact? || p1.operation.recover.DigestStagedRecord?
       || p1.operation.recover.DigestFinalArtefact? || p1.operation.recover.DigestFinalRecord? {
      var p2 := RecoverStep(files, p1.operation.recover);
      Follow(base, before, id, start, trace + [files], files, p1.operation, p2.files, p2.operation);
    }
  }
}
