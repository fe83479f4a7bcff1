/**
  The lifecycle record of a captured storage state, and the pre-flight that turns what it read into
  one verdict. Instants are whole milliseconds, cookie expiries are reals in seconds.
 */
module AuthCapability {
  import opened Wrappers
  import opened AddressCase
  import opened CookieApplicability

  datatype Environment = Dev | Next | Local

  /** The files of one artefact path. Every operation stages under names of its own. */
  datatype Path =
    | ArtefactFinal
    | RecordFinal
    | JournalFile
    | StagedArtefact(id: int)
    | StagedRecord(id: int)
    | TemporaryRecord(id: int)
    | TemporaryJournal(id: int)

  /** SHA-256, taken as injective. */
  datatype Digest = Sha256(of: Content)

  datatype CapabilityRecord = CapabilityRecord(
    captureMs: int,
    environment: Environment,
    origin: string,
    earliestCookieExpiry: Option<real>,
    validityWindowMs: int,
    artefactDigest: Digest)

  datatype BundleJournal = BundleJournal(
    artefactStaged: Path,
    artefactFinal: Path,
    artefactDigest: Digest,
    recordStaged: Path,
    recordFinal: Path,
    recordDigest: Digest)

  /** What a file holds. `rest` stands for the bytes of a storage state that are not cookie rows. */
  datatype Content =
    | StorageState(cookies: seq<Row>, rest: string)
    | RecordText(record: CapabilityRecord)
    | JournalText(journal: BundleJournal)
    | OtherBytes(bytes: string)

  const MIN_AUTH_VALIDITY_WINDOW_MS := 60 * 60 * 1000
  const MAX_AUTH_VALIDITY_WINDOW_MS := 30 * 24 * 60 * 60 * 1000
  /** The last instant a `Date` can hold, on either side of 1970. */
  const MAX_DATE_MS := 8_640_000_000_000_000

  predicate ValidDate(ms: int) {
    -MAX_DATE_MS <= ms <= MAX_DATE_MS
  }

  function ParseAuthCapabilityRecord(content: Content): Option<CapabilityRecord> {
    if content.RecordText? && ValidDate(content.record.captureMs)
       && MIN_AUTH_VALIDITY_WINDOW_MS <= content.record.validityWindowMs <= MAX_AUTH_VALIDITY_WINDOW_MS
    then Some(content.record) else None
  }

  datatype Request = Request(environment: Environment, targetOrigin: Option<string>, requiredValidityMs: Option<int>)

  /** What the system calls returned: an absent value is an absent file, or a read that threw. */
  datatype Readings = Readings(artefactPresent: bool, record: Option<Content>, artefact: Option<Content>, digest: Option<Digest>)

  datatype State = ValidState | ExpiredState | WrongEnvironment | UnknownAge | Missing | Unreadable

  datatype Verdict =
    | Threw
    | Refused(state: State)
    | Elapsed(remainingMs: real)
    | Valid(remainingMs: real, budgetWarning: bool)

  function StateOf(v: Verdict): Option<State> {
    match v
    case Threw => None
    case Refused(state) => Some(state)
    case Elapsed(_) => Some(ExpiredState)
    case Valid(_, _) => Some(ValidState)
  }

  function Scan(record: CapabilityRecord, cookies: seq<Row>, nowMs: int): Applicability {
    Inspect(cookies, record.origin, "/", nowMs / 1000)
  }

  function CookieExpiryMs(record: CapabilityRecord, earliest: Option<real>): Option<real> {
    if earliest.Some? then Some(earliest.value * 1000.0)
    else if record.earliestCookieExpiry.Some? then Some(record.earliestCookieExpiry.value * 1000.0)
    else None
  }

  function WindowEndMs(record: CapabilityRecord): int {
    record.captureMs + record.validityWindowMs
  }

  function TrustEndMs(record: CapabilityRecord, earliest: Option<real>): real {
    var cookie := CookieExpiryMs(record, earliest);
    var window := WindowEndMs(record) as real;
    if cookie.Some? && cookie.value < window then cookie.value else window
  }

  /** The decision once record, cookies and digest agree on one artefact in the right environment. */
  function Judge(record: CapabilityRecord, cookies: seq<Row>, requiredMs: Option<int>, nowMs: int): Verdict {
    if !ValidDate(WindowEndMs(record)) then Threw
    else
      var artefact := Scan(record, cookies, nowMs);
      var cookie := CookieExpiryMs(record, artefact.earliestApplicableExpiry);
      var remaining := TrustEndMs(record, artefact.earliestApplicableExpiry) - nowMs as real;
      if WindowEndMs(record) <= nowMs || artefact.applicableExpired || (cookie.Some? && cookie.value <= nowMs as real) then
        Elapsed(if remaining > 0.0 then remaining else 0.0)
      else Valid(remaining, requiredMs.Some? && remaining < requiredMs.value as real)
  }

  function EvaluateAuthCapabilityPreflight(request: Request, readings: Readings, nowMs: int): Verdict {
    if !ValidDate(nowMs) then Threw
    else if !readings.artefactPresent then Refused(Missing)
    else if readings.record.None? then Refused(UnknownAge)
    else
      var record := ParseAuthCapabilityRecord(readings.record.value);
      if record.None? then Refused(Unreadable)
      else if readings.artefact.None? || !readings.artefact.value.StorageState? then Refused(Unreadable)
      else if readings.digest.None? then Threw
      else if readings.digest.value != record.value.artefactDigest then Refused(UnknownAge)
      else if record.value.environment != request.environment then Refused(WrongEnvironment)
      else if request.targetOrigin.Some? && record.value.origin != request.targetOrigin.value then Refused(WrongEnvironment)
      else Judge(record.value, readings.artefact.value.cookies, request.requiredValidityMs, nowMs)
  }

  /** Record, artefact and digest were all read, and the digest is the one the record names. */
  predicate Coherent(readings: Readings) {
    && readings.artefactPresent
    && readings.record.Some? && ParseAuthCapabilityRecord(readings.record.value).Some?
    && readings.artefact.Some? && readings.artefact.value.StorageState?
    && readings.digest == Some(readings.record.value.record.artefactDigest)
  }

  predicate RightEnvironment(request: Request, record: CapabilityRecord) {
    record.environment == request.environment && (request.targetOrigin.None? || request.targetOrigin.value == record.origin)
  }

  predicate RecordRead(readings: Readings) {
    readings.record.Some? && ParseAuthCapabilityRecord(readings.record.value).Some?
  }

  predicate StateRead(readings: Readings) {
    readings.artefact.Some? && readings.artefact.value.StorageState?
  }

  /** Record and artefact were read, and the digest of the artefact is another one. */
  predicate DigestDiffers(readings: Readings) {
    && RecordRead(readings) && StateRead(readings)
    && readings.digest.Some? && readings.digest.value != readings.record.value.record.artefactDigest
  }

  /**
    Which state means what, exactly. Absence comes before doubt, doubt before the environment, the
    environment before the clock. Only a coherent reading of the right environment is judged at all.
   */
  lemma StatesExactly(request: Request, readings: Readings, nowMs: int)
    requires ValidDate(nowMs)
    ensures var verdict := EvaluateAuthCapabilityPreflight(request, readings, nowMs);
            var state := StateOf(verdict);
            && (state == Some(Missing) <==> !readings.artefactPresent)
            && (state == Some(UnknownAge) <==> readings.artefactPresent && (readings.record.None? || DigestDiffers(readings)))
            && (state == Some(Unreadable) <==>
                  readings.artefactPresent && readings.record.Some? && !(RecordRead(readings) && StateRead(readings)))
            && (state == Some(WrongEnvironment) <==> Coherent(readings) && !RightEnvironment(request, readings.record.value.record))
            && (state == Some(ValidState) || state == Some(ExpiredState) ==>
                  Coherent(readings) && RightEnvironment(request, readings.record.value.record))
            && (Coherent(readings) && RightEnvironment(request, readings.record.value.record) ==>
                  verdict == Judge(readings.record.value.record, readings.artefact.value.cookies, request.requiredValidityMs, nowMs))
  {
    hide Judge;
    JudgeNeverRefuses();
  }

  /**
    When the pre-flight throws instead of giving a state: on a clock outside the range of dates, on an
    artefact that vanished before its digest was taken, and on a window that ends outside that range.
   */
  lemma ThrowsExactly(request: Request, readings: Readings, nowMs: int)
    ensures EvaluateAuthCapabilityPreflight(request, readings, nowMs) == Threw <==>
            || !(-8_640_000_000_000_000 <= nowMs <= 8_640_000_000_000_000)
            || (readings.artefactPresent && RecordRead(readings) && StateRead(readings) && readings.digest.None?)
            || (Coherent(readings) && RightEnvironment(request, readings.record.value.record)
                && readings.record.value.record.captureMs + readings.record.value.record.validityWindowMs > 8_640_000_000_000_000)
    ensures RecordRead(readings) <==>
            && readings.record.Some? && readings.record.value.RecordText?
            && var record := readings.record.value.record;
            && -8_640_000_000_000_000 <= record.captureMs <= 8_640_000_000_000_000
            && 3_600_000 <= record.validityWindowMs <= 2_592_000_000
  {
  }

  lemma JudgeNeverRefuses()
    ensures forall record, cookies, required, nowMs :: !Judge(record, cookies, required, nowMs).Refused?
  {
  }

  // ----- what the clock does to the verdict -----

  predicate Applying(record: CapabilityRecord, row: Row) {
    row.Row? && Applies(row, record.origin, "/")
  }

  /** The whole second from which a row that is neither timed nor of the session counts as expired. */
  function StaleFromMs(row: Row): int
    requires row.Row? && row.expires.Some?
  {
    1000 * -((-row.expires.value).Floor)
  }

  predicate Untimed(row: Row) {
    row.Row? && row.expires.Some? && row.expires.value <= 0.0 && !SessionRow(row)
  }

  /** No applicable row with a non-positive expiry turns stale before the trust end. */
  predicate NothingTurnsStale(record: CapabilityRecord, cookies: seq<Row>, trustEnd: real) {
    forall row :: row in cookies && Applying(record, row) && Untimed(row) ==> trustEnd <= StaleFromMs(row) as real
  }

  lemma FloorOfSeconds(ms: int, seconds: real)
    ensures seconds * 1000.0 > ms as real ==> seconds > (ms / 1000) as real
    ensures -((-seconds).Floor) * 1000 > ms <==> seconds > (ms / 1000) as real
  {
    var q, r := ms / 1000, ms % 1000;
    assert ms == 1000 * q + r && 0 <= r < 1000;
    assert ms as real == 1000.0 * q as real + r as real;
    var up := -((-seconds).Floor);
    assert up as real >= seconds > up as real - 1.0;
    assert up > q <==> seconds > q as real;
  }

  /** The earliest expiry of a scan does not depend on the instant, and each row can be asked alone. */
  lemma ScanFacts(record: CapabilityRecord, cookies: seq<Row>, nowMs: int)
    ensures var r := Scan(record, cookies, nowMs);
            && r.earliestApplicableExpiry == Scan(record, cookies, 0).earliestApplicableExpiry
            && (r.applicableExpired <==> exists row :: row in cookies && Applying(record, row) && Expired(row, nowMs / 1000))
            && (forall row :: row in cookies && Applying(record, row) && Timed(row) ==>
                  r.earliestApplicableExpiry.Some? && r.earliestApplicableExpiry.value <= row.expires.value)
  {
    ScanByTest(cookies, record.origin, "/", nowMs / 1000);
  }

  lemma RowAt(row: Row, t: int)
    requires row.Row?
    ensures Untimed(row) ==> (Expired(row, t / 1000) <==> StaleFromMs(row) <= t)
    ensures Timed(row) && row.expires.value * 1000.0 > t as real ==> !Expired(row, t / 1000)
    ensures row.expires.None? ==> Expired(row, t / 1000)
    ensures row.expires.None? || SessionRow(row) || Timed(row) || Untimed(row)
    ensures SessionRow(row) ==> !Expired(row, t / 1000)
  {
    if row.expires.Some? { FloorOfSeconds(t, row.expires.value); }
  }

  /** Before the trust end only a row that is neither timed nor of the session can run out. */
  lemma OnlyUntimedRunOut(record: CapabilityRecord, cookies: seq<Row>, nowMs: int, t: int)
    requires !Scan(record, cookies, nowMs).applicableExpired && nowMs <= t
    requires t as real < TrustEndMs(record, Scan(record, cookies, nowMs).earliestApplicableExpiry)
    ensures Scan(record, cookies, t).applicableExpired <==>
            exists row :: row in cookies && Applying(record, row) && Untimed(row) && StaleFromMs(row) <= t
  {
    ScanFacts(record, cookies, nowMs);
    ScanFacts(record, cookies, t);
    hide Scan;
    hide Applies;
    forall row | row in cookies && Applying(record, row) && row.Row?
      ensures Expired(row, t / 1000) <==> Untimed(row) && StaleFromMs(row) <= t {
      RowAt(row, t);
      RowAt(row, nowMs);
    }
  }

  /** At a later instant a pre-flight that was VALID is VALID still, up to the trust end and the stale rows. */
  lemma LaterVerdict(record: CapabilityRecord, cookies: seq<Row>, required: Option<int>, nowMs: int, t: int)
    requires Judge(record, cookies, required, nowMs).Valid? && nowMs <= t
    ensures var trustEnd := nowMs as real + Judge(record, cookies, required, nowMs).remainingMs;
            Judge(record, cookies, required, t).Valid? <==>
              && t as real < trustEnd
              && forall row :: row in cookies && Applying(record, row) && Untimed(row) ==> t < StaleFromMs(row)
  {
    ScanFacts(record, cookies, nowMs);
    ScanFacts(record, cookies, t);
    hide Scan;
    hide Applying;
    hide Untimed;
    hide StaleFromMs;
    if t as real < TrustEndMs(record, Scan(record, cookies, nowMs).earliestApplicableExpiry) {
      OnlyUntimedRunOut(record, cookies, nowMs, t);
    }
  }

  /**
    The remaining validity is exact: for fixed files, VALID at `nowMs` implies VALID at a later `t`
    iff `t - nowMs` is less than the reported remainder. That holds iff no applicable row with a
    non-positive expiry other than -1 turns stale before the trust end.
   */
  lemma RemainingIsExactly(record: CapabilityRecord, cookies: seq<Row>, required: Option<int>, nowMs: int)
    requires Judge(record, cookies, required, nowMs).Valid?
    ensures var trustEnd := TrustEndMs(record, Scan(record, cookies, nowMs).earliestApplicableExpiry);
            var remaining := Judge(record, cookies, required, nowMs).remainingMs;
            NothingTurnsStale(record, cookies, trustEnd) <==>
            forall t :: nowMs <= t ==> (Judge(record, cookies, required, t).Valid? <==> (t - nowMs) as real < remaining)
  {
    var trustEnd := nowMs as real + Judge(record, cookies, required, nowMs).remainingMs;
    if NothingTurnsStale(record, cookies, trustEnd) {
      forall t | nowMs <= t
        ensures Judge(record, cookies, required, t).Valid? <==> (t - nowMs) as real < trustEnd - nowMs as real {
        LaterVerdict(record, cookies, required, nowMs, t);
      }
    } else {
      var row :| row in cookies && Applying(record, row) && Untimed(row) && trustEnd > StaleFromMs(row) as real;
      var t := StaleFromMs(row);
      ScanFacts(record, cookies, nowMs);
      RowAt(row, nowMs);
      LaterVerdict(record, cookies, required, nowMs, t);
    }
  }

  lemma ExampleHost()
    ensures AppHost("http://h") == "h"
  {
    var origin := "http://h";
    assert Lower(origin[..8])[4] == ':' && "https://"[4] == 's';
    assert Lower(origin[..7]) == "http://";
    assert origin[7..] == "h" && "h"[1..] == "";
    assert UpToSlash("") == "" && UpToSlash("h") == ['h'] + UpToSlash("h"[1..]);
  }

  lemma ExampleScan(atSeconds: int)
    ensures Inspect([Row(Some("h"), Some("/"), Some(0.0))], "http://h", "/", atSeconds)
            == Applicability(1, 1, atSeconds >= 0, None)
  {
    ExampleHost();
    hide AppHost;
    var row := Row(Some("h"), Some("/"), Some(0.0));
    assert Applies(row, "http://h", "/");
    assert [row][..0] == [];
    assert Applicable([row], "http://h", "/") == Applicable([], "http://h", "/") + [row] == [row];
    assert Expiries([row]) == Expiries([]) == [];
    assert row in [row] && (Expired(row, atSeconds) <==> atSeconds >= 0);
  }

  /** Before 1970 a row that expires at 0 passes the floored test and turns stale at 0, early in the window. */
  lemma RemainingIsNotExactBefore1970()
    ensures var record := CapabilityRecord(-10_000, Dev, "http://h", None, MIN_AUTH_VALIDITY_WINDOW_MS, Sha256(OtherBytes("")));
            var cookies := [Row(Some("h"), Some("/"), Some(0.0))];
            && Judge(record, cookies, None, -10_000) == Valid(3_600_000.0, false)
            && !Judge(record, cookies, None, 0).Valid?
  {
    ExampleScan(-10);
    ExampleScan(0);
    hide Inspect;
    assert -10_000 / 1000 == -10;
  }

  lemma NoneUntimed(record: CapabilityRecord, cookies: seq<Row>, required: Option<int>, nowMs: int)
    requires 0 <= nowMs && Judge(record, cookies, required, nowMs).Valid?
    ensures forall row :: row in cookies && Applying(record, row) ==> !Untimed(row)
  {
    assert !Scan(record, cookies, nowMs).applicableExpired;
    ScanFacts(record, cookies, nowMs);
    hide Judge;
    hide Scan;
    hide Applies;
    forall row | row in cookies && Applying(record, row) ensures !Untimed(row) {
      RowAt(row, nowMs);
    }
  }

  lemma JudgedRemainder(record: CapabilityRecord, cookies: seq<Row>, required: Option<int>, nowMs: int, t: int)
    requires 0 <= nowMs <= t && Judge(record, cookies, required, nowMs).Valid?
    ensures Judge(record, cookies, required, t).Valid? <==>
            (t - nowMs) as real < Judge(record, cookies, required, nowMs).remainingMs
  {
    hide Judge;
    hide Applying;
    hide Untimed;
    NoneUntimed(record, cookies, required, nowMs);
    LaterVerdict(record, cookies, required, nowMs, t);
  }

  lemma TrustEndsWithinDates(record: CapabilityRecord, cookies: seq<Row>, required: Option<int>, nowMs: int)
    requires Judge(record, cookies, required, nowMs).Valid?
    ensures nowMs as real + Judge(record, cookies, required, nowMs).remainingMs <= MAX_DATE_MS as real
  {
  }

  /** On a clock at or after 1970 there is no exception: the remaining validity is exact. */
  lemma RemainingIsExact(request: Request, readings: Readings, nowMs: int, t: int)
    requires 0 <= nowMs <= t
    requires EvaluateAuthCapabilityPreflight(request, readings, nowMs).Valid?
    ensures EvaluateAuthCapabilityPreflight(request, readings, t).Valid? <==>
            (t - nowMs) as real < EvaluateAuthCapabilityPreflight(request, readings, nowMs).remainingMs
  {
    var record, cookies := readings.record.value.record, readings.artefact.value.cookies;
    hide Judge;
    assert EvaluateAuthCapabilityPreflight(request, readings, nowMs) == Judge(record, cookies, request.requiredValidityMs, nowMs);
    JudgedRemainder(record, cookies, request.requiredValidityMs, nowMs, t);
    TrustEndsWithinDates(record, cookies, request.requiredValidityMs, nowMs);
    if ValidDate(t) {
      assert EvaluateAuthCapabilityPreflight(request, readings, t) == Judge(record, cookies, request.requiredValidityMs, t);
    }
  }

  lemma ExpiredRowsStayExpired(record: CapabilityRecord, cookies: seq<Row>, nowMs: int, t: int)
    requires nowMs <= t && Scan(record, cookies, nowMs).applicableExpired
    ensures Scan(record, cookies, t).applicableExpired
  {
    ScanFacts(record, cookies, nowMs);
    ScanFacts(record, cookies, t);
    hide Scan;
    hide Applies;
    var row :| row in cookies && Applying(record, row) && Expired(row, nowMs / 1000);
    assert Expired(row, t / 1000);
  }

  /** EXPIRED is absorbing: no later instant turns it into anything else. */
  lemma ExpiredIsAbsorbing(request: Request, readings: Readings, nowMs: int, t: int)
    requires nowMs <= t && ValidDate(t)
    requires StateOf(EvaluateAuthCapabilityPreflight(request, readings, nowMs)) == Some(ExpiredState)
    ensures StateOf(EvaluateAuthCapabilityPreflight(request, readings, t)) == Some(ExpiredState)
  {
    var record, cookies := readings.record.value.record, readings.artefact.value.cookies;
    assert Judge(record, cookies, request.requiredValidityMs, nowMs).Elapsed?;
    ElapsedStays(record, cookies, request.requiredValidityMs, nowMs, t);
    hide Judge;
  }

  lemma ElapsedStays(record: CapabilityRecord, cookies: seq<Row>, required: Option<int>, nowMs: int, t: int)
    requires nowMs <= t && Judge(record, cookies, required, nowMs).Elapsed?
    ensures Judge(record, cookies, required, t).Elapsed?
  {
    ScanFacts(record, cookies, nowMs);
    ScanFacts(record, cookies, t);
    if Scan(record, cookies, nowMs).applicableExpired { ExpiredRowsStayExpired(record, cookies, nowMs, t); }
    hide Scan;
    hide Applying;
    hide Expired;
  }

  /**
    Without a budget warning the artefact stays VALID over the whole required budget; with one it is
    no longer VALID when the budget ends.
   */
  lemma BudgetWarningForetells(request: Request, readings: Readings, nowMs: int)
    requires 0 <= nowMs && request.requiredValidityMs.Some? && 0 <= request.requiredValidityMs.value
    requires EvaluateAuthCapabilityPreflight(request, readings, nowMs).Valid?
    ensures var end := nowMs + request.requiredValidityMs.value;
            if EvaluateAuthCapabilityPreflight(request, readings, nowMs).budgetWarning
            then !EvaluateAuthCapabilityPreflight(request, readings, end).Valid?
            else forall t :: nowMs <= t < end ==> EvaluateAuthCapabilityPreflight(request, readings, t).Valid?
  {
    var end := nowMs + request.requiredValidityMs.value;
    RemainingIsExact(request, readings, nowMs, end);
    forall t | nowMs <= t < end
      ensures EvaluateAuthCapabilityPreflight(request, readings, t).Valid? <==>
              (t - nowMs) as real < EvaluateAuthCapabilityPreflight(request, readings, nowMs).remainingMs {
      RemainingIsExact(request, readings, nowMs, t);
    }
    hide EvaluateAuthCapabilityPreflight;
    hide Judge;
  }

  predicate RunsOn(row: Row, nowMs: int) {
    SessionRow(row) || (Timed(row) && nowMs as real < row.expires.value * 1000.0)
  }

  predicate AllRunOn(record: CapabilityRecord, cookies: seq<Row>, nowMs: int) {
    forall row :: row in cookies && Applying(record, row) ==> RunsOn(row, nowMs)
  }

  predicate AllSession(record: CapabilityRecord, cookies: seq<Row>) {
    forall row :: row in cookies && Applying(record, row) ==> SessionRow(row)
  }

  lemma RunsOnAt(row: Row, nowMs: int)
    requires 0 <= nowMs && row.Row?
    ensures !Expired(row, nowMs / 1000) ==> SessionRow(row) || Timed(row)
    ensures RunsOn(row, nowMs) ==> !Expired(row, nowMs / 1000)
    ensures !(SessionRow(row) && Timed(row))
  {
    RowAt(row, nowMs);
  }

  lemma ScanOfRunning(record: CapabilityRecord, cookies: seq<Row>, nowMs: int)
    requires 0 <= nowMs && AllRunOn(record, cookies, nowMs)
    ensures var r := Scan(record, cookies, nowMs);
            && !r.applicableExpired
            && (r.earliestApplicableExpiry.Some? ==> nowMs as real < r.earliestApplicableExpiry.value * 1000.0)
            && (AllSession(record, cookies) <==> r.earliestApplicableExpiry.None?)
  {
    var r := Scan(record, cookies, nowMs);
    ScanByTest(cookies, record.origin, "/", nowMs / 1000);
    forall row | row in cookies && Applying(record, row)
      ensures !Expired(row, nowMs / 1000) && !(SessionRow(row) && Timed(row)) && (SessionRow(row) || Timed(row)) {
      RunsOnAt(row, nowMs);
    }
    hide Applies;
    hide Expired;
    hide Timed;
    hide SessionRow;
    hide Inspect;
    if r.earliestApplicableExpiry.Some? {
      var row :| row in cookies && Applying(record, row) && Timed(row) && row.expires == r.earliestApplicableExpiry;
      assert RunsOn(row, nowMs);
    }
  }

  lemma RunningOfScan(record: CapabilityRecord, cookies: seq<Row>, nowMs: int)
    requires 0 <= nowMs && !Scan(record, cookies, nowMs).applicableExpired
    requires var earliest := Scan(record, cookies, nowMs).earliestApplicableExpiry;
             earliest.Some? ==> nowMs as real < earliest.value * 1000.0
    ensures AllRunOn(record, cookies, nowMs)
  {
    ScanFacts(record, cookies, nowMs);
    hide Applies;
    hide Scan;
    forall row | row in cookies && Applying(record, row) ensures RunsOn(row, nowMs) {
      RunsOnAt(row, nowMs);
    }
  }

  /**
    The floored-seconds test and the millisecond minimum say one thing: from 1970 on, VALID means
    that every applicable row is a session row or expires after this very millisecond, inside the
    declared window; without an applicable timed row the record's own earliest expiry stands in. A row
    is applicable iff it covers the root path of the host that the record's origin names.
   */
  lemma ValidExactly(record: CapabilityRecord, cookies: seq<Row>, required: Option<int>, nowMs: int)
    requires 0 <= nowMs
    ensures Judge(record, cookies, required, nowMs).Valid? <==>
            && nowMs < WindowEndMs(record) <= MAX_DATE_MS
            && AllRunOn(record, cookies, nowMs)
            && (AllSession(record, cookies) && record.earliestCookieExpiry.Some? ==>
                  nowMs as real < record.earliestCookieExpiry.value * 1000.0)
    ensures forall host :: OriginOf(record.origin, host) ==>
              (Judge(record, cookies, required, nowMs).Valid? <==>
                 && nowMs < record.captureMs + record.validityWindowMs <= 8_640_000_000_000_000
                 && (forall row :: row in cookies && Covers(row, host, "/") ==>
                       row.expires == Some(-1.0) || (row.expires.Some? && nowMs as real < row.expires.value * 1000.0))
                 && ((forall row :: row in cookies && Covers(row, host, "/") ==> row.expires == Some(-1.0)) && record.earliestCookieExpiry.Some? ==>
                       nowMs as real < record.earliestCookieExpiry.value * 1000.0))
  {
    forall host, row | OriginOf(record.origin, host) ensures Applying(record, row) <==> Covers(row, host, "/") {
      AppliesExactly(row, record.origin, host, "/");
    }
    assert forall host, row :: Covers(row, host, "/") ==> row.Row?;
    hide Covers;
    hide Applying;
    hide OriginOf;
    if AllRunOn(record, cookies, nowMs) {
      ScanOfRunning(record, cookies, nowMs);
    } else if Judge(record, cookies, required, nowMs).Valid? {
      RunningOfScan(record, cookies, nowMs);
    }
    hide Scan;
    hide AllRunOn;
    hide AllSession;
  }

  // ----- what is left -----

  /** An instant that ends the trust: the window's end, a covering timed row's expiry, or the recorded stand-in for these. */
  predicate EndsTrust(record: CapabilityRecord, cookies: seq<Row>, host: string, end: real) {
    || end == (record.captureMs + record.validityWindowMs) as real
    || (exists row :: row in cookies && Covers(row, host, "/") && Timed(row) && end == row.expires.value * 1000.0)
    || ((forall row :: row in cookies && Covers(row, host, "/") ==> !Timed(row))
        && record.earliestCookieExpiry.Some? && end == record.earliestCookieExpiry.value * 1000.0)
  }

  ghost predicate FirstEnd(record: CapabilityRecord, cookies: seq<Row>, host: string, end: real) {
    EndsTrust(record, cookies, host, end) && forall e :: EndsTrust(record, cookies, host, e) ==> end <= e
  }

  lemma TrustEndIsFirst(record: CapabilityRecord, cookies: seq<Row>, nowMs: int, host: string)
    requires OriginOf(record.origin, host)
    ensures FirstEnd(record, cookies, host, TrustEndMs(record, Scan(record, cookies, nowMs).earliestApplicableExpiry))
  {
    EarliestApplicableIsMinimum(cookies, record.origin, host, "/", nowMs / 1000);
    hide OriginOf;
    hide RowsWhere;
    hide Expired;
    EarliestEnds(record, cookies, host, Scan(record, cookies, nowMs).earliestApplicableExpiry);
    hide EndsTrust;
    hide FirstEnd;
    hide Inspect;
    hide Covers;
  }

  /** The minimum of the covering timed rows gives the first end. */
  lemma EarliestEnds(record: CapabilityRecord, cookies: seq<Row>, host: string, earliest: Option<real>)
    requires earliest.None? <==> forall row :: row in cookies && Covers(row, host, "/") ==> !Timed(row)
    requires earliest.Some? ==> exists row :: row in cookies && Covers(row, host, "/") && Timed(row) && row.expires == earliest
    requires earliest.Some? ==>
               forall row :: row in cookies && Covers(row, host, "/") && Timed(row) ==> earliest.value <= row.expires.value
    ensures FirstEnd(record, cookies, host, TrustEndMs(record, earliest))
  {
    hide Covers;
  }

  /**
    What the verdict reports: the time left until the first instant that ends the trust, with a warning
    exactly when that is less than the required budget; zero when it is EXPIRED and that instant is over.
   */
  lemma RemainderExactly(record: CapabilityRecord, cookies: seq<Row>, required: Option<int>, nowMs: int, host: string, end: real)
    requires OriginOf(record.origin, host) && FirstEnd(record, cookies, host, end)
    ensures var verdict := Judge(record, cookies, required, nowMs);
            && !verdict.Refused?
            && (verdict.Valid? ==> verdict.remainingMs == end - nowMs as real > 0.0)
            && (verdict.Valid? ==> (verdict.budgetWarning <==> required.Some? && end - nowMs as real < required.value as real))
            && (verdict.Elapsed? ==> verdict.remainingMs == if end > nowMs as real then end - nowMs as real else 0.0)
  {
    TrustEndIsFirst(record, cookies, nowMs, host);
    var trustEnd := TrustEndMs(record, Scan(record, cookies, nowMs).earliestApplicableExpiry);
    assert trustEnd == end;
    hide EndsTrust;
    hide Scan;
    hide FirstEnd;
  }
}
