# Nightwatch containment and auth lifecycle: a verified model

Six components of Nightwatch are modelled here in Dafny, in the form the TypeScript gives them, and
their central promises are proved for all inputs, all runs and all interleavings.

| component | modules | in one line |
|---|---|---|
| auth bundle | `AuthCapability`, `AuthBundle`, `AuthBundleRace`, `AuthBundleReturn`, `AuthBundleCrash`, `AuthBundleOverlap`, `AuthBundleAlone`, `AuthBundleStore`, `CookieApplicability` | a journaled two-file commit, its recovery, and the non-atomic pre-flight that reads the pair |
| proxy effect journal | `ProxyJournal`, `ProxyRecords`, `ProxyEvidence`, `EventLedger` | interleaved handlers that record an attempt, dial, record the outcome, and the readers and the summary of their log |
| WebSocket fixture | `WebSocketFrames` | an incremental frame decoder, unmasker and echo encoder over a growing buffer |
| address policy | `AddressText`, `AddressGrammar`, `AddressRanges`, `AddressCase`, `AddressAdmission`, `AddressDecisions` | exact IPv4/IPv6 parser and printer, range classification, set admission, the resolver step |
| port leases | `PortLease`, `PortLeaseRace`, `PortLeaseAlone` | bounded first-fit over exclusive-create files, alone and among concurrent processes |
| relay | `RelayDeadline`, `Relay`, `RelaySafety`, `RelayEndings`, `RelayServer` | one deadline over credentials, request and redirect, and write-once observations |

`Wrappers` and `Arithmetic` hold the shared result types and the few facts about powers and division
that the proofs use.

How the concurrent parts are modelled: a state, a list of actions, and a total step function in
which an action that is not enabled changes nothing. A theorem about every run is then a theorem
about every list of actions. One step is one system call (auth bundle, leases) or one stretch of
code between two `await`s (proxy, relay). A crash is an operation that is never stepped again.
Classes (`BundleStore`, `ProxyServer`, `EchoSocket`, `LeaseDirectory`, `RelayTimer`, `RelayServer`)
change their fields in place as the source does, and their contracts equate the new state with the
step functions the theorems speak about.

## Findings

- **A torn bundle is permanent.** The comment at src/auth/capabilityLifecycle.ts:401-404 says that a
  crash after the journal exists is completed by recovery. The code does not do that between its two
  renames: neither both staged files nor both finals match, so recovery refuses, every later recovery
  refuses too, and only a new publication opens the gate again (`CrashThenRecover`, `RecoveryExactly`,
  `TornForever`). The same comment says that a failure before the first rename removes the staged files
  and the journal; no code does that.
- **The digest check passes on the wrong cookies exactly when recorded bytes can return.** A pre-flight can judge
  other cookies than those of the recorded artefact iff a recorded artefact (the first one, a published
  one or an adopted one) can be installed once more after another storage state (`MisjudgesExactly`).
  Distinct artefacts rule that out (`DistinctNeverReturn`) but are more than is needed: equal artefacts
  of which none can be recorded do no harm (`EqualArtefactsCanBeHarmless`).
  `SameBytesTwiceDefeatTheDigest` is a run that ends VALID on the wrong cookies.
- **Before 1970 the remaining validity is not exact.** A row that expires at 0 passes the floored test
  at a negative instant. The exact condition is `RemainingIsExactly`; from 1970 on it always holds.
- **After a close frame the split decides the fate of the socket, not the bytes.** The bytes sent never
  depend on the split (`SentIsIndependentOfChunking`). But the data callback goes on listening after the
  close answer, so a later chunk can make it call the ended socket, which refuses the bytes and destroys
  it. Whether that happens is independent of the split exactly when nothing answerable follows the first
  close frame (`ChunkingIrrelevantExactly`).
- **The strict reader has no pairs to check in the proxy's own logs.** The handlers hand `record` an effect id and
  a phase for the two halves of each effect, but the event it builds at src/proxy/server.ts:209-243 takes over
  neither; they occur only in its parameter type (line 205) and at the six call sites. So no record of a log
  has an effect, and the reader accepts a log exactly when every line of it is whole, whatever threw, was
  lost or was never dialled (`ReaderAcceptsExactly`, `ThrownDialIsAccepted`), although src/proxy/events.ts:156-163
  promises that an effect without its evidence is never summarized as a complete run. Its verdict agrees with
  the one on a log with both fields iff an append was torn or no effect is half recorded
  (`VerdictsAgreeExactly`). The records still tell each dial from every other by position: the line just
  before a dial is its own, with the number that is in the effect id (`JournalIsSafe`, `DialsAreOwn`).
- **The counters of an accepted log need not balance.** `connectAttempted` is twice the settled connections plus
  one for every attempt whose outcome record is missing (`AttemptsCountedTwiceExactly`), and the strict reader
  notices none of them (`MissedOutcomeIsAccepted`). With both fields its acceptance would have guaranteed
  the balance (`PairsWouldBalance`).
- **A resolver answer of more than eight records ends the evidence.** It fails the admission, as it should, with the
  number of its records as answer count; but a record with an answer count above eight is invalid
  (src/proxy/events.ts:57), so it is not written, the proxy takes that for an evidence failure, and no later
  request is recorded or dialled (`RecordableExactly`, `OversizedAnswersStopTheEvidence`).
- **Overlapping publications can tear the pair behind an open gate.** They share one journal path, so the first to
  finish drops the journal of one that stands between its renames. Over all interleavings this happens iff
  two publications stage different artefacts (`OverlapTearsExactly`); one after the other they never do,
  crashes included (`OpenGateShowsWholePair`).
- **Port 1024 is never reached by wrapping**: the modulus starts over at 1025 (`CandidateForm`).
- **Dead-owner reclaim breaks mutual exclusion** between two processes that read the same dead lease;
  with at least two processes this is the only way (`ExclusiveExactlyWithoutDeadLease`).
- **An aborted native run still calls the fetcher** when it has no credentials to fetch: the call is
  evaluated before `withDeadline` looks at the deadline. Its result is never used
  (`AbortedCallerStillFetches`, `SettledFetchIsDiscarded`).
- **Cookie domains do not match an origin with an explicit port** (`PortHidesDomain`).

## Model

| member | source | states |
|---|---|---|
| AuthBundleRace.ValidUsesOneArtefact | src/auth/capabilityLifecycle.ts:595-702 | under any interleaving of publications, recoveries, replacements, adoptions and pre-flights, a VALID verdict judged the cookies of exactly the bytes its record was written for, unless some recorded artefact can return after another one |
| AuthBundleReturn.MisjudgesExactly | src/auth/capabilityLifecycle.ts:606-634 | some interleaving makes a pre-flight judge other cookies than those of the recorded artefact iff a first, published or adopted artefact can be installed once more after another storage state |
| AuthBundleRace.NeverMisjudges | src/auth/capabilityLifecycle.ts:606-634 | where no recorded artefact can return, no run of any operations passes the digest check on other cookies |
| AuthBundleRace.StillStagedReturns | src/auth/capabilityLifecycle.ts:624-634 | a recorded artefact that is out of place behind another storage state and still staged is one of the three ways of returning |
| AuthBundleRace.DistinctNeverReturn | src/auth/capabilityLifecycle.ts:432-433 | artefacts that are new and pairwise distinct never return |
| AuthBundleReturn.FirstCrossed | src/auth/capabilityLifecycle.ts:606-634 | if the artefact of the first record can return, some run crosses its record with other cookies |
| AuthBundleReturn.PublishedCrossed | src/auth/capabilityLifecycle.ts:428-438 | if a published artefact is staged again behind another one, some run crosses its record with the cookies of that other |
| AuthBundleReturn.AdoptedCrossed | src/auth/capabilityLifecycle.ts:538-548 | if an adopted artefact can return, some run crosses the adopted record with other cookies |
| AuthBundleReturn.SameBytesTwiceDefeatTheDigest | src/auth/capabilityLifecycle.ts:624-634 | with the first bytes staged again, a run ends VALID on the cookies of the artefact in between |
| AuthBundleReturn.EqualArtefactsCanBeHarmless | src/auth/capabilityLifecycle.ts:624-634 | two replacements with equal bytes that no record names leave nothing that could return |
| AuthBundleRace.RunKeeps | src/auth/capabilityLifecycle.ts:428-476 | in every reachable state the artefact in place and the record on disk have a known origin, and a reader with other cookies than the recorded ones can never meet the recorded digest |
| AuthBundleRace.StepKeeps | src/auth/capabilityLifecycle.ts:428-476 | one system call of any operation keeps that invariant and whatever every other operation has read or written so far |
| AuthBundleRace.PublishKeeps | src/auth/capabilityLifecycle.ts:428-438 | each call of a publication keeps it, because the artefact is renamed before the record |
| AuthBundleRace.RecoverKeeps | src/auth/capabilityLifecycle.ts:455-476 | each call of a recovery keeps it, from whichever journal it happened to read |
| AuthBundleRace.AdoptKeeps | src/auth/capabilityLifecycle.ts:538-548 | each call of an adoption keeps it although it reads the artefact twice |
| AuthBundleRace.ReplaceKeeps | src/browser/fixtures/storageState.ts:592-623 | each call of an artefact-only replacement keeps it |
| AuthBundleRace.ReadKeeps | src/auth/capabilityLifecycle.ts:606-634 | a read changes nothing, and after a cookie read that differs from the recorded bytes nobody is left who could install those |
| AuthBundleCrash.OpenGateShowsWholePair | src/auth/capabilityLifecycle.ts:428-476 | after any publications and recoveries, each crashing after any call, an absent journal means the finals are a whole pair: the first one or one publication's |
| AuthBundleCrash.ReaderRefusedOrWhole | src/auth/capabilityLifecycle.ts:723-739 | after any such crashes a gated pre-flight is either refused as pending or reads everything from one whole pair |
| AuthBundleCrash.ReaderSeesFinals | src/auth/capabilityLifecycle.ts:606-634 | on a quiet disk the pre-flight changes nothing, is refused iff the journal is there, and otherwise judges the finals as they stand |
| AuthBundleCrash.RecoveryExactly | src/auth/capabilityLifecycle.ts:455-476 | on any such disk recovery does nothing without a journal, completes iff the staged artefact is still there or the pair is whole, and refuses exactly between the renames, changing no file |
| AuthBundleCrash.CrashThenRecover | src/auth/capabilityLifecycle.ts:428-476 | outcome and finals of a recovery after a publication that crashed after call `n`, for every `n` |
| AuthBundleCrash.PublishCrash | src/auth/capabilityLifecycle.ts:428-438 | gate and finals after every prefix of a publication: old pair, shut gate, torn pair, new pair |
| AuthBundleCrash.TornForever | src/auth/capabilityLifecycle.ts:458-475 | no number of recoveries, crashing anywhere, changes a torn disk |
| AuthBundleCrash.RecoverCommits | src/auth/capabilityLifecycle.ts:461-467 | a recovery that found both staged files passes the same torn and committed stages and ends on the new pair |
| AuthBundleCrash.RecoverSeesFinals | src/auth/capabilityLifecycle.ts:468-475 | without the staged artefact the finals alone decide, and a refusal changes nothing |
| AuthBundleCrash.RecoverPending | src/auth/capabilityLifecycle.ts:455-476 | wherever a recovery crashes, the transaction is still pending at one of its three stages or the new pair is whole |
| AuthBundleCrash.SerialRun | src/auth/capabilityLifecycle.ts:428-476 | every sequence of crashing turns leaves either a whole pair or a journal at a known stage |
| AuthBundleOverlap.OverlapTearsExactly | src/auth/capabilityLifecycle.ts:428-438 | over all interleavings of publications, recoveries and pre-flights, some run shows a torn pair behind an open gate iff two publications that would succeed alone stage different artefacts |
| AuthBundleOverlap.Overtaken | src/auth/capabilityLifecycle.ts:430-438 | the run: one publication up to its journal removal, another up to between its renames, then the removal, which leaves the second artefact beside the first record |
| AuthBundleOverlap.NeverTorn | src/auth/capabilityLifecycle.ts:428-476 | with one staged artefact only, an open gate shows a whole pair in every interleaving, with any number of recoveries |
| AuthBundleOverlap.OverlapRunKeeps | src/auth/capabilityLifecycle.ts:428-476 | then every reachable state keeps the gate shut from the first artefact rename until a published record is in place |
| AuthBundleStore.BundleStore.PublishAuthCapabilityBundle | src/auth/capabilityLifecycle.ts:406-446 | the method makes the very sequence of file states the publication machine makes, call by call |
| AuthBundleStore.BundleStore.CommitPublication | src/auth/capabilityLifecycle.ts:430-438 | artefact rename, record rename, journal removal, in this order and with every throw |
| AuthBundleStore.BundleStore.RecoverAuthCapabilityBundle | src/auth/capabilityLifecycle.ts:455-476 | the method makes the very sequence of file states the recovery machine makes |
| AuthBundleStore.BundleStore.WriteFileAtomically | src/auth/capabilityLifecycle.ts:299-326 | one temporary, its content and the rename, with every state in between, or no change when the exclusive create throws |
| AuthBundleAlone.AdoptsExactly | src/auth/capabilityLifecycle.ts:522-548 | an undisturbed adoption throws and changes nothing iff a record is in the way, or no storage state is there; otherwise its record has the artefact's digest and the minimum of all positive expiries in that artefact, whatever host they are for, and no other file changes |
| AuthBundleAlone.ReplacesExactly | src/browser/fixtures/storageState.ts:592-623 | an undisturbed replacement moves the staged storage state into place, or throws and changes nothing |
| AuthBundleAlone.PublishesExactly | src/auth/capabilityLifecycle.ts:406-438 | an undisturbed publication ends with exactly the staged artefact and its record as the finals, whatever was there before, and leaves nothing else behind |
| AuthBundleAlone.RecoversExactly | src/auth/capabilityLifecycle.ts:455-476 | an undisturbed recovery on any files: nothing without a journal; the commit iff both staged files have the journal's digests; else the removal of the journal iff both finals do; else a refusal that changes nothing |
| AuthBundleAlone.PublishThrowsExactly | src/auth/capabilityLifecycle.ts:406-438 | a publication throws at a call iff a file it needs is gone, one it creates is there, or the staged bytes have another digest; then nothing changes |
| AuthBundleAlone.RecoverEndsExactly | src/auth/capabilityLifecycle.ts:455-476 | how each call of a recovery can end it: nothing pending, threw, refused, completed, each as an iff |
| AuthBundleAlone.ReadsExactly | src/auth/capabilityLifecycle.ts:595-634 | a gated pre-flight on a quiet disk reads exactly the finals, as far as each of them lets it go on |
| AuthCapability.RemainingIsExact | src/auth/capabilityLifecycle.ts:653-671 | VALID now implies: VALID at a later `t` iff `t - now` is less than the reported remainder |
| AuthCapability.RemainingIsExactly | src/auth/capabilityLifecycle.ts:653-671 | for any clock, also before 1970, that holds for all later instants iff no applicable untimed row turns stale before the smaller of window end and earliest expiry |
| AuthCapability.RemainingIsNotExactBefore1970 | src/browser/fixtures/storageState.ts:376-380 | a concrete file and instant where the remainder is wrong |
| AuthCapability.ExpiredIsAbsorbing | src/auth/capabilityLifecycle.ts:662-671 | EXPIRED stays EXPIRED at every later instant |
| AuthCapability.ValidExactly | src/auth/capabilityLifecycle.ts:653-671 | VALID iff now is inside the window, every row that covers the origin's host and `/` is a session row or expires after this millisecond, and the record's own expiry, as stand-in for no timed row, is not over; for the host text of the origin itself, domain-match and path-match |
| AuthCapability.RemainderExactly | src/auth/capabilityLifecycle.ts:653-681 | the remainder is the time to the first of window end, expiries of the rows that cover the origin's host, and their recorded stand-in; the warning is there iff that is less than the required budget; zero in EXPIRED once that instant is over |
| AuthCapability.TrustEndIsFirst | src/auth/capabilityLifecycle.ts:653-661 | the end of trust is the first of those instants, and one of them |
| AuthCapability.ThrowsExactly | src/auth/capabilityLifecycle.ts:606-661 | the verdict throws iff now is no date, the window of a matching record ends after the last date, or the artefact is gone between its validation and its digest |
| AuthCapability.BudgetWarningForetells | src/auth/capabilityLifecycle.ts:673-681 | no warning means VALID over the whole budget, a warning means no longer VALID at its end |
| AuthCapability.StatesExactly | src/auth/capabilityLifecycle.ts:595-652 | an exact condition for each state: absence comes before doubt, doubt before the environment, the environment before the clock |
| AuthCapability.LaterVerdict | src/auth/capabilityLifecycle.ts:653-671 | when a pre-flight that was VALID is VALID later, in terms of trust end and stale rows |
| CookieApplicability.PathTestIsPathMatch | src/browser/fixtures/storageState.ts:366-372 | the five-way test is path-match, section 5.1.4 of RFC 6265, on the cookie path without trailing slashes |
| CookieApplicability.DomainTestIsDomainMatch | src/browser/fixtures/storageState.ts:361-365 | for every domain the two-way test is domain-match, section 5.1.3 of RFC 6265 for host names, an empty one matches an empty host only, and exactly one leading dot is dropped |
| CookieApplicability.PortHidesDomain | src/browser/fixtures/storageState.ts:361-365 | an origin with an explicit port matches no cookie domain without one, although the bare host does |
| CookieApplicability.AppHostExactly | src/browser/fixtures/storageState.ts:361-361 | the host of an origin is the text between the scheme, `http://` or `https://` in any letter case, and the next slash; a text without either scheme is cut at its first slash |
| CookieApplicability.SchemeIsDropped | src/browser/fixtures/storageState.ts:361-361 | either scheme in any letter case is dropped whole, and nothing else |
| CookieApplicability.AppliesExactly | src/browser/fixtures/storageState.ts:359-372 | a row applies to an origin with this host iff its domain domain-matches the host text itself and its path path-matches |
| CookieApplicability.EarliestApplicableIsMinimum | src/browser/fixtures/storageState.ts:472-495 | in terms of the origin's host: expired iff a row that covers host and path is, the earliest expiry is the minimum over exactly the timed ones that do, and both counts are numbers of rows |
| CookieApplicability.ScanByTest | src/browser/fixtures/storageState.ts:483-494 | for any texts, also without a path: flag and minimum range over exactly the rows the test lets through |
| CookieApplicability.CountsOfHost | src/browser/fixtures/storageState.ts:479-482 | the counted rows are the objects, and those that cover the host and path |
| CookieApplicability.InspectStorageStateCookieApplicability | src/browser/fixtures/storageState.ts:472-495 | the loop computes the four facts of the scan, which EarliestApplicableIsMinimum states for the origin's host |
| CookieApplicability.InspectStorageStateCookieExpiries | src/browser/fixtures/storageState.ts:426-456 | the loop computes the minimum, the two counts and the unexpired count over all rows |
| CookieApplicability.ExpiriesCounted | src/browser/fixtures/storageState.ts:426-456 | timed, session and unexpired counts are numbers of rows of these kinds |
| CookieApplicability.LeastIsMinimum | src/browser/fixtures/storageState.ts:483-494 | the running minimum is a lower bound that is attained, and absent only for no values |
| ProxyJournal.JournalIsSafe | src/proxy/server.ts:202-253 | under any interleaving: entry i has sequence number i and no effect; the line just before a dial is that dial's own `attempted` record, with the number in the dial's effect id and the selected family and class, and the address is an accepted one; every outcome record follows the one dial it belongs to and no dial has two |
| ProxyJournal.DialsAreOwn | src/proxy/server.ts:356-442 | behind every dial stands an arrival with verdict allow, a target and a passed gate, not cancelled, while the proxy neither shut down nor had lost evidence; a later resolution of that very host, not cancelled and not during shutdown, selected the address and wrote the `attempted` record with its family and class as the line before it |
| ProxyRecords.LogIsDue | src/proxy/server.ts:202-253 | the log of every run is line by line what its actions call for, each with verdict and host class of its own request, resolution state, answer count, connection, violation and address, and complete unless an append failed |
| ProxyRecords.StepWrites | src/proxy/server.ts:356-486 | the same for one stretch of one handler: what is due for it, in every branch |
| ProxyRecords.RefusedIsNeverDialled | src/proxy/server.ts:356-398 | a request with another verdict, no target, a missing ticket, a cancellation or during shutdown is finished on arrival and never dialled in any continuation; while appends work exactly one record is added, under its own verdict and host class, not attempted |
| ProxyRecords.RefusedHasNoStart | src/proxy/server.ts:356-398 | nor can any other arrival have started its handler |
| ProxyRecords.RequestIsArrival | src/proxy/server.ts:356-398 | protocol, host and host class that a waiting handler keeps are those of an arrival that was allowed |
| ProxyRecords.StepHandlers | src/proxy/server.ts:356-486 | a handler starts with an allowed arrival, moves on with the same request, or finishes for good |
| ProxyRecords.HandlersStay | src/proxy/server.ts:356-486 | a finished handler stays finished in every continuation |
| ProxyRecords.ShutsDownExactly | src/proxy/server.ts:755-755 | the server is shutting down exactly from the first close on |
| ProxyRecords.RecordableExactly | src/proxy/events.ts:57-57 | the record of a looked-up host can be stored iff there were at most eight answers |
| ProxyRecords.OversizedAnswersStopTheEvidence | src/proxy/server.ts:240-252 | more than eight answers leave no record and end the evidence: log and dials never grow again |
| ProxyJournal.IntendedPairs | src/proxy/server.ts:415-486 | the records as their callers meant them: PREPARED ids are unique, each effect has at most one TERMINAL, after its PREPARED record and its dial, and no effect is dialled twice |
| ProxyJournal.RunDialled | src/proxy/server.ts:533-592 | every record that its caller meant as TERMINAL, and every waiting handler, belongs to a dial made before, to the address it names |
| ProxyJournal.RunMatches | src/proxy/server.ts:415-486 | a record is `attempted` where its caller named PREPARED, an outcome without violation where it named TERMINAL, and otherwise tells of no connection or of a thrown dial |
| ProxyJournal.RunKeeps | src/proxy/server.ts:533-592 | in every reachable state the log is the intended one without effects, numbered by position, and an intended effect is half recorded exactly while its handler waits or for one of three reasons |
| ProxyJournal.StepKeeps | src/proxy/server.ts:645-710 | every stretch of every handler keeps that invariant |
| ProxyJournal.RunGrows | src/proxy/server.ts:202-253 | log and dials only grow, and after an evidence write failure neither grows at all |
| ProxyJournal.StepGrows | src/proxy/server.ts:202-253 | the same for one stretch of one handler |
| ProxyJournal.SelectedIsAcceptable | src/proxy/server.ts:111-114 | whatever the resolver step selects for a dial is acceptable to the environment (which address that is: LiteralResolved, LocalhostResolved and NameResolved) |
| ProxyJournal.EffectIdsDiffer | src/proxy/server.ts:417-417 | effect ids made from different sequence numbers differ |
| ProxyJournal.ProxyServer.Record | src/proxy/server.ts:202-253 | the append protocol: numbering, the fields left out, failure flag and result for each way an append can go |
| ProxyJournal.ProxyServer.HandleArrival | src/proxy/server.ts:356-398 | the stretch up to the resolver's await, as the step of which StepHandlers and StepWrites say when it goes on and what it records |
| ProxyJournal.ProxyServer.HandleResolution | src/proxy/server.ts:398-417 | the stretch from the resolver's answer, as a step |
| ProxyJournal.ProxyServer.JournalAndDial | src/proxy/server.ts:417-459 | the `attempted` record, then the dial or the thrown-dial record, with no await between |
| ProxyJournal.ProxyServer.JournalThrow | src/proxy/server.ts:447-459 | the failure record of a dial that threw, which names no effect |
| ProxyJournal.ProxyServer.HandleConnection | src/proxy/server.ts:468-486 | the outcome record of a settled connection, as a step |
| ProxyEvidence.ReaderAcceptsExactly | src/proxy/events.ts:164-205 | the strict reader accepts the log of a reachable state iff all its lines are whole, that is iff no append was torn |
| ProxyEvidence.HalfEffectsExactly | src/proxy/server.ts:415-486 | in the intended log the effects with a PREPARED record only are exactly the thrown, lost, never dialled and waiting ones |
| ProxyEvidence.VerdictsAgreeExactly | src/proxy/server.ts:205-243 | the reader's verdict on the log agrees with its verdict on the intended log iff an append was torn or no effect is half recorded, which once all handlers finished means none threw, was lost or was never dialled |
| ProxyEvidence.ThrownDialIsAccepted | src/proxy/server.ts:445-459 | a run whose dial throws leaves a log that the strict reader accepts and would not accept with both fields |
| ProxyEvidence.MissedOutcomeIsAccepted | src/proxy/server.ts:469-486 | a run whose outcome record is missed leaves an accepted log with one attempt and no outcome |
| ProxyEvidence.AttemptsCountedTwiceExactly | src/proxy/events.ts:207-251 | over the log of any reachable state connectAttempted is 2 * (connected + connectFailed) plus the attempts without an outcome record, so it is exactly twice iff there are none, as when all handlers finished and no append failed |
| ProxyEvidence.RunConserves | src/proxy/server.ts:202-253 | every attempt in the log has its outcome there, or is lost, never dialled, thrown without a record or still waiting, each counted once |
| ProxyEvidence.PairsWouldBalance | src/proxy/events.ts:156-163 | if the strict reader accepts the intended log, the counters balance |
| ProxyEvidence.FailureLeavesTrace | src/proxy/server.ts:246-251 | nothing is lost, never dialled or thrown without a record unless an append failed |
| EventLedger.ReadLedger | src/proxy/events.ts:164-205 | accepts iff every line is valid and every effect is one PREPARED followed by one TERMINAL; otherwise the first offending line; TERMINAL_BEFORE_PREPARED is unreachable |
| EventLedger.OrderlyAppend | src/proxy/events.ts:176-200 | when one more record keeps every effect in order |
| EventLedger.Refused | src/proxy/events.ts:176-200 | a log the loop stops at is not balanced |
| EventLedger.StopsExactly | src/proxy/events.ts:174-200 | the reader stops at a line with an error iff: it is no JSON; it is no event; its PREPARED repeats one; its TERMINAL has no PREPARED before it; its TERMINAL repeats one |
| EventLedger.SummarizeProxyEvents | src/proxy/events.ts:207-251 | every counter is the number of events in its class |
| EventLedger.SummaryConserved | src/proxy/events.ts:207-251 | the five verdict counters sum to the number of events and violations counts exactly the violating events |
| EventLedger.VerdictsConserved | src/proxy/events.ts:207-251 | every event has exactly one verdict counter |
| EventLedger.PairsBalance | src/proxy/events.ts:164-205 | an accepted log has as many TERMINAL as PREPARED records |
| EventLedger.PhaseCounts | src/proxy/events.ts:164-205 | in an orderly log the records of a phase are as many as its effect ids |
| WebSocketFrames.ChunkingIrrelevant | src/browser/fixtures/fixtureServer.ts:372-436 | for every stream and split, the calls up to the first close answer are those of the whole stream in one chunk, and without a close frame the residual buffer is too |
| WebSocketFrames.SentIsIndependentOfChunking | src/browser/fixtures/fixtureServer.ts:372-436 | for every stream and split, the bytes sent are those of the whole stream in one chunk, close frames included |
| WebSocketFrames.ConverseCalls | src/browser/fixtures/fixtureServer.ts:373-432 | that a destroyed socket hears no more chunks makes no difference to what is sent or to its state |
| WebSocketFrames.ChunkingIrrelevantExactly | src/browser/fixtures/fixtureServer.ts:372-436 | the state the socket is left in is independent of the split iff nothing answerable follows the first close frame |
| WebSocketFrames.CloseThenTextDependsOnChunking | src/browser/fixtures/fixtureServer.ts:403-411 | a concrete stream that leaves the socket half-closed in one chunk and destroyed in two |
| WebSocketFrames.DrainAppend | src/browser/fixtures/fixtureServer.ts:373-401 | draining a buffer and then its rest with more bytes is draining the concatenation, up to a close |
| WebSocketFrames.DecodeClientFrame | src/browser/fixtures/fixtureServer.ts:376-401 | a masked frame in any fitting length encoding decodes to its opcode and payload and consumes exactly its bytes |
| WebSocketFrames.DecodedFrame | src/browser/fixtures/fixtureServer.ts:376-401 | on the wire: the opcode is the low half of byte 0, the size is header, key and payload, and bit i of payload byte k is that of the wire byte, flipped iff bit i of key byte k modulo four is set |
| WebSocketFrames.HelloIsUnmasked | src/browser/fixtures/fixtureServer.ts:373-432 | the masked example of section 5.7 of RFC 6455 decodes to "Hello" and is answered by the unmasked one |
| WebSocketFrames.ConversationIsAnswered | src/browser/fixtures/fixtureServer.ts:372-436 | for every list of masked client frames and every split of their bytes: the bytes sent are the echoes of the messages up to the first close and its answer, and the socket stays open iff there is no close |
| WebSocketFrames.DrainOfStream | src/browser/fixtures/fixtureServer.ts:373-432 | the same for the whole stream in one chunk |
| WebSocketFrames.EchoLayout | src/browser/fixtures/fixtureServer.ts:412-429 | every byte of an echo: final bit and opcode, the shortest length form, big-endian length, then the payload as it is |
| WebSocketFrames.DecodeEcho | src/browser/fixtures/fixtureServer.ts:412-429 | the decoder reads the echoed frame back, at every length boundary |
| WebSocketFrames.EchoIsShortest | src/browser/fixtures/fixtureServer.ts:412-427 | no frame the decoder reads as this opcode and payload is shorter than the echoed one |
| WebSocketFrames.EchoRoundTrip | src/browser/fixtures/fixtureServer.ts:376-429 | a masked client frame is echoed unmasked, and the echo decodes to the same opcode and payload, consuming exactly that frame; what unmasked means is UnmaskedBits |
| WebSocketFrames.XorExactly | src/browser/fixtures/fixtureServer.ts:398-398 | bit i of the xor is set iff bit i of exactly one of the bytes is |
| WebSocketFrames.UnmaskedBits | src/browser/fixtures/fixtureServer.ts:394-400 | each payload bit is flipped iff the mask byte of its index modulo four has that bit set |
| WebSocketFrames.XorTwice | src/browser/fixtures/fixtureServer.ts:398-398 | masking twice with one byte gives the byte back |
| WebSocketFrames.ReadWrite | src/browser/fixtures/fixtureServer.ts:417-427 | the big-endian length fields read back what was written |
| WebSocketFrames.EchoSocket.OnData | src/browser/fixtures/fixtureServer.ts:373-432 | the callback's loop leaves buffer and socket as draining the buffer says |
| WebSocketFrames.EchoSocket.Turn | src/browser/fixtures/fixtureServer.ts:375-433 | one turn takes one frame off the buffer, makes its calls on the socket, and says whether the loop goes on |
| WebSocketFrames.EchoSocket.TakeFrame | src/browser/fixtures/fixtureServer.ts:376-401 | the next complete frame is cut off the buffer, or the buffer is left alone |
| WebSocketFrames.EchoSocket.UnmaskInto | src/browser/fixtures/fixtureServer.ts:394-400 | the in-place loop writes for every index the byte that UnmaskedBits states bit by bit |
| WebSocketFrames.EchoSocket.EncodeHeader | src/browser/fixtures/fixtureServer.ts:414-427 | the header written by index is the specified one in all three length forms |
| AddressText.Ipv6RoundTrip | src/proxy/addressPolicy.ts:124-196 | parsing the printed form of any 128-bit value gives the value back |
| AddressText.Ipv4RoundTrip | src/proxy/addressPolicy.ts:105-117 | the same for 32 bits |
| AddressText.CanonicalShape | src/proxy/addressPolicy.ts:172-196 | the printed form has at most 39 (IPv4: 15) characters and none the length bound or a parser refuses |
| AddressText.CanonicalRoundTrip | src/proxy/addressPolicy.ts:198-226 | the canonical text parses to exactly the family and value it prints |
| AddressText.ParsedFacts | src/proxy/addressPolicy.ts:198-226 | an accepted text yields a value in its family's space, and canonicalisation is idempotent |
| AddressText.SameCanonicalIffSameValue | src/proxy/addressPolicy.ts:198-226 | two accepted texts share a canonical form iff they denote the same value |
| AddressText.BestRunIsFirstLongest | src/proxy/addressPolicy.ts:176-190 | the compressed run is the first longest zero run of length at least 2, as section 4.2 of RFC 5952 asks |
| AddressText.ScanRuns | src/proxy/addressPolicy.ts:174-188 | the index loop finds that run |
| AddressText.FormatIpv6 | src/proxy/addressPolicy.ts:172-196 | the printing method gives the specified text |
| AddressText.PushGroups | src/proxy/addressPolicy.ts:141-155 | the pushing loop gives the groups of one side, or refuses it |
| AddressGrammar.AddressExactly | src/proxy/addressPolicy.ts:105-226 | an accepted text is at most 45 long and the dotted text of its IPv4 value, or an IPv6 text that the grammar of section 2.2 of RFC 4291 reads as its groups, with a dotted tail a.b.c.d as 256a+b and 256c+d; everything else is refused |
| AddressGrammar.Ipv6Exactly | src/proxy/addressPolicy.ts:124-170 | the IPv6 parser returns groups iff the grammar reads the text as these: eight parts, or two sides of one double colon with zeros between |
| AddressGrammar.PartsMean | src/proxy/addressPolicy.ts:141-155 | parts give groups iff each is one to four hex digits of its group, or the last is the dotted text of the last two |
| AddressGrammar.Ipv4Exactly | src/proxy/addressPolicy.ts:105-117 | the IPv4 parser accepts exactly the printed texts of 32-bit values |
| AddressGrammar.Ipv6PrintedExactly | src/proxy/addressPolicy.ts:172-196 | a text is the printed form of a value iff it is the one section 4 of RFC 5952 recommends: lower-case groups without leading zeros, and a double colon exactly for the first longest run of at least two zero groups |
| AddressGrammar.BestRunExactly | src/proxy/addressPolicy.ts:174-188 | the scan finds a run iff it is that one, and none iff there is none |
| AddressRanges.ShiftTestIsInterval | src/proxy/addressPolicy.ts:228-238 | comparing shifted values is membership in an aligned interval |
| AddressRanges.Ipv4Block | src/proxy/addressPolicy.ts:228-232 | the IPv4 range test on a dotted base is membership in its block |
| AddressRanges.Ipv6Block | src/proxy/addressPolicy.ts:234-238 | the IPv6 range test on a textual base is membership in its block |
| AddressRanges.Ipv4BlocksDisjoint | src/proxy/addressPolicy.ts:240-258 | the IPv4 blocks are pairwise disjoint apart from broadcast inside reserved |
| AddressRanges.Ipv6BlocksDisjoint | src/proxy/addressPolicy.ts:260-282 | the IPv6 blocks are pairwise disjoint |
| AddressRanges.ClassifyIpv4ByBlocks | src/proxy/addressPolicy.ts:240-258 | the class is the block's class, and global-unicast is exactly the complement of the blocks |
| AddressRanges.ClassifyIpv6ByBlocks | src/proxy/addressPolicy.ts:260-282 | the same for IPv6, where global-unicast is exactly 2000::/3 minus the listed blocks |
| AddressCase.AlikeAddress | src/proxy/addressPolicy.ts:198-226 | the parser reads texts that differ in letter case alike |
| AddressAdmission.AdmissionDependsOnSet | src/proxy/addressPolicy.ts:336-407 | outcome, reason and addresses depend only on the set of (family, value) pairs, not on order, duplicates or spelling |
| AddressAdmission.AdmittedExactly | src/proxy/addressPolicy.ts:336-407 | admitted iff the answers are one to eight and every one well formed and acceptable, with exactly their addresses, for any comparator; with one that orders canonical texts `selected` is the least of a sorted list |
| AddressAdmission.AcceptableLocally | src/proxy/addressPolicy.ts:317-334 | `local` accepts exactly 127.0.0.1 and ::1 |
| AddressAdmission.AcceptableRemotely | src/proxy/addressPolicy.ts:324-334 | `dev` and `next` accept exactly what lies outside every special-use block, in 2000::/3 for IPv6 |
| AddressAdmission.SortedUnique | src/proxy/addressPolicy.ts:390-397 | a sorted list of proper items is determined by its set |
| AddressAdmission.SortMembers | src/proxy/addressPolicy.ts:390-397 | the sort neither loses nor invents an item, whatever the comparator |
| AddressAdmission.KeyDeterminesItem | src/proxy/addressPolicy.ts:379-379 | family and canonical text determine the whole item, so the Map's overwrites are harmless |
| AddressAdmission.AdmitResolvedAddressSet | src/proxy/addressPolicy.ts:336-407 | the Map-filling loop decides as the specification does |
| AddressAdmission.LiteralAgreesWithResolver | src/proxy/resolver.ts:116-145 | for every host text that parses and any comparator, the literal fast path and the resolver path with that single answer agree |
| AddressDecisions.LocalhostResolved | src/proxy/resolver.ts:131-138 | `localhost` in any letter case selects exactly 127.0.0.1 of family 4 in `local`, as the only address, and is denied in `dev` and `next`; the resolver is never asked |
| AddressDecisions.LiteralResolved | src/proxy/resolver.ts:122-129 | an address literal is resolved to itself alone, admitted or denied by its own class, whatever the resolver would say |
| AddressDecisions.NameResolved | src/proxy/resolver.ts:140-145 | any other host: a timeout, a failed lookup and the admission of exactly the answers given; nothing is selected unless every answer is acceptable |
| AddressDecisions.SelectedFirst | src/proxy/addressPolicy.ts:389-405 | IPv4 addresses come before IPv6 ones, whatever the comparator, so an IPv6 one is selected only where no answer is IPv4; within a family they are in order of their texts |
| AddressDecisions.RefusedExactly | src/proxy/addressPolicy.ts:336-407 | why a set is not admitted: none, more than eight, the first answer that is no address and why, or mixed, mapped, not exactly loopback, denied |
| AddressDecisions.AnswerErrorExactly | src/proxy/addressPolicy.ts:346-369 | each reason an answer is no address, as an iff |
| AddressDecisions.CollectStops | src/proxy/addressPolicy.ts:346-369 | the first answer that is no address decides the error |
| AddressDecisions.DecidedReason | src/proxy/addressPolicy.ts:371-385 | each reason for denying a well-formed set, in terms of its answers |
| AddressDecisions.MappedExactly | src/proxy/addressPolicy.ts:317-334 | mapped means ::ffff:0:0/96 |
| AddressDecisions.FamiliesApart | src/proxy/addressPolicy.ts:198-226 | no text is an address of both families |
| AddressCase.LowerExactly | src/proxy/resolver.ts:122-122 | lower-casing a text gives a lower-case word iff the text is that word in some letter case |
| PortLease.CandidateForm | src/proxy/portLease.ts:103-106 | every candidate is a valid port, preferred + offset or the wrapped one, which starts at 1025 |
| PortLease.CandidatesDistinct | src/proxy/portLease.ts:103-121 | the 32 candidates are pairwise distinct for every valid preferred port |
| PortLease.ProxyPortCandidates | src/proxy/portLease.ts:116-121 | the loop lists them in offset order, or throws on an invalid port |
| PortLease.LeaseDirectory.Reserve | src/proxy/portLease.ts:136-179 | first fit: the least offset that fits, EXHAUSTED iff none does, and the exact files afterwards |
| PortLease.LeaseDirectory.Release | src/proxy/portLease.ts:123-130 | only the lease with the token goes, and only for its owner unless handed over |
| PortLease.SweepOne | src/proxy/portLease.ts:139-148 | passing a candidate clears its file iff a dead owner holds it |
| PortLease.ReservationIsGentle | src/proxy/portLease.ts:139-170 | live and malformed files stay as they are and no skipped candidate keeps a file |
| PortLeaseRace.LeasesExclude | src/proxy/portLease.ts:136-179 | over every interleaving of live processes, without dead leases, no two unreleased leases name one port, and each is backed by its file |
| PortLeaseRace.NobodyElsesFile | src/proxy/portLease.ts:123-176 | no process unlinks or overwrites a file another one relies on, also while it is still empty |
| PortLeaseRace.ExclusiveExactlyWithoutDeadLease | src/proxy/portLease.ts:139-145 | with two processes or more, mutual exclusion holds in all runs iff no lease in range names a dead owner |
| PortLeaseRace.DeadLeaseGivenTwice | src/proxy/portLease.ts:141-144 | the run in which two processes reclaim one dead lease and both hold its port |
| PortLeaseRace.RunKeeps | src/proxy/portLease.ts:123-179 | every reachable state satisfies the lease invariant |
| PortLeaseRace.StepKeeps | src/proxy/portLease.ts:123-179 | every system call keeps it |
| PortLeaseAlone.ReservesAlone | src/proxy/portLease.ts:136-179 | in the interleaved machine too, a reservation that nobody disturbs ends with the lease of the first candidate that fits and the dead leases before it cleared, or with nothing iff none fits |
| PortLeaseAlone.SearchAlone | src/proxy/portLease.ts:136-179 | the same from any candidate on |
| PortLeaseAlone.CandidateAlone | src/proxy/portLease.ts:138-176 | one candidate: skipped, swept and skipped, or taken with its own token, and what becomes of its file |
| PortLeaseAlone.ReleasesAlone | src/proxy/portLease.ts:123-130 | an undisturbed release removes the file iff it still holds this very lease |
| RelaySafety.FetchesAreCleared | src/api/phase5/relay.ts:222-257 | at most two fetches per exchange: a resolved, policy-allowed, admitted target, then only an admitted same-origin redirect, same-path in dev |
| RelaySafety.DevFetchesAreAdmitted | src/api/phase5/relay.ts:265-267 | every fetch of a dev relay was admitted |
| RelaySafety.FetchesBelong | src/api/phase5/relay.ts:232-233 | every fetch belongs to an exchange of the system |
| RelaySafety.SettledFetchIsDiscarded | src/api/phase5/deadline.ts:124-145 | a fetch made on a settled deadline is never answered |
| RelaySafety.AbortedCallerStillFetches | src/api/phase5/relay.ts:232-233 | a native run with an aborted caller calls the fetcher iff it has no credentials to fetch, and fails as aborted |
| RelaySafety.CauseIsSetOnce | src/api/phase5/relay.ts:353-389 | through all stages and whatever the others do, an exchange's deadline keeps its first cause |
| RelaySafety.EndedDeadlinesAreSilent | src/api/phase5/relay.ts:387-389 | on every way out the deadline is disposed of, and no later event settles it |
| RelaySafety.FirstObservationStands | src/api/phase5/relay.ts:279-285 | no later action replaces the first observation of an operation |
| RelaySafety.ObservationsAccountForEndings | src/api/phase5/relay.ts:297-412 | every observation is the ending of one exchange on its operation, every recording is kept or reported, and every answered exchange on a catalogued operation left one; why it ended so is EndingsAreExplained |
| RelayEndings.EndingsAreExplained | src/api/phase5/relay.ts:222-412 | in every run: an answer has the status of the response that won the last race, the first one outside 300..399, the redirected one outside it, or a blocked one inside it; a failure has the cause that cut that race, the failure of its work, or a fetch that threw or came too late; a refusal the reason that applies |
| RelayEndings.ContinueExactly | src/api/phase5/relay.ts:222-257 | the other way round: where each won, cut or failed race leads, in each stage, with the very status, cause or failure |
| RelayEndings.RaceWasDecided | src/api/phase5/relay.ts:232-233 | every decided race was decided by one action of the run, in the stage the exchange is still in |
| RelayEndings.FetchesAreExplained | src/api/phase5/relay.ts:222-257 | every fetch was made on arrival, when the credentials had come, or when the first response redirected to where it may follow, to that very target |
| RelayEndings.RefusedExactly | src/api/phase5/relay.ts:297-368 | a relayed request is refused for a reason iff that reason's condition holds; then nothing is fetched and the reason is the last violation |
| RelayEndings.ArriveExactly | src/api/phase5/relay.ts:297-383 | an arrival is refused, crashes before there is a deadline, or begins where policy and admission allow it |
| RelayEndings.NativeArrives | src/api/phase5/relay.ts:460-480 | a native run begins on its resolved, allowed and admitted target, and fails before any fetch iff there is none |
| RelayEndings.FindExactly | src/api/phase5/relay.ts:338-339 | the catalogue lookup finds the first operation of that id |
| RelayEndings.LocalFetchesAreLoopback | src/api/phase5/relay.ts:153-154 | a local relay fetches from http://127.0.0.1 only, redirects included |
| RelaySafety.RunKeeps | src/api/phase5/relay.ts:297-412 | every reachable state satisfies the relay invariant |
| RelaySafety.StepKeeps | src/api/phase5/relay.ts:297-412 | every action keeps it |
| RelaySafety.RunGrows | src/api/phase5/relay.ts:279-285 | observations, violations and fetches only grow, and an ended exchange stays as it is |
| RelayDeadline.CauseIsFirstCallback | src/api/phase5/deadline.ts:83-117 | the cause is the first timer or caller callback before any dispose, for every list of events |
| RelayDeadline.CauseIsFinal | src/api/phase5/deadline.ts:83-117 | a settled or disposed deadline keeps its cause |
| RelayDeadline.RelayTimer.constructor | src/api/phase5/deadline.ts:73-97 | a fresh deadline is open, or settled and aborted at once for a caller that had aborted |
| RelayDeadline.RelayTimer.Settle | src/api/phase5/deadline.ts:83-89 | the first reason wins and the signal is aborted exactly once |
| RelayDeadline.RelayTimer.TimerFired | src/api/phase5/deadline.ts:91-91 | the timer callback, as an event |
| RelayDeadline.RelayTimer.CallerAborted | src/api/phase5/deadline.ts:92-96 | the caller's abort, as an event |
| RelayDeadline.RelayTimer.Dispose | src/api/phase5/deadline.ts:110-115 | idempotent, and no callback comes after it |
| RelayDeadline.RelayTimer.RemainingMs | src/api/phase5/deadline.ts:100-103 | what is left of the one budget, never negative, zero iff it is used up |
| RelayServer.ReadBody | src/api/phase5/relay.ts:160-216 | the body is the concatenation of the accepted chunks within the bound, complete iff nothing stood in the stream's way, with every way out |
| RelayServer.Assemble | src/api/phase5/relay.ts:204-209 | copying chunk by chunk at running offsets fills the buffer with the concatenation |
| RelayServer.RelayServer.RecordObservation | src/api/phase5/relay.ts:279-285 | in place, the recording step of the interleaved model |
| RelaySafety.TakenIsFirst | src/api/phase5/relay.ts:438-438 | `takeObservation` answers nothing until an exchange on a catalogued operation has ended, then how one such exchange ended, and the same in every later state of the run; with EndingsAreExplained that is the status upstream gave |
| RelayServer.RelayServer.ConsumeRelayBudget | src/api/phase5/relay.ts:290-294 | granted iff fewer than eight were, and never more than eight |

## Left out

- Sockets, HTTP, DNS, timers, Playwright, the page DOM: foreign calls. Their results are nondeterministic inputs of the steps.
- `OutboundPolicy`, admission tickets, endpoint semantics and the oracle are uninterpreted predicates; the redaction layer of a record is taken to pass.
- URL parsing and JSON: a URL is its parts, and a file's text is the value it parses to or unparseable. An origin is taken as already normalised.
- SHA-256, cut to 24 hex digits in the source, is taken as injective.
- File ownership, modes, symbolic links, directory checks and fsync are taken to pass; rename, exclusive create and unlink are atomic. A write to a temporary file is one step, since nobody reads it before its rename.
- Runs of the auth bundle start without a pending transaction: one left behind is a publication of the run that stopped.
- An adoption's checks of the declared window and capture instant are taken to have passed, and so are the inputs of a published record.
- Random file names and tokens are taken as distinct: each operation has names of its own.
- Failures of file calls other than an absent or existing file (a full disk, say) are not modelled for the auth bundle and the leases.
- Cookie expiries and their products are reals, so floating-point rounding and infinite values are not modelled. `httpOnly` and `secure` matter only to page readability, which is not part of this model.
- The socket of the WebSocket fixture is foreign: after `end` a further `write` or `end` with bytes sends nothing and destroys it, and a destroyed socket delivers no more data. The `catch` branches around these calls are not modelled.
- WebSocket lengths above 2^53, which the source rounds: no such frame can ever be complete in a buffer, so they change no decision.
- Letter case outside ASCII in addresses. Of `localeCompare` only this is used, and only where the order of a list matters: it orders the canonical address texts strictly and totally.
- Event fields that no modelled decision reads: host, port, timestamp, protocol, connection failure reason, resolution reason, semantic classification. Of the validity tests of a record the bounds on its number and its answer count are modelled, the rest is taken to pass.
- Lease owners do not die, and process ids are not reused, during a run: which processes are alive is fixed, and a death before the run is a dead lease.
- The inherited lease handed to a child process, and lease files of another schema (they read as malformed).
- The relay's invocation credential: it is minted, but `handle` does not look at it. Response headers and the oracle's verdict are not modelled.
- Between the settling of a race and the code after its `await`, the relay model lets the deadline fire and other exchanges run, which is more than an event loop allows; what is proved holds for all of it.
- `src/api/phase5/generator.ts`, `restrictedProfile.ts`, the catalogue, the corpus fixtures, the observers and the liveness window: data tables and easy members.
