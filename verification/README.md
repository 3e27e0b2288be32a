# Verified model of the VistaBlox API core

This project models the stateful core of the VistaBlox API in Dafny and proves what the system
promises about it: the KYC session table under concurrent session starts, webhooks and timers, and
the smaller protocols and encodings around it. `dafny verify dfyconfig.toml` checks everything.

A database transaction is one atomic step. Code that updates rows is a class whose methods are
proved against specification functions; a protocol is a state machine whose steps interleave in
any order; the theorems are about every run, every input or every reachable state.

| module | models |
|---|---|
| Base, Strings, Calendar | UTF-16 text order, split and join, the proleptic Gregorian calendar behind UTC dates |
| KycPolicy, AddressPolicy, KycOutcomes | the pure decisions on a provider status or decision, and what each outcome says about the input |
| KycDb, KycRepository | the transactions on the KYC table, as functions and as an object that refines them |
| KycRuns, KycLease, KycHistory, KycStreams | every run of the table: consistency, start leases, the recorded history, convergence and commutation of the two event streams |
| KycServices, KycWebhook, KycJobs | the services and timers that sequence those transactions |
| KycWitness | runs from the empty table in which a documented promise does not hold |
| SessionSupersede | overlapping login ceremonies on one device key |
| StableJson, JsonReader, Idempotency | canonical request bodies and the Idempotency-Key middleware |
| KeysetPaging | cursor pages over positions and reservations |
| AuthPaths, AuthRoutes, ClientIp | the auth path guard against URL parsing, the routes it lets through, and rate-limit keys |
| ChallengeReplay | the enrolment challenge's replay window |
| BusinessDays | business-day deadlines and reminders |
| EventLedger, LedgerImport | the case event ledger, and the import of older history beside the live writers |
| PhotoStore, PhotoService | case documents in storage and database: the interleaved steps, and the services that take them |

Where the code does less than its documentation says, the code is modelled and the exact condition
is proved:

- The manual-review flag is documented as never reset, but a decision that read it before a review
  was applied resets it (`KycLease.FlagClearedIff`, `KycWitness.FlagCanBeCleared`).
- The two provider streams do not commute exactly when address evidence ends at or before the time of
  the baseline event (`KycStreams.StreamsCommuteIff`, `KycWitness.StreamsCanDisagree`).
- A start whose provider reference is already taken aborts and leaves the row being created until the
  timer expires it (`KycServices.CompleteReleases`, `KycWitness.StartCanStayCreating`).
- A login that fails after its insert discards its own session, and a login that deferred to it may
  leave the phone with none (`SessionSupersede.OneSurvivesIff`, `SessionSupersede.NoneMaySurvive`).
- A number too large for a double, such as 1e400, is hashed as null, so a body with it is taken for the
  same body with null (`StableJson.CanonicalIffFinite`, `StableJson.InfinityIsWrittenAsNull`).
- Overlapping requests with one Idempotency-Key each run their handler and send their own response
  (`Idempotency.RunsTwiceIff`, `Idempotency.OverlapCanDisagree`).
- A cursor carries milliseconds and the column microseconds, so a page can end inside a millisecond
  and lose rows of it (`KeysetPaging.StableRowIsShownIff`, `KeysetPaging.PagesAreTheListIff`).
- The eligibility history misstates a session start that found the account in need of renewal, and a
  proof-of-address start that found it no longer eligible (`KycHistory.EntryIff`,
  `KycHistory.RecordedIff`, `KycWitness.HistoryCanMisstate`, `KycWitness.EntryCanMisstate`).
- The import of older case history does not reproduce what the live writers record of seven kinds of change
  (`LedgerImport.ImportReproducesLiveIff`).
- Date texts of the years 0000 to 0099 are refused, because Date.UTC reads them as 1900 to 1999
  (`Calendar.ReadsBackIff`).

## Model

| member | source | states |
|---|---|---|
| KycPolicy.EligibleIff | src/modules/identity/domain/kyc-policy.ts:130-293 | An outcome is eligible if and only if the status is Approved, both countries are supported and the decision passes every check, whatever the manual-review flag says. |
| KycOutcomes.FullyVerifiedIff | src/modules/identity/domain/kyc-policy.ts:205-293 | What the checks of a decision amount to, field by field: every check there and approved, no screening with a hit, a birth date, and every eighteenth birthday reached on the calendar. |
| KycPolicy.Evaluate | src/modules/identity/domain/kyc-policy.ts:130-147 | Eligible exactly with the two verified substatuses; an eligible outcome is due for renewal 12 months after the event if manual review was ever needed and 24 otherwise; any other outcome sets neither date; the flag is never lowered. |
| KycPolicy.FlagOnlyMovesRenewal | src/modules/identity/domain/kyc-policy.ts:130-147 | Two evaluations that differ only in the stored manual-review flag agree on everything but the renewal date and the flag. |
| KycOutcomes.StateIff | src/modules/identity/domain/kyc-policy.ts:130-293 | The eight states partition the inputs: for each one the exact condition on the status, the two countries, the checks of the decision and their warnings. |
| KycOutcomes.SubstatusIff | src/modules/identity/domain/kyc-policy.ts:149-293 | Each substatus has its exact condition too: what tells the statuses of one state apart, and a case for review from an answer that cannot be judged. |
| KycOutcomes.ReasonIff | src/modules/identity/domain/kyc-policy.ts:149-293 | The reason names the status it came from and no other; an account is turned down only for an invalid or expired document, a failed liveness check or its age. |
| KycOutcomes.ReasonIsGravest | src/modules/identity/domain/kyc-policy.ts:333-367 | A reason read off warnings is one that a warning calls for, and no warning calls for a graver one, in the order from sanctions to an expired document. |
| KycOutcomes.SpelledInAnyCase | src/modules/identity/domain/kyc-policy.ts:350-366 | A warning mentions a risk exactly when it spells the word somewhere, letter by letter in either case. |
| KycOutcomes.RestartableIff | src/modules/identity/domain/kyc-policy.ts:172-184 | Once its outcome is on the row, an account may start over exactly when the session expired, was abandoned, or its verification lapsed. |
| KycOutcomes.RenewalTimes | src/modules/identity/domain/kyc-policy.ts:301-317 | Overdue from the millisecond after the renewal date; the reminder is due from midnight to midnight of the one day that many days before. |
| Calendar.MonthLengths | src/modules/identity/domain/proof-of-address-policy.ts:148-156 | The day arithmetic behind the UTC date functions gives every month of every year its length on the proleptic Gregorian calendar. |
| Calendar.MonthOfIsUnique | src/modules/identity/domain/proof-of-address-policy.ts:136-156 | Every day belongs to exactly one month, so year, month and date read from an instant determine its day. |
| Calendar.ReadsBackIff | src/modules/identity/domain/proof-of-address-policy.ts:136-146 | A date text is accepted if and only if it is a day on the calendar and its year is not 0 to 99, which Date.UTC moves to 1900 to 1999. |
| AddressPolicy.ClampedDate | src/modules/identity/domain/proof-of-address-policy.ts:148-156 | Adding months keeps the day of the month or takes the target month's last day, whichever is earlier. |
| AddressPolicy.ClampedIsMonotone | src/modules/identity/domain/proof-of-address-policy.ts:148-156 | A later issue date never gets an earlier expiry. |
| AddressPolicy.ThreeMonthsAhead | src/modules/identity/domain/proof-of-address-policy.ts:148-156 | Three clamped months are 89 to 92 days, for every date. |
| AddressPolicy.EvaluateApprovedAddress | src/modules/identity/domain/proof-of-address-policy.ts:72-122 | The loop over the documents, with its early exits, computes the order-free specification ApprovedOutcome. |
| AddressPolicy.CurrentIff | src/modules/identity/domain/proof-of-address-policy.ts:72-122 | An approved set is current if and only if it is not empty, the residence is known and every document is approved, valid, from that country, not future-dated and still fresh at the event. |
| AddressPolicy.CurrentUntilIsEarliest | src/modules/identity/domain/proof-of-address-policy.ts:100-122 | The evidence is current until the minimum over all documents of their own expiry, and some document attains it. |
| AddressPolicy.OrderDoesNotMatter | src/modules/identity/domain/proof-of-address-policy.ts:72-122 | Any permutation of the documents has the same outcome. |
| AddressPolicy.CurrentWindow | src/modules/identity/domain/proof-of-address-policy.ts:72-156 | Current evidence was issued less than 92 days before the event and lasts at most 92 days after it. |
| AddressPolicy.EvaluateAddress | src/modules/identity/domain/proof-of-address-policy.ts:42-70 | Status current and a current-until date come together, and that date is after the event. |
| KycOutcomes.AddressStatusIff | src/modules/identity/domain/proof-of-address-policy.ts:42-122 | The address statuses partition the inputs, in terms of the provider status and of each document's approval, warnings, issue date, country and age; each reason goes with its statuses. |
| KycOutcomes.AddressRestartableIff | src/modules/identity/repository/prisma-kyc.repository.ts:279-317 | After an applied address outcome an eligible owner may start over exactly when no session is open or under review and no document is still current. |
| KycRepository.Repository.ReserveSessionStart | src/modules/identity/repository/prisma-kyc.repository.ts:144-187 | Refines Reserve: locks and guards first, then one row is created or reused for the new start id and the declared countries; a start id already taken aborts. |
| KycRepository.Repository.CompleteSessionStart | src/modules/identity/repository/prisma-kyc.repository.ts:189-243 | Refines Complete: only a row still being created under this id opens, with its history entry; a reference taken by another row aborts with nothing changed. |
| KycRepository.Repository.FailSessionStart | src/modules/identity/repository/prisma-kyc.repository.ts:245-277 | Refines Fail: only a row still being created under this id fails, and the failure's audit key is claimed with it. |
| KycRepository.Repository.ReserveAddressSessionStart | src/modules/identity/repository/prisma-kyc.repository.ts:279-317 | Refines ReserveAddress: only an eligible account whose address evidence may be renewed starts a session. |
| KycRepository.Repository.CompleteAddressSessionStart | src/modules/identity/repository/prisma-kyc.repository.ts:319-372 | Refines CompleteAddress, with the same guard and abort as the baseline session. |
| KycRepository.Repository.FailAddressSessionStart | src/modules/identity/repository/prisma-kyc.repository.ts:374-406 | Refines FailAddress, with the same guard and audit key as the baseline session. |
| KycRepository.Repository.ApplyProviderOutcome | src/modules/identity/repository/prisma-kyc.repository.ts:408-516 | Refines Apply: a claimed key is a duplicate, an unknown reference is unmatched, an older event is stale, and otherwise row and history change together; the key is claimed in every case. |
| KycRepository.Repository.ApplyAddressOutcome | src/modules/identity/repository/prisma-kyc.repository.ts:518-620 | Refines ApplyAddress, with the same four answers; an eligible row's substatus follows the address evidence. |
| KycRepository.Repository.TransitionToRequiresRenewal | src/modules/identity/repository/prisma-kyc.repository.ts:672-723 | Refines Renew: an account that is no longer eligible is left alone. |
| KycRuns.InvKept | src/modules/identity/repository/prisma-kyc.repository.ts:144-723 | Each of the ten transactions, whatever its arguments, keeps the row invariant of EveryRunKeepsInv and keeps references and start ids unique across rows. |
| KycRuns.EveryRunKeepsInv | src/modules/identity/repository/prisma-kyc.repository.ts:144-723 | In every run of all writers every row is eligible iff its substatus is a verified one; an eligible row is due 12 or 24 months after its last verification as its manual-review flag says; verified rows and current evidence have a current-until date; ids in use are on record. |
| KycRuns.RenewalIsAhead | src/modules/identity/domain/kyc-policy.ts:130-147 | In every run an eligible account's renewal date lies after its last verification. |
| KycLease.LeasesConserved | src/modules/identity/repository/prisma-kyc.repository.ts:144-406 | In every run each effective completion or failure of a start id uses up one effective reservation of that id. |
| KycLease.EndedAtMostOnce | src/modules/identity/repository/prisma-kyc.repository.ts:189-406 | A start id generated once is completed or failed effectively at most once, however starts, timers and webhooks interleave. |
| KycLease.RowHoldsLatestStart | src/modules/identity/repository/prisma-kyc.repository.ts:144-406 | A row always holds the id of its account's latest effective reservation. |
| KycLease.OnlyLatestCompletes | src/modules/identity/repository/prisma-kyc.repository.ts:189-372 | Only the latest reservation's id can complete. |
| KycLease.RowHoldsDeclared | src/modules/identity/repository/prisma-kyc.repository.ts:144-187 | In every run a row's residence and tax countries are those its account declared, each in its place, at its latest effective start; nothing else changes them. |
| KycLease.CountriesStayWithStart | src/modules/identity/repository/prisma-kyc.repository.ts:144-243 | While a row still carries a start id that nothing reserved again, it carries the countries of that start. |
| KycHistory.MayStartIffReopened | src/modules/identity/repository/prisma-kyc.repository.ts:144-187 | In every run an account is free to start exactly when the last transaction that moved its session was a failed start, a lapsed renewal or an expired, abandoned or lapsed session. |
| KycHistory.StartAnswers | src/modules/identity/repository/prisma-kyc.repository.ts:144-187 | What a reservation answers after any run from the empty table: refused for an unknown account or one not free, aborted when the id is another row's, and otherwise done. |
| KycHistory.EverySessionStartsFresh | src/modules/identity/repository/prisma-kyc.repository.ts:144-243 | In every run a session starts only from an account that has not started or needs renewal. |
| KycHistory.EntryIff | src/modules/identity/repository/prisma-kyc.repository.ts:212-706 | Each transaction adds at most one history entry, about the account it wrote, and no state changes without one; the entry is true except exactly for a session start that finds another state than not started and a proof-of-address start that finds the account no longer eligible. |
| KycHistory.RecordedIff | src/modules/identity/repository/prisma-kyc.repository.ts:212-706 | After every run the history ends in the account's state, except exactly when its last recorded transaction was a proof-of-address start that found it no longer eligible. |
| KycWitness.HistoryCanMisstate | src/modules/identity/repository/prisma-kyc.repository.ts:340-360 | A run from the empty table after which the history says eligible and the row says renewal. |
| KycWitness.EntryCanMisstate | src/modules/identity/repository/prisma-kyc.repository.ts:212-230 | A run from the empty table in which a session started for a renewal is recorded as coming from not started. |
| KycHistory.UpdatedAtStep | src/modules/identity/repository/prisma-kyc.repository.ts:144-723 | Provider outcomes move a row's time of last writing only forward; every other transaction sets it to its own time. |
| KycLease.StaysReleased | src/modules/identity/repository/prisma-kyc.repository.ts:144-406 | A start id that is not being created never is again unless it is reserved again. |
| KycLease.AppliedAtMostOnce | src/modules/identity/repository/prisma-kyc.repository.ts:408-620 | In every run each provider event key takes effect at most once, and never if it was claimed before. |
| KycLease.FlagClearedIff | src/modules/identity/repository/prisma-kyc.repository.ts:474-493 | One transaction clears the manual-review flag if and only if it applies an outcome of that account whose decision read the flag as false and asks for no review. |
| KycLease.FlagIsLatchedWhenSerial | src/modules/identity/repository/prisma-kyc.repository.ts:474-493 | In runs where each decision reads the flag it then writes over, the flag never goes back to false. |
| KycLease.ReviewSetsFlag | src/modules/identity/domain/kyc-policy.ts:130-147 | An applied outcome that asks for manual review leaves the flag set. |
| KycWitness.FlagCanBeCleared | prisma/migrations/20260901160000_kyc_renewal_risk_tier/migration.sql:1-9 | The flag is not monotonic in every run: from the empty table, two webhooks of one session planned together and applied in turn leave it false after a manual review. |
| KycStreams.RowsCommuteIff | src/modules/identity/repository/prisma-kyc.repository.ts:454-493 | A baseline and an address outcome commute on a row unless both apply, the first is eligible, the second current, and the evidence ends at or before the first's time. |
| KycStreams.StreamsCommuteIff | src/modules/identity/repository/prisma-kyc.repository.ts:408-620 | The same on the whole table, duplicates and unknown references included: both orders give equal rows if and only if there is no such clash. |
| KycWitness.StreamsCanDisagree | src/modules/identity/repository/prisma-kyc.repository.ts:454-597 | A run from the empty table and two planned webhooks, address evidence ending in April and an approval in May, whose two orders leave different rows. |
| KycStreams.EveryOrderConverges | src/modules/identity/repository/prisma-kyc.repository.ts:408-620 | After any deliveries of one account, in any order, with repeats and among any transactions of other accounts, each stream's columns are those of one of its newest events, or of the session start if that is newer. |
| KycStreams.OrderAndRepeatsDoNotMatter | src/modules/identity/repository/prisma-kyc.repository.ts:408-620 | Two runs with the same events of the account, no two of a stream at one time, end in the same provider columns and eligibility. |
| KycStreams.SubstatusConverges | src/modules/identity/repository/prisma-kyc.repository.ts:454-597 | When current evidence outlives the baseline events, the substatus is the same in every order too. |
| KycStreams.StaysAligned | src/modules/identity/repository/prisma-kyc.repository.ts:454-597 | Under the same condition an eligible row is verified exactly when its address evidence is current, after every delivery. |
| KycServices.StartKycSession | src/modules/identity/application/kyc.service.ts:24-117 | With other writers at work meanwhile, each of the six results has its exact condition on the reservation, the reply and the table at the completion; the row is left being created if and only if the provider confirms a session whose reference is by then taken; an opened row carries the confirmed session and the countries given. |
| KycServices.StartAddressSession | src/modules/identity/application/kyc.service.ts:248-318 | The same conditions for the proof-of-address session. |
| KycServices.FailReleases | src/modules/identity/repository/prisma-kyc.repository.ts:245-406 | Failing a start always ends with the id released, whoever got there first. |
| KycServices.CompleteReleases | src/modules/identity/repository/prisma-kyc.repository.ts:189-372 | Completing aborts, with nothing changed, if and only if the row is being created and the reference is taken; otherwise the id is released, and a completed row is open under its reference. |
| KycServices.CompleteAddressReleases | src/modules/identity/repository/prisma-kyc.repository.ts:319-372 | The same for the proof-of-address session. |
| KycWitness.StartCanStayCreating | src/modules/identity/repository/prisma-kyc.repository.ts:189-243 | A run from the empty table in which a second account is handed the first one's session and its row stays being created. |
| KycServices.FailuresStayFinal | src/modules/identity/repository/prisma-kyc.repository.ts:245-406 | One transaction with a fresh start id keeps it true that no row is being created under an id whose failure is on record. |
| KycServices.FailuresAlwaysFinal | src/modules/identity/repository/prisma-kyc.repository.ts:144-406 | In every run from the empty table in which no start id is generated twice, no row is being created under an id whose failure is on record. |
| KycWebhook.ProcessWebhook | src/modules/identity/application/kyc.service.ts:388-522 | One webhook, with other writers at work while the provider is asked, ends in exactly the planned transaction, and the answer is that transaction's own. |
| KycWebhook.TextsAndStatuses | src/modules/identity/application/kyc.service.ts:525-541 | The ten provider words and the ten statuses correspond one to one, and any other text is no status. |
| KycWebhook.BaselineOutcomeIff | src/modules/identity/application/kyc.service.ts:388-500 | A webhook becomes a baseline outcome if and only if its key is new, it is of this application, environment, kind and workflow, it names the account whose row holds the session, and a final status is backed by a matching decision; with what event, time, status, decision and countries. |
| KycWebhook.AddressOutcomeIff | src/modules/identity/application/kyc.service.ts:388-515 | The same for the owner proof of address, whose workflow has to be configured and another one. |
| KycWebhook.OthersOnlyClaim | src/modules/identity/application/kyc.service.ts:402-480 | Every other webhook leaves rows and history alone and only uses up its key. |
| KycWebhook.TextDecidesRow | src/modules/identity/application/kyc.service.ts:456-500 | What an applied baseline webhook puts on the row, from the word it carried: the provider status, its time, and the state each word leads to. |
| KycWebhook.JudgedAsDeclared | src/modules/identity/application/kyc.service.ts:492-499 | In every run from the empty table a baseline webhook is judged by the countries its account declared at its latest start. |
| KycWebhook.PlannedIsCorrelated | src/modules/identity/application/kyc.service.ts:414-470 | Whatever is applied is of the session's own account, matches the fetched decision and reads the row's current columns, so the convergence results apply to webhooks. |
| KycWebhook.PlannedIsADelivery | src/modules/identity/application/kyc.service.ts:414-521 | After any deliveries, what the worker plans next for the account is one more delivery of the sessions it had at the start. |
| KycWebhook.AnswerIsTruthful | src/modules/identity/application/kyc.service.ts:472-521 | The answer says duplicate iff the key was claimed, stale iff the row is newer, and otherwise the event's columns are now on the row. |
| KycJobs.ExpireStuckSessionCreations | src/modules/identity/application/kyc-stuck-session.service.ts:39-70 | One run fails exactly the overdue starts of both kinds, leaves every other row alone, claims exactly their keys, counts them, and leaves no overdue start. |
| KycJobs.NothingStaysStuck | src/modules/identity/application/kyc-stuck-session.service.ts:18-70 | With the timeout in force, a start still being created after a run was touched less than fifteen minutes before it and was left alone. |
| KycJobs.ExpiredIff | src/modules/identity/application/kyc-stuck-session.service.ts:18-70 | A start of either kind is failed exactly when its row was last touched fifteen minutes or more before, and may then be started again; every other column stays. |
| KycJobs.ListStuckSessionCreations | src/modules/identity/repository/prisma-kyc.repository.ts:725-750 | The list has one entry for every row and kind being created, and no other. |
| KycJobs.RunKycRenewalTimer | src/modules/identity/application/kyc-renewal.service.ts:16-48 | One run moves exactly the overdue accounts, reminds exactly the others within the lead time, records each move once and counts both. |
| KycJobs.MovedIff | src/modules/identity/application/kyc-renewal.service.ts:24-33 | The run moves exactly the eligible accounts whose renewal date has passed, and only their state, substatus and time. |
| KycJobs.RemindedIff | src/modules/identity/application/kyc-renewal.service.ts:34-45 | It reminds exactly the listed accounts with a contact that are not yet due and whose reminder day is today. |
| KycJobs.RenewalLeavesNoneOverdue | src/modules/identity/application/kyc-renewal.service.ts:16-48 | After a run no eligible account is overdue, and every account that was moved may start a new session at once. |
| SessionSupersede.SupersededIff | src/modules/auth/domain/device-session-supersede.ts:21-71 | A listed session is superseded if and only if it is a live device session of the key and another such session in the list is newer. |
| SessionSupersede.RevokedIffLaterListed | src/modules/auth/domain/device-session-supersede.ts:38-71 | Field by field: a session is revoked if and only if it is listed, is at the device level, carries the key and has no expiry or one ahead, and such a session with a later creation time, or the same and a greater id, is listed. |
| SessionSupersede.KeptIsLatest | src/modules/auth/domain/device-session-supersede.ts:38-66 | The one that is kept was created no earlier than any other; an unreadable time counts as the earliest. |
| Base.LessIff | src/modules/auth/domain/device-session-supersede.ts:59-59 | Texts compare at the first code unit where they differ, or where one ends first. |
| SessionSupersede.StepKeeps | src/modules/auth/infrastructure/customer/better-auth-device-auth.plugin.ts:371-398 | Every insert, list, revoke, finish and discard of overlapping ceremonies keeps the protocol invariant: the newest session is live unless discarded, and of any two live sessions the older is on its way out. |
| SessionSupersede.NewestIsNeverRevoked | src/modules/auth/domain/device-session-supersede.ts:21-71 | In every interleaving the session with the latest creation time, by id among equals, is live from its insert on, unless its own ceremony fails and discards it. |
| SessionSupersede.AtMostOneSurvives | src/modules/auth/domain/device-session-supersede.ts:21-71 | Once all ceremonies of the key have ended, failed ones included, and one has finished, at most one of its sessions is live. |
| SessionSupersede.NewestSurvivesIff | src/modules/auth/infrastructure/customer/better-auth-device-auth.plugin.ts:300-398 | The latest session there ever was, by creation time and id, is then the one open session of the key, if and only if its own ceremony did not discard it. |
| SessionSupersede.OneSurvivesIff | src/modules/auth/infrastructure/customer/better-auth-device-auth.plugin.ts:329-398 | One session survives if and only if the latest one open at the last listing of the key was not already queued by an earlier ceremony and is not discarded by its own; and then it is that one. |
| SessionSupersede.NoneMaySurvive | src/modules/auth/infrastructure/customer/better-auth-device-auth.plugin.ts:300-352 | A run in which a login defers to one created later that then fails: no session is left. |
| SessionSupersede.ExactlyOneSurvives | src/modules/auth/domain/device-session-supersede.ts:21-71 | Once all ceremonies of the key have finished without a failure, exactly one of its sessions is open, and it was created no earlier than any there ever was. |
| SessionSupersede.OthersAreUntouched | src/modules/auth/domain/device-session-supersede.ts:21-49 | Sessions of other levels, and of keys no ceremony uses, stay live. |
| StableJson.CanonicalIff | src/shared/http/idempotency.ts:114-126 | Two parsed bodies of any depth have the same text if and only if, with infinities read as null, they are equal up to the order of object properties. |
| StableJson.CanonicalIffFinite | src/shared/http/idempotency.ts:110-126 | The text is a canonical form of exactly the bodies without an infinity: any other body shares its text with a finite one that is not equal to it. |
| StableJson.InfinityIsWrittenAsNull | src/shared/http/idempotency.ts:125-125 | The bodies with 1e400 and with null in one place differ and have one text. |
| StableJson.ReadsOneWay | src/shared/http/idempotency.ts:114-126 | The text is unambiguous inside any longer text, for every parsed body: what follows it is determined too. |
| StableJson.QuotesAreUnambiguous | src/shared/http/idempotency.ts:121-125 | Quoted strings, with escapes, surrogate pairs and lone surrogates, can be read in one way only. |
| JsonReader.ReadUndoesStringify | src/shared/http/idempotency.ts:114-126 | The canonical text of every parsed body is a JSON text of RFC 8259, and reading it gives the body back up to the order of properties, with null for an infinity. |
| JsonReader.QuoteIsRead | src/shared/http/idempotency.ts:121-125 | A quoted string holds only what section 7 of RFC 8259 allows and reads back as the string, whatever follows it. |
| JsonReader.MissingBody | src/shared/http/idempotency.ts:125-125 | A missing body is hashed as a word that is no JSON text. |
| JsonReader.QuoteIsWellFormed | src/shared/http/idempotency.ts:114-126 | No surrogate of a quoted string is without its partner, whatever the string. |
| Idempotency.Store.Save | src/infrastructure/idempotency/prisma-idempotency-store.ts:18-52 | The first writer wins: a save changes a free slot only, and what it returns is the slot's row; it fails exactly when the database does. |
| Idempotency.Store.Find | src/infrastructure/idempotency/prisma-idempotency-store.ts:8-16 | The row of the key and endpoint, or nothing. |
| Idempotency.Handle | src/shared/http/idempotency.ts:22-108 | One request: a missing key is a 400, a failed lookup a 503; the handler runs exactly when the lookup answers and nothing is stored for this key on this endpoint, and otherwise the answer is a replay or a 409; its response is sent whether or not it could be saved, and a slot taken meanwhile is left alone. |
| Idempotency.BlankIff | src/shared/http/idempotency.ts:23-24 | A key is missing exactly when the header is absent or trimming it leaves nothing. |
| Idempotency.SpacesAre | src/shared/http/idempotency.ts:24-24 | What trimming removes is the white space and the line terminators of ECMAScript. |
| Idempotency.RowNeverChanges | src/infrastructure/idempotency/prisma-idempotency-store.ts:18-52 | In every interleaving of requests a stored row is written once and never changed or removed. |
| Idempotency.AnsweredFromFirstSave | src/shared/http/idempotency.ts:22-108 | A request looked up after the slot's first save never runs its handler: it gets the stored response iff its body equals the writer's up to key order and with infinities read as null, a 409 iff it does not, or a 503 if the lookup failed. |
| Idempotency.ToldOnlyOfTwin | src/shared/http/idempotency.ts:44-73 | In every run a request is sent a stored response or a 409 only when another request with the same key and the same endpoint ran its handler and was sent that response, and which of the two is decided by the bodies. |
| Idempotency.OtherEndpointsDoNotMatter | src/shared/http/idempotency.ts:44-55 | A request runs its handler when no request with its key and its endpoint was sent its own response, whatever is stored for the key on other endpoints. |
| Idempotency.TwinsNeverRunAfterSave | src/shared/http/idempotency.ts:44-108 | Once a response is saved, no later request with its key and its endpoint runs its handler, in any continuation. |
| Idempotency.RunsTwiceIff | src/shared/http/idempotency.ts:44-108 | In every run a slot's handler is started a second time if and only if some lookup finds the slot free while another request of it is being handled, or after a response of it was not saved. |
| Idempotency.RunsTwiceIffOverlap | src/shared/http/idempotency.ts:44-108 | When no response of the slot is lost, that is exactly when some lookup overlaps another request of the slot. |
| Idempotency.ResponsesAgree | src/shared/http/idempotency.ts:22-108 | When nothing is lost and no lookup overlaps, all responses of the slot are the stored one. |
| Idempotency.OverlapCanDisagree | src/shared/http/idempotency.ts:55-73 | Two overlapping requests with one key and body both run their handlers and can answer differently. |
| KeysetPaging.WalkIsSorted | src/modules/investor-activity/application/list-investor-activity.service.ts:84-161 | Following the cursors, whatever rows come and go between pages, shows rows strictly in list order, so none twice. |
| KeysetPaging.WalkIsNewestFirst | src/modules/investor-activity/repository/prisma-investor-activity.repository.ts:122-150 | Over all pages the newest activation comes first, rows without one after all others, and at the same instant the greater id first. |
| KeysetPaging.PageIs | src/modules/investor-activity/application/list-investor-activity.service.ts:100-128 | A page is the earliest rows its cursor admits, in order, and has a next cursor exactly when it leaves some out. |
| KeysetPaging.StableRowIsShownIff | src/modules/investor-activity/repository/prisma-investor-activity.repository.ts:122-150 | A row there throughout a finished walk is shown if and only if no page ended on a row that skips it. |
| KeysetPaging.SkipsIff | src/modules/investor-activity/application/list-investor-activity.service.ts:146-161 | A row skips a later one exactly when both fall in one millisecond and the later one is not on that millisecond with a smaller id. |
| KeysetPaging.StableRowShownOnce | src/modules/investor-activity/application/list-investor-activity.service.ts:84-161 | A stable row that no other row skips is shown exactly once. |
| KeysetPaging.PagesAreTheListIff | src/modules/investor-activity/application/list-investor-activity.service.ts:84-161 | On a table that does not change, the pages of every limit from 1 to 100 put together are the sorted list if and only if no row skips another. |
| KeysetPaging.SeparablePages | src/modules/investor-activity/application/list-investor-activity.service.ts:84-161 | On such a table the pages of any limit, put together, are the sorted list. |
| KeysetPaging.WholeMillisecondsAreSeparable | src/modules/investor-activity/repository/prisma-investor-activity.repository.ts:122-150 | Times written from JavaScript dates never make one row skip another. |
| KeysetPaging.WalkFinishes | src/modules/investor-activity/application/list-investor-activity.service.ts:100-128 | The walk ends within one page more than there are rows left. |
| KeysetPaging.ReservationsListAlike | src/modules/investor-activity/repository/prisma-investor-activity.repository.ts:38-59 | The reservations filter is the positions filter on rows with a time, so every result here is about both lists. |
| KeysetPaging.MicrosecondIsLost | src/modules/investor-activity/application/list-investor-activity.service.ts:146-161 | Two rows a microsecond apart are not separable. |
| AuthPaths.CanonicalIsFixed | src/modules/auth/domain/disabled-auth-routes.ts:63-70 | Every canonical auth path is left exactly as written by URL parsing (dot segments as in section 5.2.4 of RFC 3986, their percent-encoded forms, backslashes, percent-encoding of UTF-8). |
| AuthPaths.AllowedIsRoutedAsJudged | src/modules/auth/domain/disabled-auth-routes.ts:94-96 | A path the guard lets through is routed as it was judged and is not disabled once parsed. |
| AuthPaths.NormaliseIsIdempotent | src/modules/auth/domain/disabled-auth-routes.ts:4-10 | For every raw path, parsing its pathname once more changes nothing; no dot segment in any spelling is left. |
| AuthPaths.VerdictIgnoresCaseAndSlashes | src/modules/auth/domain/disabled-auth-routes.ts:78-87 | The disabled verdict is the same in every ASCII case and with any number of trailing slashes, for every path. |
| AuthRoutes.AllowedIff | src/modules/auth/domain/disabled-auth-routes.ts:63-96 | A path is let through if and only if it is canonical segments below /api/auth/ that in lower case are none of the closed routes: a segment with the word password, sign-in or sign-up by email, the email-otp routes, passkey deletion and the authorization proxy. |
| AuthRoutes.AllowedIsRoute | src/modules/auth/domain/disabled-auth-routes.ts:94-96 | Every path that is let through is of that form. |
| AuthRoutes.UnreservedIff | src/modules/auth/domain/disabled-auth-routes.ts:24-32 | The characters of a canonical segment are the unreserved ones of section 2.3 of RFC 3986. |
| AuthRoutes.LowerIs | src/modules/auth/domain/disabled-auth-routes.ts:79-79 | Lower case takes each of the 26 letters to its own small one and leaves every other ASCII character alone. |
| AuthRoutes.KeptIff | src/modules/auth/domain/disabled-auth-routes.ts:4-10 | Of a path, URL parsing writes every character as it is but controls, spaces, those beyond ASCII and nine named ones. |
| AuthRoutes.Utf8IsRead | src/modules/auth/domain/disabled-auth-routes.ts:4-10 | The others become the percent-encoded bytes of their UTF-8, by section 3 of RFC 3629, for every character. |
| ClientIp.ExpandInvertsSerialise | src/shared/http/rate-limit.ts:109-119 | Reading canonical IPv6 text (section 4 of RFC 5952) gives back the eight groups, for every address. |
| ClientIp.DigitsAre | src/shared/http/rate-limit.ts:109-119 | The digits of both bases, in both cases, each with its value, and no others. |
| ClientIp.SameKeyIff | src/shared/http/rate-limit.ts:86-105 | Two clients get the same bucket key if and only if they are one IPv4 host, mapped or not, or share a /64; IPv4 and IPv6 keys never collide. |
| ClientIp.SameNetworkIff | src/shared/http/rate-limit.ts:86-105 | Two IPv6 clients share a key if and only if the first four groups of their addresses are the same. |
| ClientIp.KeyedIff | src/shared/http/rate-limit.ts:86-105 | A text gets a key if and only if it is an address. |
| ClientIp.MappedGetsIpv4Key | src/shared/http/rate-limit.ts:100-103 | An IPv4-mapped address (section 2.5.5.2 of RFC 4291) gets exactly the key of its IPv4 address. |
| ClientIp.ZoneDoesNotMatter | src/shared/http/rate-limit.ts:88-88 | A zone after a percent sign does not change the key. |
| ChallengeReplay.SafeIff | src/modules/auth/domain/device-challenge-replay.ts:5-40 | In every timed run EXPIRED means that the enrolment can no longer register a device, if and only if the insert deadline and the transaction bound together fit the replay window. |
| ChallengeReplay.LimitsAreSafe | src/modules/auth/domain/device-challenge-replay.ts:39-40 | The constants in force, with the transaction's 10 second limit, fit; they would with transactions of up to 60.001 seconds, and no longer. |
| ChallengeReplay.RunKeepsInv | src/modules/auth/repository/customer/prisma-device-challenge.repository.ts:36-86 | Consume, deadline check, commit, rollback, prune and replay steps keep the protocol invariant on the database clock. |
| ChallengeReplay.OnRecordThroughWindow | src/modules/auth/repository/customer/prisma-device-challenge.repository.ts:78-86 | In every run an issued challenge stays on record, with its expiry, until the whole replay window after it. |
| ChallengeReplay.OpenTransactionKeepsRow | src/modules/auth/repository/customer/prisma-device.repository.ts:65-82 | While a checked transaction is open its challenge cannot be pruned. |
| ChallengeReplay.ReplayConverges | src/modules/auth/application/customer/device-enrolment.service.ts:169-189 | Past the window, in every reachable state, a replay is told EXPIRED if and only if there is no device, and ALREADY_ENROLLED otherwise. |
| ChallengeReplay.ReplayedWithinWindow | src/modules/auth/application/customer/device-enrolment.service.ts:169-178 | Within the window a replay is told REPLAYED. |
| BusinessDays.AddBusinessDays | src/modules/intake/domain/case-review.policy.ts:74-87 | The loop ends, by a lexicographic measure, on the n-th business day at the same time of day, and refuses any n below 1. |
| BusinessDays.WeekendIff | src/modules/intake/domain/case-review.policy.ts:81-85 | The days that do not count are exactly 1970-01-03 and 1970-01-04 and every seventh day from them. |
| BusinessDays.NthIsFirst | src/modules/intake/domain/case-review.policy.ts:74-87 | That day is the first one with n business days since the start. |
| BusinessDays.CountDecidesNth | src/modules/intake/domain/case-review.policy.ts:74-87 | It is the only business day with that count. |
| BusinessDays.NthIsAdditive | src/modules/intake/domain/case-review.policy.ts:74-87 | Adding m and then n business days adds m + n. |
| BusinessDays.NthIncreases | src/modules/intake/domain/case-review.policy.ts:74-87 | More business days end on a later day. |
| BusinessDays.FiveIsAWeek | src/modules/intake/domain/case-review.policy.ts:74-87 | From a business day 5k business days are 7k days. |
| BusinessDays.SameDateIff | src/modules/intake/domain/case-review.policy.ts:107-113 | Equal year, month and date mean the same UTC day. |
| BusinessDays.SendApplicantResponseReminders | src/modules/intake/application/case-timer.service.ts:16-39 | One tick reminds exactly the requests with a contact whose milestone is today, in order, and counts them. |
| BusinessDays.RemindedIff | src/modules/intake/application/case-timer.service.ts:16-39 | An address is reminded of a due date exactly when it belongs to a request with that due date whose milestone is today. |
| BusinessDays.OverdueFrom | src/modules/intake/domain/case-review.policy.ts:89-91 | A request is overdue from the millisecond after it is due. |
| BusinessDays.EachMilestoneOnce | src/modules/intake/domain/case-review.policy.ts:93-105 | With one tick a day the number of reminders is the number of distinct milestones reached: none missed, none repeated. |
| BusinessDays.MilestoneBeforeDue | src/modules/intake/domain/case-review.policy.ts:89-105 | A milestone shorter than the response window is reminded before the due date, whatever time of day the job runs. |
| EventLedger.Ledger.AppendIntakeCaseEvent | src/modules/intake/repository/intake-case-event.repository.ts:34-102 | Refines Append: a known key returns its event, an unknown stage or case aborts, and otherwise counter and event change together. |
| EventLedger.Ledger.Backfill | src/cli/backfill-intake-case-events.ts:49-103 | The ledger is what importing the counted rows makes of it, whether their events are new, already there or have no case; exactly the unmapped ones are skipped; the loop completes on every ledger in good order. |
| EventLedger.EveryRunKeepsInv | src/modules/intake/repository/intake-case-event.repository.ts:34-102 | In every run of live appends, replays, imports and case changes each case's events are numbered 1 to its counter in order, and no key appears twice. |
| EventLedger.RestartsAddTheSame | src/cli/backfill-intake-case-events.ts:59-98 | Any number of interrupted imports followed by a full one end in the ledger a single full import makes, and a further one changes nothing. |
| EventLedger.ImportedExactlyOnce | src/cli/backfill-intake-case-events.ts:59-98 | Among interleaved live appends, a mapped row imported while its case is there ends with exactly one event, under its own key, case and type. |
| LedgerImport.ImportReproducesLiveIff | src/cli/backfill-intake-case-events.ts:23-40 | Importing the audit rows a live change wrote gives the events the change recorded itself, in type, stages and actor, if and only if it is none of: a case created by staff, an expiry by staff, an approval that queues a handoff, a closure, and a partner's record that completes the structuring. |
| LedgerImport.OfferingChangesAreImported | src/cli/backfill-intake-case-events.ts:60-68 | Each of the four changes of an offering becomes its event, by staff or by the system as the row has an actor or not. |
| LedgerImport.ImportedIs | src/cli/backfill-intake-case-events.ts:73-97 | An imported event, field by field: the row's own key, case, type, stages, actor, resource and time, at version 0. |
| LedgerImport.AppendedIs | src/modules/intake/repository/intake-case-event.repository.ts:34-102 | A new event has the next number of its case and the workflow of the stage it leads to, comes from or finds, for each of the nine stages; imported events default to version 0 and live ones to 1. |
| PhotoStore.ReadBody | src/modules/intake/application/upload-case-document.service.ts:101-104 | The chunk loop refuses a body exactly when the whole of it is over 100 MiB or empty, and otherwise returns all its bytes. |
| PhotoStore.StoresAgree | src/modules/intake/application/upload-case-document.service.ts:21-142 | At every point of every run with concurrent uploads, deletions, lost answers and crashes, each live document's object exists, a room has at most five live photos, a live thumbnail's source is live, and a room's preferred photo is a live photo of that room. |
| PhotoStore.EveryRunKeepsInv | src/modules/intake/application/upload-case-document.service.ts:21-142 | Each of the fourteen steps keeps the invariant behind it, including that no object is deleted under a live row. |
| PhotoStore.RoomLimit | src/modules/intake/application/upload-case-document.service.ts:121-127 | The code counts a case's photos; because a property is created with its one case, no room ever holds more than five. |
| PhotoStore.DeletedPhotoIsGone | src/modules/intake/application/upload-case-document.service.ts:33-50 | In every continuation neither a deleted photo nor its thumbnail is live again and no room shows it first; its deletion touches nothing else and hands exactly their two objects over for removal. |
| PhotoStore.DeletedRoomIsGone | src/modules/intake/application/upload-case-document.service.ts:52-83 | With its room every document in it is gone in every continuation; documents elsewhere are untouched, and exactly the live ones' objects are handed over. |
| PhotoStore.RepresentativeIs | src/modules/intake/application/upload-case-document.service.ts:21-31 | A photo made representative is what its room shows first, and nothing else changes. |
| PhotoStore.RemovedIff | src/modules/intake/application/upload-case-document.service.ts:45-49 | An object goes from storage exactly when its removal succeeds; either way it is tried once. |
| PhotoStore.Fill | src/modules/intake/application/upload-case-document.service.ts:85-142 | The limit is reached: undisturbed uploads put as many photos into a room as it has space for, and leave other cases' alone. |
| PhotoService.Service.Execute | src/modules/intake/application/upload-case-document.service.ts:85-142 | One upload, with other requests at work between its steps, is a run of those steps; what it accepts is complete in both stores, and what it refuses has no row and, as far as storage answers, no object left. |
| PhotoService.Service.SetRepresentative | src/modules/intake/application/upload-case-document.service.ts:21-31 | Succeeds exactly for a live photo of this case in a room of its property, and changes only that room's choice. |
| PhotoService.Service.DeletePhoto | src/modules/intake/application/upload-case-document.service.ts:33-50 | The withdrawal transaction followed, after whatever happens meanwhile, by the deletion of exactly the photo's and its thumbnail's objects. |
| PhotoService.Service.DeleteRoom | src/modules/intake/application/upload-case-document.service.ts:52-83 | The room's transaction followed by the deletion of exactly the objects of its live documents; refused exactly when the room is not of the case's property. |
| PhotoService.ForeignRun | src/modules/intake/application/upload-case-document.service.ts:85-142 | No run of other requests touches an upload that is under way: not its phase, not its objects, not its absence from the tables. |

## Left out

- Isolation weaker than atomic transactions, database errors inside a transaction, and commits whose outcome the caller never learns.
- HTTP routing, schemas, email, antivirus, object storage and provider clients: their answers are parameters of the model.
- SHA-256 is an injective constructor, and base64url and JSON parsing of cursors are not modelled.
- The job that reconciles stuck open sessions with the provider: each of its passes is one outcome transaction of KycRuns.
- The wording of audit payloads, event metadata and history entries beyond account, states, reason and time.
- Which countries are supported, and the codes they are written with, are tables taken over as they stand.
- Offerings, settlement and reservation transactions: another part of the system.
- KycRepository.Repository.ReserveSessionStart: the lock order of account and eligibility rows is not modelled, because a transaction is one step.
- KycServices.StartKycSession: the start id is one nobody has used, as the generated id is; the same holds for KycServices.StartAddressSession and for the document id of PhotoService.Service.Execute.
- KycJobs.ExpireStuckSessionCreations: stated for a run with no concurrent writer, and for tables on which no failed start id is being created again, which KycServices.FailuresAlwaysFinal shows of every run with fresh ids.
- KycJobs.RunKycRenewalTimer: stated for a run with no concurrent writer.
- KycStreams.EveryOrderConverges: the last verification and renewal dates are not claimed, because they depend on the order of delivery.
- SessionSupersede.AtMostOneSurvives: stated, like the results beside it, for runs in which no session of the key expires and every revocation and discard reaches the database; the code logs and ignores one that fails.
- AuthPaths.VerdictIgnoresCaseAndSlashes: lower-casing of a character outside ASCII is an arbitrary function of that character, so the context rule for the Greek final sigma is not modelled.
- AuthPaths.NormaliseIsIdempotent: the stripping of spaces at the very end of a URL is not modelled.
- ClientIp.ExpandInvertsSerialise: parseInt is modelled on text that starts with neither space, sign nor 0x, which is all a canonical address has.
- ClientIp.SameKeyIff: which texts are IPv6 addresses is the platform's parser, a parameter.
- KycOutcomes.SpelledInAnyCase: stated for warnings in ASCII; what upper-casing makes of other characters is modelled in KycPolicy.
- JsonReader.ReadUndoesStringify: the reader takes a number to be the longest run of number characters, which is more than the grammar of section 6 of RFC 8259 allows.
- LedgerImport.ImportReproducesLiveIff: the live writers' audit rows and events are tables of their own, read off the intake repository; corrections and reversals, which the import does not map, are not among them.
- KeysetPaging.WalkIsSorted: ids are compared by code unit, not by a database collation.
- ChallengeReplay.SafeIff: the check for an active device before the challenge is consumed is not modelled; it only turns requests away.
- BusinessDays.SendApplicantResponseReminders: milestones are at least one, which the setting's schema requires.
- PhotoStore.StoresAgree: a property has one case, as both places that create cases see to (the schema alone would allow more), room ids are not reused, and malware scanning and image decoding are outcomes of a step.
- Expiry of overdue information requests: its repository decides it and is not part of this model.
