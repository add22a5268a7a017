# Clotho gateway: durable work, admission, listings and large files

A Dafny model of the parts of the Clotho API gateway on which several replicas, crashing workers, retrying
clients and paging readers depend, with proofs of what they guarantee together.

| file | models |
|---|---|
| `ActionRuns.dfy` | the `action_runs`/`action_logs` tables and the statements that create, claim, renew and finish a run |
| `RunProtocol.dfy`, `RunTheorems.dfy` | any number of replicas working on runs: all interleavings of claims, renewals, clock ticks, crashes, split finishes and log writes, plus releases and pinned runs |
| `Recovery.dfy`, `ScanFairness.dfy` | the recovery scan (oldest fifty eligible runs), and how soon a run is claimed in every crash-free interleaving of the protocol |
| `HubJobs.dfy`, `HubProtocol.dfy`, `HubTheorems.dfy` | Hub import jobs: claim with counter reset, preflight, per-file progress under the lease, commit record, terminal updates, and the scan's own failure update |
| `TtlTable.dfy` | keyed reservations that expire, with lazy deletion and batch cleanup, against an abstract map of live entries |
| `Idempotency.dfy`, `Webhooks.dfy`, `WebhookProtocol.dfy` | the two stores built on it: idempotent Action starts, and webhook replay admission by any number of overlapping handlers |
| `Keyset.dfy`, `Listings.dfy`, `CursorCodec.dfy` | keyset pages over a collection that changes between requests, the repository and activity listings, and their opaque cursors |
| `Visibility.dfy` | the SQL visibility filters against the point read by name |
| `Decimal.dfy`, `LfsPointer.dfy`, `Arachne.dfy`, `Accounting.dfy` | pointer files, threshold routing, materialized and bounded reads, and the two size-accounting loops |
| `ByteRanges.dfy`, `RangeStandard.dfy` | byte ranges of release files, which headers are accepted, and the comparison with RFC 9110 |
| `Utf8.dfy` | UTF-8 by its encoder, against the byte-range checker the pointer parser rests on |
| `Prelude.dfy`, `Behaviours.dfy`, `Tally.dfy` | result types; runs of a state machine; counting by key |

## How to read it

Tables are finite maps. A statement that updates one row is a function from the row to the row; the class methods
perform the same update column by column, are proved equal to it, and state the columns they leave outright. A protocol is a total function
`Apply(state, step)` in which a step whose guard is false changes nothing, so `Exec` over every sequence of steps is
every interleaving. Histories (`claims`, `finishes`, `ends`, `log`) record which updates reported an affected row or
what each request was answered; no step reads them.

Every lemma carries `{:induction false}`. In Dafny 4.11 the hypothesis of automatic induction over a sequence is also
assumed for sequences of other element types and can be contradictory; no proof here relies on it.

Assumptions:

- One SQL statement, or one transaction, is atomic; `now()` never goes back and is fixed inside a transaction; primary
  and unique keys hold. New rows have the defaults of the schema (queued, zero counters, no lease).
- A worker id is never used twice: a claim by an id already in use changes nothing.
- The gateway's own millisecond clock is arbitrary; nothing relies on it agreeing with the database clock.
- Releases are insert-only. The digest of a manifest, what it says about readiness, and what its `jsonb` column gives
  back are parameters; a release counts as verified only if the digest of the manifest read back is the stored one.
- SHA-256 and Arachne's Merkle hash are arbitrary functions that print 64 lowercase hexadecimal digits. Where two
  payloads must not be confused, the lemma asks that the contents involved do not collide (`NoCollision`).
- Arachne answers a download with the bytes stored under the hash (`Serves`), in blocks of any size, or fails; length
  zero means through the end. `SomeServiceServes` shows that this can be met; `CorruptionIsDetected` does without it.
- A byte string is a `string` with one character per byte. Sizes are `u64` or 64-bit `usize`; where the service
  wraps, saturates or checks, the model does.
- What the JSON library makes of text outside the encoder's layout is a parameter of the cursor decoders, and so is
  the printing of timestamps. Event timestamps are signed 64-bit counts of microseconds, printed as plain text of at
  most 64 characters and read back (`Faithful`, met by the clock of `SomeClockIsFaithful`).

Results that differ from what one might expect of the service, each with a concrete case:

- A Hub job that has failed can still become succeeded, exactly when its stored request does not decode
  (`HubTheorems.FinalExactlyWhenDecodable`, `HubTheorems.FailedThenSucceeded`): the scan's failure update neither
  checks nor releases the lease.
- Without crashes an eligible run stops waiting within r/50 + 1 scan rounds, but it is certain to be claimed exactly
  when it was never claimed before or its last claimer has crashed: a live holder whose lease has lapsed may renew it
  first (`ScanFairness.ScanIsFair`, `ScanFairness.ClaimedExactlyWhenOrphaned`; such a run is reached in
  `ScanFairness.LapsedHolderIsReachable`).
- A retry of an idempotent create is answered with an internal error, not the stored response, exactly when its own
  response would be too large to store (`Idempotency.RetryIsAnswered`, `Idempotency.OversizedRetryIsRefused`).
- A payload below the threshold that is itself pointer-shaped does not read back, unless it describes itself
  (`Arachne.CommitThenRead`, `Arachne.PointerShapedPayloadIsLost`).
- The manifest inspects some blobs up to 256 KiB, the statistics none above 1024 bytes: the two Arachne counts agree
  exactly when no inspected larger blob parses as a pointer (`Accounting.LoopsAgree`,
  `Accounting.BigCardIsCountedOnce`).
- Of the headers RFC 9110 allows for one byte range, the service refuses satisfiable ones exactly when the unit is not
  in lower case, empty list elements surround the range, the last position or suffix length exceeds `u64`, or the file
  is empty (`RangeStandard.MatchesTheStandard` with `SpellingIsRefused`, `OversizedLastPositionIsRefused` and
  `EmptyFileSuffixIsRefused`). It accepts headers the grammar does not allow exactly when a position carries a `+`
  (`RangeStandard.AcceptedIsGrammatical`, `RangeStandard.PlusIsAccepted`).

## Model

| member | source | states |
|---|---|---|
| ActionRuns.ApplyFinished | crates/clotho-api-gateway/src/actions.rs:1533-1551 | the in-place update, column by column: reported outcome, finish minus start for a started run that ends later and zero otherwise, provider kept when none is reported, first job updated, the others and every other column untouched |
| ActionRuns.ActionStore.constructor | crates/clotho-api-gateway/migrations/1001_actions.sql:1-44 | both tables start empty |
| ActionRuns.ActionStore.CreateRun | crates/clotho-api-gateway/src/actions.rs:182-237 | run and empty log appear together, queued and unattempted, or neither does when the id is taken |
| ActionRuns.ActionStore.ClaimRun | crates/clotho-api-gateway/src/actions.rs:418-458 | a claim takes effect exactly on queued runs and running ones whose lease has lapsed; it resets the attempt's columns, leases for thirty seconds, adds one to `attempt`, and changes nothing else |
| ActionRuns.ActionStore.RenewRunLease | crates/clotho-api-gateway/src/actions.rs:460-474 | a heartbeat extends the lease of the running row its worker holds and changes nothing otherwise |
| ActionRuns.ActionStore.UpdateRunLeased | crates/clotho-api-gateway/src/actions.rs:1570-1605 | the guarded update copies the computed columns and drops the lease only for the holder; provenance and `attempt` stay |
| ActionRuns.ActionStore.FinishRun | crates/clotho-api-gateway/src/actions.rs:476-543 | undisturbed, read-compute-update equals one atomic finish of the row plus the log; without the lease both tables are unchanged |
| RunProtocol.OwnStep | crates/clotho-api-gateway/src/actions.rs:460-543 | each step of a worker keeps the run's invariant and its own agreement with the row, appends no claim and leaves provenance alone |
| RunProtocol.OthersStep | crates/clotho-api-gateway/src/actions.rs:476-543 | a worker's step never breaks what any other claimer of the run relies on |
| RunProtocol.ClaimStep | crates/clotho-api-gateway/src/actions.rs:421-442 | a claim re-establishes the run's invariant with the fresh worker as holder |
| RunProtocol.StepKeepsInv | crates/clotho-api-gateway/src/actions.rs:418-543 | every step of any worker, handler or the clock keeps the whole invariant |
| RunProtocol.ExecKeepsInv | crates/clotho-api-gateway/src/actions.rs:418-543 | so does every sequence of steps |
| RunTheorems.OneLeaseAtATime | crates/clotho-api-gateway/src/actions.rs:421-430 | in every interleaving at most one worker of a run has been promised a lease that is still running |
| RunTheorems.ClaimFindsNoLease | crates/clotho-api-gateway/src/actions.rs:421-442 | a successful claim finds every earlier lease expired, leaves exactly the columns of the claim statement, and touches no other run |
| RunTheorems.ClaimTakesEffectExactly | crates/clotho-api-gateway/src/actions.rs:427-430 | in every reachable state a fresh worker's claim takes effect exactly on runs that have not ended and whose promises have all expired |
| RunTheorems.RenewalPromisesThirtySeconds | crates/clotho-api-gateway/src/actions.rs:464-473 | a heartbeat of the live holder promises thirty seconds and changes only the lease |
| RunTheorems.FinishColumns | crates/clotho-api-gateway/src/actions.rs:476-492 | the finish that takes effect sets every column from the worker's report, its own start and finish time and the row, and touches no other run |
| RunTheorems.OneFinishByLastClaimer | crates/clotho-api-gateway/src/actions.rs:476-543 | `attempt` counts the successful claims; at most one finish takes effect, exactly on terminal runs, by the last claimer; status, conclusion, sandbox, finish time and log are those it reported and the duration is finish minus its own start, or zero |
| RunTheorems.TerminalIsFinal | crates/clotho-api-gateway/src/actions.rs:427-430 | a terminal row and its finish never change again; the log is empty or the winner's |
| RunTheorems.SupersededWorkerIsPowerless | crates/clotho-api-gateway/src/actions.rs:1570-1605 | once someone else has claimed the run, no later step of the old worker changes any row, log or history |
| RunTheorems.SplitFinishIsAtomic | crates/clotho-api-gateway/src/actions.rs:476-505 | in every interleaving the split read, compute, guarded update leaves exactly the rows, logs and histories of an atomic finish |
| RunProtocol.PlanIsPinned | crates/clotho-api-gateway/src/actions.rs:1013-1069 | what the create handler plans from a release it has read is that release's commit and digest, verified and ready |
| RunTheorems.UnboundPlan | crates/clotho-api-gateway/src/actions.rs:1033-1055 | without a release only CI runs are planned, on the requested commit, on the head when only whitespace was requested, and never on none |
| RunTheorems.BoundPlan | crates/clotho-api-gateway/src/actions.rs:1013-1069 | with a release a run is planned exactly when it verifies, is ready and has a commit, the workflow is known and a requested commit is its own |
| RunTheorems.PushRunColumns | crates/clotho-api-gateway/src/ci.rs:34-60 | a push starts one queued CI run on `main`, with the columns of a new run |
| RunTheorems.ReleaseColumns | crates/clotho-api-gateway/src/releases.rs:247-276 | a release is stored once and verifies exactly when the manifest read back has the digest of the one it was made from |
| RunTheorems.PinnedRunKeepsItsRelease | crates/clotho-api-gateway/src/releases.rs:103-119 | a release-pinned run carries for ever the commit and digest of one stored, ready release of its version whose manifest hashes to that digest; no step changes provenance or a stored release |
| RunTheorems.EligibleOrLeased | crates/clotho-api-gateway/src/actions.rs:1116-1124 | every non-terminal run is selected by the scan or held by its last claimer under a lease of at most thirty seconds, after which it is selected |
| RunTheorems.NeverStuck | crates/clotho-api-gateway/src/ci.rs:64-171 | from every reachable state, whatever has crashed, a fresh worker can bring any run to its end once the last lease has lapsed |
| Recovery.Oldest | crates/clotho-api-gateway/src/actions.rs:1121 | the minimum by creation time |
| Recovery.Scan | crates/clotho-api-gateway/src/actions.rs:1116-1124 | the result is the oldest fifty queued or lapsed runs, in order, each once, all of them when fewer |
| Recovery.PassedOver | crates/clotho-api-gateway/src/actions.rs:1116-1124 | an eligible run is passed over only for fifty others at least as old |
| Recovery.ScanExists | crates/clotho-api-gateway/src/actions.rs:1116-1124 | every table has a result the scan may return |
| ScanFairness.CalmAddsNoRival | crates/clotho-api-gateway/src/actions.rs:1114-1138 | over any crash-free steps in which no held lease lapses, no older run joins the race |
| ScanFairness.DispatchTakes | crates/clotho-api-gateway/src/actions.rs:1127-1132 | a run for which a fresh worker attempts a claim is out of the race when its round ends, whatever interleaves |
| ScanFairness.RoundTakesItsRows | crates/clotho-api-gateway/src/actions.rs:1114-1138 | a round takes at least all returned rows out of the race |
| ScanFairness.OrphanWaits | crates/clotho-api-gateway/src/actions.rs:427-430 | a run never claimed, or last claimed by a crashed worker, is changed by nothing but a claim |
| ScanFairness.ScanIsFair | crates/clotho-api-gateway/src/actions.rs:1114-1138 | from every reachable state, an eligible run with r eligible rivals at least as old no longer waits after r/50 + 1 rounds, and has been claimed if it was orphaned |
| ScanFairness.CalmRoundsExist | crates/clotho-api-gateway/src/actions.rs:1114-1138 | crash-free rounds, as many as wanted, are possible from every reachable state |
| ScanFairness.ClaimedExactlyWhenOrphaned | crates/clotho-api-gateway/src/actions.rs:460-474 | a claim within r/50 + 1 rounds is certain in every crash-free behaviour exactly for orphaned runs |
| ScanFairness.LapsedHolderIsReachable | crates/clotho-api-gateway/src/actions.rs:427-430 | a claimed run whose lease has lapsed waits although its claimer is alive |
| HubJobs.CheckedSumExact | crates/clotho-api-gateway/src/hub.rs:809-812 | the checked fold is the sum when it fits `u64` and an error otherwise |
| HubJobs.AcceptedImport | crates/clotho-api-gateway/src/hub.rs:797-834 | an import is accepted exactly for 1 to 1000 allowed files, at most one tebibyte allowed, file count and true size within both, and no unsafe, suspicious or caution file unless allowed |
| HubJobs.CountSecurity | crates/clotho-api-gateway/src/hub.rs:840-848 | the loop's keys are exactly the statuses that occur, each with its multiplicity |
| HubJobs.SecurityCountsExactly | crates/clotho-api-gateway/src/hub.rs:840-848 | so are those of the specification every row is compared with |
| HubJobs.CountLargeExactly | crates/clotho-api-gateway/src/hub.rs:875-883 | the Arachne counter is the number of non-empty files that reach the threshold |
| HubJobs.HubStore.constructor | crates/clotho-api-gateway/migrations/1011_hub_import_jobs.sql:1-23 | the table starts empty |
| HubJobs.HubStore.CreateJob | crates/clotho-api-gateway/src/hub.rs:587-604 | a new job is queued with the schema's zero counters and no lease; other rows stay |
| HubJobs.HubStore.ClaimJob | crates/clotho-api-gateway/src/hub.rs:477-507 | exactly queued jobs and lapsed running ones are claimed; a takeover zeroes the progress counters and keeps totals and start time |
| HubJobs.HubStore.ReportProgress | crates/clotho-api-gateway/src/hub.rs:915-925 | progress is written exactly when the worker holds the row |
| HubJobs.HubStore.ImportFiles | crates/clotho-api-gateway/src/hub.rs:863-927 | the holder's row ends with the number, total size and over-threshold count of the files done; it stops early only at a failed transfer; without the lease nothing is written |
| HubJobs.HubStore.PerformImport | crates/clotho-api-gateway/src/hub.rs:797-927 | preflight and files together: no row change when refused or not holder, otherwise totals, security counts and progress of this import |
| HubProtocol.OwnStep | crates/clotho-api-gateway/src/hub.rs:527-564 | each step of an import worker keeps the job's invariant and its own mirror of the row |
| HubProtocol.StepKeepsInv | crates/clotho-api-gateway/src/hub.rs:477-564 | every step, the scan's failure update included, keeps the invariant |
| HubProtocol.ExecKeepsInv | crates/clotho-api-gateway/src/hub.rs:477-564 | so does every sequence of steps |
| HubTheorems.ProgressIsTheHoldersOwn | crates/clotho-api-gateway/src/hub.rs:863-927 | while a worker holds a job, the counters are exactly the files this worker has completed |
| HubTheorems.CountersNeverPassTotals | crates/clotho-api-gateway/src/hub.rs:477-564 | through any crashes and takeovers no counter passes its total; equality on success |
| HubTheorems.SuccessIsOneImport | crates/clotho-api-gateway/src/hub.rs:527-550 | totals, counters, security counts by status and commit ids of a succeeded job are those of the files of one import by its last claimer |
| HubTheorems.OneLeaseAtATime | crates/clotho-api-gateway/src/hub.rs:477-490 | at most one worker of a job has been promised a lease that is still running |
| HubTheorems.ClaimTakesEffectExactly | crates/clotho-api-gateway/src/hub.rs:477-490 | a fresh worker's claim takes effect exactly on jobs that have not ended and whose promises have all expired, and leaves the claim statement's columns |
| HubTheorems.RenewColumns | crates/clotho-api-gateway/src/hub.rs:509-520 | a heartbeat promises thirty seconds to the holder of a running job and changes nothing else |
| HubTheorems.CommitColumns | crates/clotho-api-gateway/src/hub.rs:945-955 | the holder records both commit ids once all files are in |
| HubTheorems.SuccessColumns | crates/clotho-api-gateway/src/hub.rs:528-550 | every column of the success update |
| HubTheorems.FailureColumns | crates/clotho-api-gateway/src/hub.rs:551-563 | the failure update sets status, error and completion, drops the lease and keeps the counters, for the holder only |
| HubTheorems.ScanFailureColumns | crates/clotho-api-gateway/src/hub.rs:697-703 | the scan's failure update sets status, error and completion and leaves the lease |
| HubTheorems.SupersededWorkerIsPowerless | crates/clotho-api-gateway/src/hub.rs:452-460 | a worker whose lease moved changes no column again, by any step |
| HubTheorems.TerminalIsFinal | crates/clotho-api-gateway/src/hub.rs:527-564 | for a decodable request, succeeded and failed are never left |
| HubTheorems.FailedThenSucceeded | crates/clotho-api-gateway/src/hub.rs:694-704 | a concrete behaviour in which an undecodable job goes from failed to succeeded |
| HubTheorems.FinalExactlyWhenDecodable | crates/clotho-api-gateway/src/hub.rs:694-704 | terminal statuses are final on every behaviour exactly for decodable requests |
| TtlTable.CleanupBatch | crates/clotho-api-gateway/src/idempotency.rs:110-125 | a batch removes only expired rows, the earliest first, as many as the limit allows, and no live entry |
| TtlTable.RefinesLiveMap | crates/clotho-api-gateway/src/idempotency.rs:54-125 | the table with late cleanup answers every request as the map of live entries does |
| TtlTable.CleanupIsInvisible | crates/clotho-api-gateway/src/webhooks.rs:335-350 | histories that differ only in cleanup give the same answers and the same live entries |
| TtlTable.OneFreshPerWindow | crates/clotho-api-gateway/src/webhooks.rs:260-333 | a key is stored afresh at most once per lifetime; inside it every request gets the first value or a conflict, outside it neither |
| TtlTable.OnlyFreshWrites | crates/clotho-api-gateway/src/webhooks.rs:276-331 | replays and conflicts leave the rows alone; only a key without a live entry is written |
| Idempotency.IdempotencyStore.constructor | crates/clotho-api-gateway/migrations/1017_idempotency_records.sql:1-20 | records, runs and logs start empty |
| Idempotency.IdempotencyStore.Lookup | crates/clotho-api-gateway/src/actions.rs:963-987 | a live record answers the request by replay, conflict or stored-record error; otherwise the handler goes on |
| Idempotency.IdempotencyStore.CreateRunIdempotent | crates/clotho-api-gateway/src/actions.rs:240-380 | record, run and log are inserted together or the first answer is given; every error leaves all three tables as they were |
| Idempotency.IdempotencyStore.CleanupExpired | crates/clotho-api-gateway/src/idempotency.rs:110-125 | up to a thousand expired records go, the earliest first; the others stay |
| Idempotency.RetryIsAnswered | crates/clotho-api-gateway/src/actions.rs:240-380 | within a record's day a lookup or create with its key is told the first body, replayed, when operation and fingerprint are equal, a conflict when either differs, and, exactly for a create with a response above 64 KiB, an internal error; no further run is inserted |
| Idempotency.FirstRequestCreates | crates/clotho-api-gateway/src/actions.rs:240-380 | outside every record's day a lookup lets the handler go on and a create stores its record and run, unless its response is too large or its run id taken |
| Idempotency.OversizedRetryIsRefused | crates/clotho-api-gateway/src/actions.rs:240-380 | a concrete matching retry inside a record's day that is told an internal error |
| Idempotency.CleanupNeverShows | crates/clotho-api-gateway/src/idempotency.rs:110-125 | histories of creates and lookups that differ only in cleanup, rollbacks included, have the same runs and answers, and the next request is told the same |
| Idempotency.ReplaysTheFirstAnswer | crates/clotho-api-gateway/src/actions.rs:240-380 | of the answers given within a record's day, the first is not-replayed, every one with the same operation and fingerprint carries the same body, every other one is a conflict |
| Idempotency.OneRunPerLifetime | crates/clotho-api-gateway/src/actions.rs:240-380 | a key creates at most one run per record lifetime; every run was made by exactly such a first answer |
| Idempotency.RecordsNameTheirRuns | crates/clotho-api-gateway/src/actions.rs:240-380 | every record names a run inserted with exactly the stored body |
| Webhooks.WebhookStore.constructor | crates/clotho-api-gateway/migrations/1018_webhook_deliveries.sql:1-14 | no deliveries, no CI starts |
| Webhooks.WebhookStore.ReserveDelivery | crates/clotho-api-gateway/src/webhooks.rs:260-333 | the transaction is the generic reservation with all five fields compared |
| Webhooks.WebhookStore.CleanupExpired | crates/clotho-api-gateway/src/webhooks.rs:335-350 | up to a thousand expired deliveries go, the earliest first; the others stay |
| Webhooks.WebhookStore.AdmitPush | crates/clotho-api-gateway/src/webhooks.rs:93-135 | CI starts exactly for a new delivery that is not a branch deletion; a refusal leaves the store unchanged; cleanup never costs a live delivery |
| Webhooks.OneCiStartPerWindow | crates/clotho-api-gateway/src/webhooks.rs:93-135 | inside a retention window the same hash is acknowledged as a replay exactly when all five fields repeat, refused otherwise; two CI starts are a full window apart |
| Webhooks.NewOutsideWindows | crates/clotho-api-gateway/src/webhooks.rs:274-302 | outside every window a delivery is new, never refused or dropped |
| WebhookProtocol.CiStartsAreAWindowApart | crates/clotho-api-gateway/src/webhooks.rs:93-135 | in every interleaving of the reservations, cleanups and answers of any handlers, two CI starts for one delivery hash come from reservations a full retention window apart |
| WebhookProtocol.StartsExactlyForNewPushes | crates/clotho-api-gateway/src/webhooks.rs:111-135 | a finished handler started CI exactly once if its delivery was new and no branch deletion, and never otherwise |
| WebhookProtocol.AdmitIsItsSteps | crates/clotho-api-gateway/src/webhooks.rs:93-135 | the whole handler, undisturbed, is one behaviour of those steps |
| Keyset.FetchPage | crates/clotho-api-gateway/src/repos.rs:138-162 | over-fetching by one and popping gives the page of the sort-filter specification |
| Keyset.SortSorts | crates/clotho-api-gateway/src/repos.rs:138-143 | the sort is an ascending permutation |
| Keyset.PageExact | crates/clotho-api-gateway/src/repos.rs:144-162 | a page is ascending, within the limit, and holds exactly the items after the cursor up to the next cursor, which is its last key |
| Keyset.NextNamesAnItem | crates/clotho-api-gateway/src/repos.rs:158-162 | a next cursor is the key of an item of the collection |
| Keyset.WalkNeverRepeats | crates/clotho-api-gateway/src/repos.rs:122-167 | pages taken from a changing collection never repeat or reorder a key |
| Keyset.WalkFindsStableKeys | crates/clotho-api-gateway/src/repos.rs:122-167 | a completed walk returns every key that was there throughout |
| Keyset.StableKeysExactlyOnce | crates/clotho-api-gateway/src/repos.rs:122-167 | and returns it exactly once |
| Keyset.FixedWalkIsTheSortedList | crates/clotho-api-gateway/src/repos.rs:122-167 | over a fixed collection the walk ends and its pages concatenate to the sorted list |
| Keyset.OpaqueWalkIsKeyWalk | crates/clotho-api-gateway/src/repos.rs:144-195 | a client that sends emitted cursors back is never refused and walks exactly the keyset walk |
| Keyset.OpaqueWalkIsExact | crates/clotho-api-gateway/src/repos.rs:144-195 | following opaque cursors over a changing collection returns every fixed key exactly once, in order |
| Listings.RepoOrderIsTotal | crates/clotho-api-gateway/src/repos.rs:138-143 | newest first, then by name, is a strict total order of keys |
| Listings.LexIsTextOrder | crates/clotho-api-gateway/src/repos.rs:138-143 | text order: a proper prefix first, otherwise the first differing character decides |
| Listings.RepoPageMeans | crates/clotho-api-gateway/src/repos.rs:138-162 | a page is newest first by timestamp and then by name, lies beyond the cursor, and leaves out nothing newer than what is on it |
| Listings.NewerOneFirst | crates/clotho-api-gateway/src/repos.rs:138-143 | of two repositories the newer one makes up the first page of one |
| Listings.ActivityPageMeans | crates/clotho-api-gateway/src/control.rs:966-1008 | a page of events is newest first by time and then by id, lies beyond the cursor, and leaves out nothing newer than what is on it |
| Listings.PaginateRepos | crates/clotho-api-gateway/src/repos.rs:122-167 | errors exactly for a limit outside 1 to 100 (100 by default) or a refused cursor; otherwise the newest repositories beyond the cursor, newest first and then by name, and the encoded last key |
| Listings.ListActivity | crates/clotho-api-gateway/src/control.rs:1618-1674 | the same for events by time and id, 50 by default |
| Listings.OpaqueRepoWalkIsExact | crates/clotho-api-gateway/src/repos.rs:122-195 | walking repositories by opaque cursors returns every one whose name and timestamp stay fixed exactly once, with no cursor refused |
| Listings.OpaqueActivityWalkIsExact | crates/clotho-api-gateway/src/control.rs:1618-1674 | the same for activity events |
| Listings.ActivityWalkIsComplete | crates/clotho-api-gateway/src/control.rs:1002-1008 | over an unchanging feed the walk ends with all events, newest first |
| Listings.RepoWalkIsExact | crates/clotho-api-gateway/src/repos.rs:122-167 | a repository whose name and timestamp stay fixed during a walk is returned exactly once |
| Listings.ActivityWalkIsExact | crates/clotho-api-gateway/src/control.rs:1002-1008 | every event visible throughout a walk is returned exactly once |
| Listings.RepoWalkIsComplete | crates/clotho-api-gateway/src/repos.rs:122-167 | over an unchanging set the walk ends with all repositories, newest first and then by name |
| CursorCodec.Base64RoundTrip | crates/clotho-api-gateway/src/repos.rs:176-184 | decoding undoes encoding for every byte string (section 5 of RFC 4648, unpadded) |
| CursorCodec.Base64Unique | crates/clotho-api-gateway/src/repos.rs:183-185 | whatever decodes is the one encoding of what it decodes to |
| CursorCodec.UrlSafeAlphabet | crates/clotho-api-gateway/src/repos.rs:176 | the sixty-four characters of the URL-safe alphabet |
| CursorCodec.SextetsOfBytes | crates/clotho-api-gateway/src/repos.rs:176 | three bytes are the four sextets of the same big-endian number |
| CursorCodec.SextetsOfShortEnds | crates/clotho-api-gateway/src/repos.rs:176 | one and two bytes at the end are padded with zero bits, without padding characters |
| CursorCodec.EncodeInGroups | crates/clotho-api-gateway/src/repos.rs:176 | longer texts are encoded three bytes at a time |
| CursorCodec.EscapeTable | crates/clotho-api-gateway/src/repos.rs:170-175 | which characters are escaped in the JSON text, and how |
| CursorCodec.RepoJsonLayout | crates/clotho-api-gateway/src/repos.rs:45-50 | the JSON text of a repository key |
| CursorCodec.ActivityJsonLayout | crates/clotho-api-gateway/src/control.rs:248-253 | the JSON text of an event key |
| CursorCodec.AcceptedRepoCursorExactly | crates/clotho-api-gateway/src/repos.rs:179-195 | a repository cursor is accepted exactly when it has at most 2048 characters and encodes a text read as version 1 with a name |
| CursorCodec.AcceptedActivityCursorExactly | crates/clotho-api-gateway/src/control.rs:1131-1144 | an activity cursor is accepted exactly when it has at most 2048 characters and encodes a text read as version 1 with a positive id |
| CursorCodec.StringRoundTrip | crates/clotho-api-gateway/src/repos.rs:170-175 | a JSON string body with its escapes reads back, whatever follows it |
| CursorCodec.NumberUnique | crates/clotho-api-gateway/src/repos.rs:186 | a number is read in its one spelling, up to the first other character |
| CursorCodec.RepoCursorRoundTrip | crates/clotho-api-gateway/src/repos.rs:169-195 | a repository cursor decodes to its key exactly when the name is not empty and the JSON has at most 1536 bytes |
| CursorCodec.LegalRepoCursorIsAccepted | crates/clotho-api-gateway/src/control.rs:323-340 | every cursor for a legal name and a printable timestamp is at most 2048 characters and decodes to its key |
| CursorCodec.ActivityCursorRoundTrip | crates/clotho-api-gateway/src/control.rs:1121-1144 | every cursor for a positive event id and a 64-bit timestamp is at most 2048 characters and decodes to its key |
| Visibility.NamedSelects | crates/clotho-api-gateway/src/control.rs:642 | the name query selects exactly the rows with the name |
| Visibility.PointReadFinds | crates/clotho-api-gateway/src/control.rs:630-656 | the point read by a row's name finds it exactly when no other row has the name |
| Visibility.PermissionAgrees | crates/clotho-api-gateway/src/control.rs:1146-1194 | rank comparison and the SQL role lists grant read to the same users |
| Visibility.ListingAgreesWithPointRead | crates/clotho-api-gateway/src/control.rs:668-691 | in every database state and for every caller a repository is listed exactly when the point read of its name returns it |
| Visibility.PointReadIsListed | crates/clotho-api-gateway/src/auth.rs:228-254 | whatever a point read returns has the name asked for and is listed |
| Visibility.ActivityFollowsReads | crates/clotho-api-gateway/src/control.rs:979-1000 | repository-scoped activity is visible exactly when the point read of its repository succeeds |
| Visibility.ReadableExactly | crates/clotho-api-gateway/src/auth.rs:228-254 | a repository is read by its name exactly when the name is unique and it is public, or the caller is an organization admin or has one of the three permissions |
| Visibility.HiddenAlike | crates/clotho-api-gateway/src/auth.rs:225-254 | missing, ambiguous and forbidden names are answered alike |
| Visibility.HigherPermissions | crates/clotho-api-gateway/src/control.rs:1146-1194 | who may write and who may administer |
| Visibility.OrganizationActivityExactly | crates/clotho-api-gateway/src/control.rs:971-978 | activity of no repository is visible to all when it has no organization, otherwise exactly to its members |
| Decimal.ParseNumeral | crates/clotho-common/src/lfs_pointer.rs:56-60 | a printed number parses back exactly when it fits `u64` |
| Decimal.DecimalNotation | crates/clotho-common/src/lfs_pointer.rs:33-39 | a numeral is its leading digits followed by its last |
| Decimal.SignsAndZeros | crates/clotho-common/src/lfs_pointer.rs:56-60 | a plus sign and leading zeros are accepted, a minus sign and no digits are not |
| LfsPointer.Parse | crates/clotho-common/src/lfs_pointer.rs:41-70 | the line loop computes the parse specification, with the first bad line's error |
| LfsPointer.ReadsTheLastValues | crates/clotho-common/src/lfs_pointer.rs:51-63 | reading succeeds exactly when all recognised lines are well formed, and keeps the last value of each field |
| LfsPointer.AcceptedExactly | crates/clotho-common/src/lfs_pointer.rs:41-70 | exactly which bytes are accepted, and as which pointer |
| LfsPointer.AcceptedIsCanonical | crates/clotho-common/src/lfs_pointer.rs:86-93 | accepted hashes are lowercase 64-digit hexadecimal and the size fits `u64` |
| LfsPointer.EncodedLayout | crates/clotho-common/src/lfs_pointer.rs:33-39 | the four lines of every encoded pointer, literally |
| LfsPointer.LinesExactly | crates/clotho-common/src/lfs_pointer.rs:43 | text is cut at line feeds, a carriage return before one goes with it, and an unterminated last line is kept |
| LfsPointer.HexFieldExactly | crates/clotho-common/src/lfs_pointer.rs:86-93 | a hash field is accepted exactly for 64 hexadecimal digits of either case and kept in lower case |
| LfsPointer.ReadLineExactly | crates/clotho-common/src/lfs_pointer.rs:51-62 | what a line with each of the three prefixes does, errors included |
| LfsPointer.FirstBadLineDecides | crates/clotho-common/src/lfs_pointer.rs:51-63 | the first malformed line decides the error, whatever follows |
| LfsPointer.MissingFields | crates/clotho-common/src/lfs_pointer.rs:64-69 | the first missing field, in order, is named |
| LfsPointer.VerifyExactly | crates/clotho-common/src/lfs_pointer.rs:72-83 | the size is compared before the SHA-256, and both have to agree |
| Utf8.ValidExactlyWhenEncoded | crates/clotho-common/src/lfs_pointer.rs:42 | bytes pass the UTF-8 check exactly when they encode some sequence of Unicode scalar values |
| LfsPointer.ParseAfterEncode | crates/clotho-common/src/lfs_pointer.rs:33-70 | parse of encode returns the pointer exactly for lowercase 64-digit hashes and a `u64` size |
| LfsPointer.ParseEncodeParse | crates/clotho-common/src/lfs_pointer.rs:33-70 | re-encoding any accepted bytes loses nothing |
| LfsPointer.EncodedIsSmall | crates/clotho-api-gateway/src/repos.rs:1365 | a written pointer has at most 232 bytes, so the 1024-byte gates never skip one |
| LfsPointer.PaddedPointer | crates/clotho-common/src/lfs_pointer.rs:51-63 | a pointer followed by any comment line still parses as that pointer |
| LfsPointer.VersionAlone | crates/clotho-common/src/lfs_pointer.rs:45-65 | the version line alone is pointer-shaped and fails for its missing oid |
| Arachne.ChunksJoin | crates/clotho-api-gateway/src/arachne.rs:18-23 | upload blocks concatenate to the payload, none empty or oversized, all but the last full |
| Arachne.UploadBlocks | crates/clotho-api-gateway/src/arachne.rs:12-23 | and are of two mebibytes |
| Arachne.ChangesExactly | crates/clotho-api-gateway/src/lib.rs:826-849 | every change keeps path and executable flag; non-empty payloads of at least the threshold become the pointer to them, all others stay |
| Arachne.Gateway.StorePayload | crates/clotho-api-gateway/src/arachne.rs:14-28 | the payload is stored under its hash and its pointer returned, or nothing changes |
| Arachne.Gateway.CommitRepo | crates/clotho-api-gateway/src/lib.rs:825-849 | every change carries its path, flag and routed content, in order; only payloads up to the first failure were uploaded |
| Arachne.MaterializePointer | crates/clotho-api-gateway/src/arachne.rs:95-123 | the block loop computes the verified payload, or none for an ordinary blob |
| Arachne.ReadPrefix | crates/clotho-api-gateway/src/arachne.rs:128-167 | the early-stopping loop computes the bounded read |
| Arachne.CommitThenRead | crates/clotho-api-gateway/src/lib.rs:825-849 | commit then read returns the payload exactly when it was routed, is not pointer-shaped, or describes itself |
| Arachne.PointerShapedPayloadIsLost | crates/clotho-api-gateway/src/arachne.rs:99-103 | the version line alone, committed below the threshold, is stored as it is and every read of it fails |
| Arachne.CorruptionIsDetected | crates/clotho-common/src/lfs_pointer.rs:72-83 | whatever Arachne answers, a routed file never reads back with another size or SHA-256 |
| Arachne.BoundedReadAgrees | crates/clotho-api-gateway/src/arachne.rs:128-167 | a bounded read through a pointer is the bounded read of the plain file, truncation flag included |
| Arachne.UploadsKeepFiles | crates/clotho-api-gateway/src/lib.rs:826-849 | uploads lose no stored content and store every routed payload |
| Arachne.CommitReadsBack | crates/clotho-api-gateway/src/repos.rs:1281-1314 | every file of a multi-file commit reads back |
| Arachne.EarlierFilesSurvive | crates/clotho-api-gateway/src/repos.rs:1281-1314 | a later commit changes no earlier file's read |
| Accounting.SumSizes | crates/clotho-api-gateway/src/repos.rs:1359 | the stored sizes' sum, wrapping at 64 bits |
| Accounting.StorageStats | crates/clotho-api-gateway/src/repos.rs:1345-1389 | the loop's totals, pointer list and saturating Arachne size |
| Accounting.LogicalSizeExactly | crates/clotho-api-gateway/src/repos.rs:1363-1381 | a file is accounted at its pointer's size if it has at most 1024 bytes and parses, else at its own |
| Accounting.LargeFilesExactly | crates/clotho-api-gateway/src/repos.rs:1383-1389 | the large-file list is the pointer files in tree order with path, both sizes and both hashes |
| Accounting.StatsExact | crates/clotho-api-gateway/src/repos.rs:1359-1382 | the reported sizes are the true stored and logical sizes exactly when every intermediate size fits `u64` |
| Accounting.StatsExactWhenMaximaFit | crates/clotho-api-gateway/src/repos.rs:1359-1382 | which holds when the per-file maxima of stored and logical size sum to a `u64` |
| Accounting.ArtifactManifest | crates/clotho-api-gateway/src/repos.rs:919-1045 | every file's entry, listed in sort order, the saturating total, the Arachne count, and role and format tallies that each sum to the number of files |
| Accounting.ArtifactExactly | crates/clotho-api-gateway/src/repos.rs:926-953 | every column of a manifest entry, by which files are looked into |
| Accounting.ManifestListsEveryFile | crates/clotho-api-gateway/src/repos.rs:1041-1045 | the sorted listing holds every entry once, by falling size and then ascending path when paths are unique |
| Accounting.CountsDiffer | crates/clotho-api-gateway/src/repos.rs:934-953 | the manifest counts the statistics' Arachne files plus the inspected blobs over 1024 bytes that parse as pointers |
| Accounting.LoopsAgree | crates/clotho-api-gateway/src/repos.rs:934-1027 | the counts agree exactly when there are none of those, and then the totals agree wherever the maxima fit |
| Accounting.BigCardIsCountedOnce | crates/clotho-api-gateway/src/repos.rs:930-953 | a model card over 1024 bytes that begins with a pointer: one Arachne file of seven bytes to the manifest, an ordinary file of its own size to the statistics |
| Accounting.CommittedLogicalSize | crates/clotho-api-gateway/src/repos.rs:1363-1381 | a committed file is accounted at its payload size, and as Arachne's exactly when routed |
| Accounting.CommittedTreeIsCountedRight | crates/clotho-api-gateway/src/repos.rs:1363-1389 | over a committed tree the logical size is the payload bytes and the pointers are the routed files |
| Accounting.CommittedTreeIsReportedRight | crates/clotho-api-gateway/src/repos.rs:1359-1389 | both endpoints then report exactly the payload bytes and the routed files, wrapping and saturation included, while the payloads leave 232 bytes a file below `u64` |
| ByteRanges.RangeIsInside | crates/clotho-api-gateway/src/releases.rs:501-547 | every accepted range has start <= end < size and a length between one and size |
| ByteRanges.AcceptedRangeExactly | crates/clotho-api-gateway/src/releases.rs:507-548 | exactly which headers are accepted and as which range, for every text and size; every other header is an error |
| ByteRanges.StreamArachneRelease | crates/clotho-api-gateway/src/releases.rs:557-598 | the streaming loop sends the blocks up to a break and reports a short body or, for a full read, a wrong digest |
| ByteRanges.ServedLikeThePlainFile | crates/clotho-api-gateway/src/releases.rs:404-447 | an Arachne file is served like the plain file for every header: same errors, range, lengths and bytes |
| ByteRanges.WholeFileWithoutHeader | crates/clotho-api-gateway/src/releases.rs:424-446 | without a header the whole file is sent and nothing is called partial |
| ByteRanges.RangeBodyExactly | crates/clotho-api-gateway/src/releases.rs:424-446 | for an accepted range exactly its bytes are sent, with their number and the file's size |
| ByteRanges.RefusedRangeExactly | crates/clotho-api-gateway/src/releases.rs:550-555 | a refused range is answered with the size of the file |
| ByteRanges.ServedExactly | crates/clotho-api-gateway/src/releases.rs:404-447 | the same three for a release file wherever it is kept, against what reading it gives |
| ByteRanges.BrokenBodiesAreMarked | crates/clotho-api-gateway/src/releases.rs:571-596 | whatever Arachne answers, a body sent to its end has the announced length, and a whole one the pointer's size and SHA-256 |
| ByteRanges.TilesAreTheFile | crates/clotho-api-gateway/src/releases.rs:404-447 | requests that tile a file return bodies that concatenate to it |
| RangeStandard.MatchesTheStandard | crates/clotho-api-gateway/src/releases.rs:507-548 | for every header RFC 9110 allows for one byte range, in any unit spelling and with empty list elements, and every size: the service selects the standard's bytes, or refuses with it, exactly when the range is unsatisfiable or plainly spelled, fitting `u64` and of a non-empty file; otherwise it refuses |
| RangeStandard.AcceptedIsGrammatical | crates/clotho-api-gateway/src/releases.rs:521-546 | an accepted header is grammatical exactly when no position carries a `+` |
| RangeStandard.SpellingIsRefused | crates/clotho-api-gateway/src/releases.rs:515-520 | `Bytes=0-5` and `bytes=0-5,` are refused where the standard selects six bytes |
| RangeStandard.PlusIsAccepted | crates/clotho-api-gateway/src/releases.rs:534-544 | `bytes=+0-+5` is accepted and not grammatical |
| RangeStandard.EmptyFileSuffixIsRefused | crates/clotho-api-gateway/src/releases.rs:518-520 | a satisfiable suffix range of an empty file is refused |
| RangeStandard.OversizedLastPositionIsRefused | crates/clotho-api-gateway/src/releases.rs:536-540 | a concrete oversized request the standard clamps and the service refuses |
| ByteRanges.EmptyFileRefusesEveryRange | crates/clotho-api-gateway/src/releases.rs:518-520 | an empty file has no satisfiable range |

## Left out

- The in-memory mode without a database: it has no leases and no fencing.
- External effects: commit statuses, notifications, merge-queue submission, activity logging and the sandbox. A stale
  worker can still post a commit status; the lease does not cover it.
- `list_runs`: it pages on milliseconds alone, so runs that tie at a page edge are lost.
- HTTP, gRPC, SQL transport and JSON request bodies; failures of these calls appear as failing steps or parameters.
- SHA-256, HMAC, UUIDs, clocks: parameters or fresh names.
- Deleting repositories and organizations with their cascades, and changing stored releases by hand.
- The 32-bit width of `attempt` and the narrowing of counters to signed 64-bit columns.
- Accounting.ArtifactManifest: leaves out metadata extraction and readiness; artifact classification is a parameter.
- The agent-scoped activity query and the per-organization listing; signature, header and payload checks before a
  delivery is admitted.
- Streaming a Hub download into Arachne block by block: a transfer either succeeds with the announced size or fails.
- Repository settings such as network mode and tags, merge policy, secrets and tokens.
- Allocation failures for huge pointer sizes, and hosts with less than 64-bit addresses.
- Requests for several ranges and for units other than bytes: the service refuses them, and the comparison with the
  standard does not cover them.
- Crashes during the rounds of `ScanFairness`: a worker that crashes makes its run eligible again.
- CursorCodec.ActivityCursorRoundTrip: rests on the timestamp library reading back every 64-bit timestamp it prints, as
  plain text of at most 64 characters; the RFC 3339 format itself is not modelled.
