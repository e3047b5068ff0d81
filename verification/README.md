# TikDD protocols and transformations, verified in Dafny

A model of the stateful protocols and the pure transformations that TikDD's services rely on, with proofs
of what they keep over every run. Each file is one module and follows one component of the repository:

| file | models |
|---|---|
| `Wrappers.dfy`, `Redis.dfy` | `Option`, `Result`; Redis keys with a deadline |
| `AdmissionStore.dfy` | quota permits and references of the task admission store |
| `ResolveJob.dfy` | the resolve job: API handler, worker attempts, exhausted-job handler, persisted task |
| `LocoLoaderBudget.dfy` | the extraction budget scripts: counter window, concurrency leases, spacing |
| `CleanupLease.dfy`, `CleanupRows.dfy`, `CleanupRunner.dfy` | the owner-token lease; the rows of the cleanup stages and their foreign keys; the budgeted cleanup loop |
| `AdminSessions.dfy`, `LoginRate.dfy` | administrator sessions and their index; the login rate limit |
| `FieldEncoding.dfy` | the length-prefixed preimages of the admission hasher |
| `Content.dfy`, `Publication.dfy` | locale registry and coverage; blockers and snapshot |
| `StarterContent.dfy`, `LocaleCommands.dfy` | starter content; every sequence of locale commands from the delivered tables |
| `Redirects.dfy` | paths and redirects of a snapshot: schema, technical checks and what the site answers |
| `Rollout.dfy` | rollout rules, pilot guards and route state |
| `Qualification.dfy` | the qualification ladder |
| `YtDlpRunner.dfy` | the guest-session gate and the request-id map |
| `ByteStream.dfy`, `DeliveryRelay.dfy`, `BoundedRead.dfy` | bounded bodies: the delivery relay and the browser download |
| `DownloadFilename.dfy` | the download-name sanitiser |

The shape is the same throughout. What the source updates in place is a class whose methods (loops
included) are proved equal to a function of the old state; the protocols are runs of such functions over
arbitrary sequences of events (requests, releases, faults, passing time) and the main results are about all
runs. A remote call that can fail does so in three ways: it works, it is lost before it took effect, or it
took effect and the caller still sees an error. Cryptographic digests, random tokens, DNS answers, upstream
replies, the clock and faults are parameters. A Redis script or a transaction is one atomic step.

`dafny verify dfyconfig.toml` checks the project.

## What the code turned out to do

Some expectations hold only under a condition. The code is modelled as it is, and the exact condition is
proved:

- The budget window is a fixed one opened by a grant, so a span of `windowMs` can see up to
  `2 * maxExtractions - 1` grants. That number is reached exactly by configurations with
  `2 * (maxExtractions - 1) * minIntervalMs < windowMs`, the default one among them; the provider notes
  (docs/providers/locoloader.md:15-17) speak of two extractions per six hours.
- Spacing between extractions is kept by a key that lives as long as the window, so it holds exactly when
  the interval is not longer than the window.
- A resolve task stays unfinished after its job ended for good exactly when the closing store writes were
  lost or its row had expired before them; from then on only the cleanup changes it. A reference parts from
  its job, with working releases and handler calls, in three ways: the queue reports an error for a job it
  has accepted; the permit's own lifetime ends first; or a last attempt fails plainly over a row that has
  expired or over a task that is already terminal, which a late error of `tasks.fail` can bring about. A
  reference that has lost its job is held until its lifetime ends.
- A task that the API has failed after a late queue error is worked on all the same and can succeed. A
  terminal status is replaced by nothing but expired exactly when the task has no job on the queue or its
  row has expired. The cleanup marks rows of every status, succeeded ones included.
- A cleanup that nobody disturbs counts every row it removes exactly when, at its start, no row comes in a
  later batch than the row it hangs on; rows that come later fall with their parents and are not counted.
  One expired candidate with one ticket more than a batch is enough. Tasks are always marked before they are
  deleted, because both stages take them in one order. A query that removed rows and then reported an error
  is not counted either.
- The loader's margin of five seconds keeps two cleanups apart exactly for statement time-outs up to five
  seconds; it accepts up to sixty.
- The administrator's session survives a pause between uses exactly up to 25 minutes, not 30, because a use
  within five minutes of the last write does not extend it.
- One user can fail more than five logins in a quarter hour when logins overlap: at most four more than
  there are logins in progress at once.
- The admin route view shows a positive allocation where the router refuses when guards are optional and
  none is stored for the route.
- Publication blockers look at effective locale revisions, the snapshot at ready or published ones: a
  published locale behind an unfinished disabling draft is published again unchecked, and ready pages of a
  disabled locale make the snapshot fail its schema although nothing blocks.
- The starter bootstrap completes only when locale `en` is registered. The delivered tables register it and
  no sequence of commands takes it away, so the case in which the bootstrap would leave two defaults does
  not arise. A discarded draft makes its write conflict, after earlier writes were kept. Its refusal message
  speaks of the first snapshot and of content conflicts
  (apps/admin-api/src/content-management-service.ts:123); the code refuses only unsupported definitions.
- A discard looks at no other locale and is the only command that can put the registry out of order. It
  does so exactly when the locale has no published revision and a shown locale falls back to it, or its
  published revision falls back to a locale that is not shown or whose chain comes back to it. Every other
  command is refused then, until further discards put the registry in order again.
- A ready draft that disables its locale blocks no publication and passes the snapshot schema, but the
  table refuses it as a published revision and with it the whole publication.
- The snapshot schema and the technical checks compare redirects only with the paths of earlier pages. A
  page without redirects whose path an earlier page redirects from is published and never shown. The
  blocker for redirect loops never decides: it comes only with the one for chains.
- Locking a policy before any review puts a provider at the internal stage without one approval.
- A promotion is shown as eligible without a guard, which the review of the two upper stages refuses.
- A download whose reader closes early records no outcome at all.
- A resolve task is left with nobody to work on it by a request whose insertion was committed although it
  reported an error, by one whose queue call and failure write were both lost, and by a job whose closing
  writes were lost; by nothing else.

## Model

| member | source | states |
|---|---|---|
| LocoLoaderBudget.BudgetStore.ReserveScript | apps/worker/src/locoloader-budget.ts:5-19 | the reservation script grants exactly when window, concurrency and spacing admit it, and leaves the three keys as a grant or a refusal should |
| LocoLoaderBudget.BudgetStore.ReleaseScript | apps/worker/src/locoloader-budget.ts:20 | removes one member of the active set and nothing else |
| LocoLoaderBudget.Permit.Release | apps/worker/src/locoloader-budget.ts:84-93 | a permit gives its token back at most once and never touches counter or spacing |
| LocoLoaderBudget.Acquire | apps/worker/src/locoloader-budget.ts:60-93 | a permit is handed out exactly for a grant whose answer arrives; a lost answer still uses the budget up |
| LocoLoaderBudget.RunKeepsInv | apps/worker/src/locoloader-budget.ts:5-20 | every run keeps counter, last-grant key and active set in agreement with the grants made; the active key never drops a live member |
| LocoLoaderBudget.WindowBound | apps/worker/src/locoloader-budget.ts:5-19 | one lifetime of the counter key sees at most maxExtractions grants, in every run |
| LocoLoaderBudget.SlidingWindowBound | apps/worker/src/locoloader-budget.ts:5-19 | any span of windowMs sees at most 2 * maxExtractions - 1 grants, in every run |
| LocoLoaderBudget.SlidingWindowBoundReachedIff | apps/worker/src/locoloader-budget.ts:5-19 | for every valid configuration some run reaches that bound if and only if 2 * (maxExtractions - 1) * minIntervalMs < windowMs |
| LocoLoaderBudget.SlidingWindowBoundReached | apps/worker/src/locoloader-budget.ts:49-52 | the default configuration has a run with three extractions inside one window length |
| LocoLoaderBudget.ConcurrencyBound | apps/worker/src/locoloader-budget.ts:5-20 | at most maxConcurrency unexpired, unreleased permits, in every run |
| LocoLoaderBudget.GrantedIff | apps/worker/src/locoloader-budget.ts:5-19 | at any moment of any run a request is granted if and only if the newest window is closed or has room, fewer than maxConcurrency slots taken within ninety seconds (or the interval and a minute) are still held, and the newest grant is an interval or a window ago |
| LocoLoaderBudget.SpacingIffWindowCoversInterval | apps/worker/src/locoloader-budget.ts:5-19 | all runs keep grants minIntervalMs apart if and only if minIntervalMs <= windowMs |
| CleanupLease.LeaseStore.Acquire | apps/cleanup/src/lease.ts:26-30 | takes the lease exactly when no live one exists |
| CleanupLease.LeaseStore.Release | apps/cleanup/src/lease.ts:4-10 | deletes the key only for its owner |
| CleanupLease.RunKeepsInv | apps/cleanup/src/lease.ts:26-36 | in every run a holder is covered by the lease until ttlMs after it read its start time, and holders have distinct owners |
| CleanupLease.ExclusionIffLeaseOutlivesBudget | apps/cleanup/src/runner.ts:72-97 | no two processes are ever inside a stage together, in all runs, if and only if the lease outlives the time budget plus one stage |
| CleanupLease.ShortLeaseOverlaps | apps/cleanup/src/runner.ts:72-97 | for every lease shorter than budget plus one stage a run with two processes inside a stage |
| CleanupLease.MarginCoversTimeoutIff | apps/cleanup/src/configuration.ts:48-60 | all configurations the loader accepts with a given statement time-out exclude overlap if and only if that time-out is at most five seconds |
| CleanupLease.LateReleaseHarmless | apps/cleanup/src/lease.ts:4-10 | releasing after another process took the lease leaves that lease as it is |
| CleanupRows.NeverFallsIffInStep | packages/persistence/src/cleanup.ts:52-223 | over all undisturbed runs no row falls with its parent if and only if no row comes in a later batch than the row it hangs on |
| CleanupRows.NothingFallsIffInStep | infra/migrations/0006_task_admission.sql:3-23 | the same for any one run that has emptied all stages |
| CleanupRows.OneBatchInStep | packages/persistence/src/cleanup.ts:3-18 | children that fit into one batch are in step, because their stages come before those they hang on |
| CleanupRows.MarkedBeforeDeleted | packages/persistence/src/cleanup.ts:197-223 | no task is deleted in an earlier batch than the one that marks it expired |
| CleanupRunner.Repository.ProcessStage | packages/persistence/src/cleanup.ts:333-350 | the rows after a query are those before it without the removed ones and all that hangs on them; an answer is the number removed, the first rows up to a batch when nothing is locked; a failed query may have removed rows |
| CleanupRunner.EveryRowCountedIff | apps/cleanup/src/runner.ts:72-97 | an undisturbed run that has emptied all stages counted every row it removed if and only if no row came in a later batch than the row it hangs on |
| CleanupRunner.InStepCounted | apps/cleanup/src/runner.ts:72-97 | from such rows a run counts everything wherever it stops, but for what its last, failed query removed |
| CleanupRunner.TicketGoesUncounted | infra/migrations/0003_delivery_candidates.sql:39-41 | for every batch size a run that removes a ticket without counting it |
| CleanupRunner.UncountedOnlyAlongOrFailed | infra/migrations/0003_delivery_candidates.sql:5-41 | in any run, disturbed or not, rows go uncounted only along with rows of the two deleting stages or by the failed query that ended it |
| CleanupRunner.Pass | apps/cleanup/src/runner.ts:74-97 | one pass over the stages in order: both budgets are tested before each query, rows report what was counted, every row is accounted for, and it says why it stopped |
| CleanupRunner.Sweep | apps/cleanup/src/runner.ts:72-100 | terminates within maxBatches; per stage, counted plus uncounted plus remaining rows equal the initial ones plus arrivals less what others took; complete means the last pass ran all stages with nothing removed, and undisturbed that nothing is eligible and that all was counted if and only if the rows were in step |
| CleanupRunner.RunCleanup | apps/cleanup/src/runner.ts:49-116 | an acquired lease is released exactly once on every path; the metrics report exactly what was counted, every row is accounted for, and undisturbed nothing goes uncounted if and only if the rows were in step; a dry run and a run without lease remove nothing |
| CleanupRunner.CompleteNeedsFullPass | apps/cleanup/src/runner.ts:72-97 | with fewer batches than stages a cleanup can never report complete |
| AdminSessions.AdminPasswordAuthService.CreateSession | apps/admin-api/src/auth.ts:30 | record, index member and index lifetime after a login |
| AdminSessions.AdminPasswordAuthService.Verify | apps/admin-api/src/auth.ts:31 | who a token stands for, and the refresh that an accepted token causes; `AcceptedIff` says which those are |
| AdminSessions.AdminPasswordAuthService.RevokeAll | apps/admin-api/src/auth.ts:33 | deletes the indexed records and the index |
| AdminSessions.AdminPasswordAuthService.Logout | apps/admin-api/src/auth.ts:34 | ends one session, or all of an identified account; all devices fail without one |
| AdminSessions.AdminPasswordAuthService.ChangePassword | apps/admin-api/src/auth.ts:35 | a new credential version and no session left, only for the right current password |
| AdminSessions.IndexComplete | apps/admin-api/src/auth.ts:30-33 | in every reachable state a live session record is a member of its account's live index |
| AdminSessions.RevocationIsFinal | apps/admin-api/src/auth.ts:33-35 | after an all-device logout or password change no earlier token of the account is accepted, whatever happens later |
| AdminSessions.AcceptedIsRecent | apps/admin-api/src/auth.ts:30-31 | an accepted token was issued to that account less than twelve hours ago and written less than thirty minutes ago |
| AdminSessions.AcceptedIff | apps/admin-api/src/auth.ts:30-31 | in every reachable state a token is accepted if and only if its session was not ended, its login is under twelve hours and its last write under thirty minutes old, the account is enabled, and no hash upgrade, password change, enable or disable has touched the account since that login |
| AdminSessions.EnabledBySwitchAlone | apps/admin-api/src/auth.ts:29-35 | no login, use, logout or password change enables or disables an account |
| AdminSessions.AccountWriteIsFinal | apps/admin-api/src/auth.ts:29-35 | after any such write no token issued to the account before is accepted, whatever happens later |
| AdminSessions.KeptAliveIffGapAtMost25Minutes | apps/admin-api/src/auth.ts:30-31 | sessions of all runs survive every pause of at most `gap` if and only if gap is at most 25 minutes |
| LoginRate.LoginCounters.CheckRateLimit | apps/admin-api/src/auth.ts:27 | a login may go on exactly while both counters are below their limits |
| LoginRate.LoginCounters.RecordFailure | apps/admin-api/src/auth.ts:28 | raises both counters, with a lifetime when one is created |
| LoginRate.CountersTell | apps/admin-api/src/auth.ts:26-28 | after every run a counter holds exactly the failures of its quarter hour and never expires inside it |
| LoginRate.AllowedIff | apps/admin-api/src/auth.ts:26-28 | in every run a login may go on if and only if its user has failed fewer than five times, and all users fewer than fifty, since the quarter hour began |
| LoginRate.FailuresPerQuarterHour | apps/admin-api/src/auth.ts:26-29 | with at most `width` logins in progress, one user fails at most 4 + width times in a quarter hour and all users 49 + width times |
| LoginRate.FailuresReached | apps/admin-api/src/auth.ts:26-29 | for every width a run in which one user reaches that number |
| LoginRate.FailuresReachedOverall | apps/admin-api/src/auth.ts:26-29 | for every width a run in which all users together reach theirs |
| AdmissionStore.RedisAdmissionStore.CountRequest | packages/admission-control/src/redis.ts:13-55 | the rate part of admission: refused requests are not counted; `CountersTell` and `RateLimitedIff` say what that amounts to |
| AdmissionStore.RedisAdmissionStore.OpenPermit | packages/admission-control/src/redis.ts:13-55 | a new permit takes a client and a global slot exactly when both have room |
| AdmissionStore.RedisAdmissionStore.AdmitTask | packages/admission-control/src/redis.ts:121-169 | the decision and the keys after an admission, shared permits included |
| AdmissionStore.RedisAdmissionStore.ReleaseTask | packages/admission-control/src/redis.ts:171-188 | takes one reference away and frees the slots with the last one |
| AdmissionStore.RunKeepsInv | packages/admission-control/src/redis.ts:13-67 | every run keeps permits, references and both active sets in agreement and within limits |
| AdmissionStore.SlotHeldIffReferenced | packages/admission-control/src/redis.ts:13-67 | in every run a permit occupies its slots if and only if some unexpired admission of it was not released |
| AdmissionStore.ActivePermitsWithinLimits | packages/admission-control/src/redis.ts:13-55 | active permits never exceed the client or the global limit |
| AdmissionStore.CountersTell | packages/admission-control/src/redis.ts:17-26 | after every run the counter of each client, and that of all, holds exactly the requests counted in the window that opened last, and ends with it |
| AdmissionStore.WindowCounts | packages/admission-control/src/redis.ts:23-26 | that window was opened by a counted request, none has come after its end, and its count is that of the requests since its start |
| AdmissionStore.RateLimitedIff | packages/admission-control/src/redis.ts:17-22 | in every run a request is refused for its rate if and only if its client, or all clients together, have reached their limit of counted requests in the windows now open |
| AdmissionStore.WindowWithinLimit | packages/admission-control/src/redis.ts:17-26 | no window counts more requests than the limit of the client, or of all |
| AdmissionStore.ConcurrencyLimitedIff | packages/admission-control/src/redis.ts:27-36 | otherwise it is refused if and only if nobody holds its permit and the client, or all clients, have as many live permits as allowed |
| AdmissionStore.ReleaseIdempotent | packages/admission-control/src/redis.ts:57-67 | once released, releasing the same reference again changes nothing, at any later time |
| ResolveJob.HandlePost | apps/api/src/server.ts:243-389 | the API handler: acquire, admit, enqueue and release on every path and fault; each of the answers 202, 409, 429, 500 and 503 exactly in its cases |
| ResolveJob.ProcessResolveJob | apps/worker/src/resolve-job-processor.ts:132-223 | one worker attempt: state after it and how it ends, under every fault of its calls |
| ResolveJob.PersistPostProviderFailure | apps/worker/src/resolve-job-processor.ts:100-130 | fails the task unless it is terminal and gives the reference back, either of which may be lost |
| ResolveJob.HandleExhaustedResolveJob | apps/worker/src/resolve-job-processor.ts:236-263 | acts only on the last attempt, and only on a task that is not terminal |
| ResolveJob.PostKeepsReferenceWithJob | apps/api/src/server.ts:243-389 | the reference is held after a request exactly when its job is queued, except exactly when the queue reports an error for a job it has accepted |
| ResolveJob.PostTellsRow | apps/api/src/server.ts:262-389 | the row of a new task after its request: queued, failed or absent, each exactly in its cases |
| ResolveJob.PostTold | apps/api/src/server.ts:243-389 | under every fault, when the request leaves a job on the queue and when it leaves the reference held |
| ResolveJob.TasksAttended | apps/api/src/server.ts:362-389 | in every run, under every fault: every task that can be found and is not terminal is queued, running or to be tried again, if and only if no step leaves one behind; the steps that do are listed |
| ResolveJob.ResolvedEnds | apps/worker/src/resolve-job-processor.ts:132-223 | an attempt in which the provider answered ends the job: it is never retried |
| ResolveJob.NoProviderReplay | apps/worker/src/resolve-job-processor.ts:132-223 | over every run no task is resolved by a provider twice |
| ResolveJob.RoundIsLocal | apps/worker/src/resolve-job-processor.ts:132-263 | a round touches only its own task and reference |
| ResolveJob.ReferenceGoneIffEnded | apps/worker/src/resolve-job-processor.ts:85-98 | while a job is retried its reference stays; once it ends, the reference is gone exactly when the attempt or the exhausted handler got to release it |
| ResolveJob.TaskClosedIffWriteReached | apps/worker/src/resolve-job-processor.ts:132-263 | in every run, at the end of a job its stored task is terminal if and only if none of the listed writes was lost or came after the deadline; afterwards only time changes the row |
| ResolveJob.TerminalFinalIffJobGone | packages/persistence/src/index.ts:389-397 | in all continuations a terminal status gives way to nothing but expired if and only if the task has no job on the queue or its row has expired |
| ResolveJob.SucceededIsFinal | packages/persistence/src/cleanup.ts:197-211 | a task that succeeded keeps its row until the deadline in every continuation, and only the cleanup marks or deletes it afterwards |
| ResolveJob.FailedTaskSucceeds | apps/api/src/server.ts:362-389 | a task failed after a late queue error succeeds when its job runs |
| ResolveJob.LostWriteLeavesTaskOpen | apps/worker/src/resolve-job-processor.ts:100-130 | after a lost failure write behind the provider's answer the task stays resolving in every continuation in which the cleanup does not mark it |
| ResolveJob.ReferencesConserved | apps/worker/src/resolve-job-processor.ts:85-263 | in every run, under every fault and every expiry: after every step the references held are exactly those of queued or retrying jobs, if and only if no step separates |
| ResolveJob.SeparatesDespiteWorkingCalls | apps/api/src/server.ts:362-389 | with working releases and handler calls a step separates if and only if the queue errs late, the reference of a job reaches the end of its lifetime, or a last attempt fails plainly over a row that is terminal, expired or gone |
| ResolveJob.LateFailureKeepsReference | apps/worker/src/resolve-job-processor.ts:236-263 | a run with only such calls whose job is over and whose reference is still held |
| ResolveJob.LapseKeepsReference | packages/persistence/src/index.ts:381-387 | the same with no failing call at all, the row's deadline passing during the last attempt |
| ResolveJob.LeakedUntilDropped | apps/api/src/server.ts:251-259 | a held reference without a job is given back by nothing but the end of its own lifetime |
| FieldEncoding.DecimalRoundTrip | apps/api/src/task-admission.ts:26-30 | a length is read back from its numeral |
| FieldEncoding.DecodeInvertsEncode | apps/api/src/task-admission.ts:26-30 | decoding inverts the encoder on every field list, digits and colons included |
| FieldEncoding.EncodeInvertsDecode | apps/api/src/task-admission.ts:26-30 | what the decoder accepts is exactly what the encoder writes |
| FieldEncoding.PreimageInjective | apps/api/src/task-admission.ts:39-44 | for domains without NUL, equal preimages if and only if equal domain and field list |
| FieldEncoding.SubjectsNeverCollide | apps/api/src/task-admission.ts:46-73 | two of the five hashed subjects share a preimage if and only if they are the same |
| Content.WalkFallback | apps/admin-api/src/content-management-service.ts:80 | ends on every pointer graph, cyclic ones included; finds a page if and only if one is published on the chain, and then the nearest |
| Content.ChainIsAcyclic | packages/admin-contracts/src/editorial.ts:326-339 | accepts a locale exactly when its fallback chain ends |
| Content.ValidateLocaleRegistry | packages/admin-contracts/src/editorial.ts:317-341 | accepts exactly registries with unique tags, one default, registered pointers and no cycle |
| Content.CoverCell | apps/admin-api/src/content-management-service.ts:80 | one cell: the locale's own page, else the nearest published fallback, else missing |
| Content.Coverage | apps/admin-api/src/content-management-service.ts:80 | one row for each definition in order, with one cell for each covered locale in order, each saying what it should, and nothing else |
| Content.MatrixSize | apps/admin-api/src/content-management-service.ts:80 | the matrix has definitions times covered locales cells |
| Publication.GetView | apps/admin-api/src/content-management-service.ts:80-81 | a view exists exactly for locales that all have a revision and form a registry, and its coverage is right |
| Publication.UnblockedIffReady | apps/admin-api/src/content-management-service.ts:152 | no blocker is raised if and only if every enabled locale is ready with all required pages and shared content of its own |
| Publication.UnblockedIffContentThere | apps/admin-api/src/content-management-service.ts:72-78 | the same page by page: each enabled locale has the six fixed pages and one for every stable platform, ready or published |
| Publication.UnblockedSnapshotComplete | apps/admin-api/src/content-management-service.ts:153-161 | an unblocked snapshot has every enabled locale, each with all required pages and shared content, the default homepage included |
| Publication.SnapshotLocalesExact | apps/admin-api/src/content-management-service.ts:157 | the snapshot's locales are ones the blockers looked at if and only if no published locale hides behind a disabling draft |
| Publication.HiddenLocaleCanLosePages | apps/admin-api/src/content-management-service.ts:152-158 | with such a locale an unblocked publication lacks its homepage |
| Publication.UnblockedParsesIffNothingStranded | packages/admin-contracts/src/editorial.ts:242-270 | an unblocked snapshot passes the schema's checks on locales and keys if and only if nothing presentable belongs to an unpublished locale and no second default is hidden |
| Publication.StrandedPageFailsSchema | apps/admin-api/src/content-management-service.ts:152-159 | an unblocked view with a ready page of a disabled locale, whose snapshot fails |
| StarterContent.ContentRepository.SaveDraft | packages/persistence/src/admin-content-management.ts:40-43 | a save succeeds exactly on the expected head, becomes the new draft head and keeps what is published |
| StarterContent.ContentRepository.SaveNewLocale | packages/persistence/src/admin-content-management.ts:37 | a new locale is saved exactly when no head exists, shown or not |
| StarterContent.Count | apps/admin-api/src/content-management-service.ts:94-112 | one counting loop: exact counts of ready, pending and existing records, exact conflicts |
| StarterContent.CountersMean | apps/admin-api/src/content-management-service.ts:94-112 | what the counters of a loop stand for: records whose text is shown as ready or published, those whose text is shown in another state, and as conflicts unsupported ones and those shown with another text |
| StarterContent.ContentRepository.GetStarterPreview | apps/admin-api/src/content-management-service.ts:87-119 | blocked, ready, partial and empty mean what they say about the stored records |
| StarterContent.ContentRepository.AddLocales | apps/admin-api/src/content-management-service.ts:127-132 | adds exactly the locales that are not shown; stops at one whose head was left behind |
| StarterContent.RowsAdded | apps/admin-api/src/content-management-service.ts:127-132 | exactly the nine starter locales that are not shown are added, each with a first, ready, enabled draft, `en` as default and the others falling back to it |
| StarterContent.ContentRepository.ApplyRecords | apps/admin-api/src/content-management-service.ts:133-147 | writes exactly the records not in place, or stops at the first refused write and keeps those before |
| StarterContent.RecordAfterLoops | apps/admin-api/src/content-management-service.ts:133-147 | the head under each record after the loops: as it was where the text was shown as ready or published, and otherwise a ready draft under the next number with the record's text, the shown integrations and the published revision kept |
| StarterContent.PendingCounts | apps/admin-api/src/content-management-service.ts:133-147 | as created are reported exactly the records that were not shown so |
| StarterContent.ContentRepository.BootstrapStarterContent | apps/admin-api/src/content-management-service.ts:120-150 | completes if and only if the starter pages are supported, no needed write meets a discarded draft and the starter default is registered; then the preview is ready |
| StarterContent.SecondBootstrapWritesNothing | apps/admin-api/src/content-management-service.ts:120-150 | after a completed bootstrap the next one completes and changes nothing |
| StarterContent.ApplyingTwiceIsOnce | apps/admin-api/src/content-management-service.ts:133-147 | applying the records to their own result is the identity and creates nothing |
| StarterContent.OthersUntouched | apps/admin-api/src/content-management-service.ts:133-147 | keys outside the starter records keep their heads |
| StarterContent.IntegrationsKept | apps/admin-api/src/content-management-service.ts:143 | site integrations that were shown are still shown afterwards |
| StarterContent.StaleIffLeftBehind | packages/persistence/src/admin-content-management.ts:45 | the shown revision differs from the head exactly after a discarded draft |
| StarterContent.AcceptedIffNoneLeftBehind | apps/admin-api/src/content-management-service.ts:133-147 | all needed writes are accepted if and only if no record that needs one has a head left behind by a discard |
| StarterContent.DiscardBlocksBootstrap | apps/admin-api/src/content-management-service.ts:120-150 | a registry, store and records in order but for one discarded first draft, for which no bootstrap completes |
| StarterContent.RegistrySurvivesIffDefaultListed | apps/admin-api/src/content-management-service.ts:127-132 | the registry is still valid after the locale loop if and only if `en` was shown before |
| LocaleCommands.DefaultAlwaysListed | infra/migrations/0011_owner_control_plane.sql:123-132 | from the delivered tables, every sequence of locale commands leaves `en` shown as the one default and enabled |
| LocaleCommands.BootstrapNeverBreaks | apps/admin-api/src/content-management-service.ts:127-132 | so the locale loop of the bootstrap keeps every valid registry they lead to |
| LocaleCommands.NoDefaultHidden | apps/admin-api/src/content-management-service.ts:82 | and no published default hides behind a disabling draft |
| LocaleCommands.RegistryKeptIff | apps/admin-api/src/content-management-service.ts:80-83 | after any commands that led to a registry in order, the next command keeps it so if and only if it is no discard or what the discard uncovers is safe to be shown |
| LocaleCommands.DiscardKeepsIff | packages/persistence/src/admin-content-management.ts:45 | the same for one discard on any such tables |
| LocaleCommands.OnlyDiscardsRepair | apps/admin-api/src/content-management-service.ts:80-83 | out of order, every other command leaves the tables as they are |
| LocaleCommands.DiscardBreaksRegistry | apps/admin-api/src/content-management-service.ts:83 | after any commands that left a registry in order, two new drafts and one discard leave none, and the second discard restores it |
| LocaleCommands.DiscardBreaksDelivered | infra/migrations/0011_owner_control_plane.sql:123-132 | so it happens from the delivered tables |
| LocaleCommands.DiscardClosesCycle | apps/admin-api/src/content-management-service.ts:83 | for every new tag six commands from the delivered tables after which discarding the draft of a published locale closes a cycle |
| LocaleCommands.UnblockedYetNotStored | infra/migrations/0011_owner_control_plane.sql:102 | a publication that nothing blocks and whose snapshot passes, which the table refuses |
| Redirects.ParsePages | packages/admin-contracts/src/editorial.ts:255-279 | accepts exactly pages with keys, paths and redirects distinct from those before, and no redirect from a path of an earlier page or its own |
| Redirects.ParsesIff | packages/admin-contracts/src/editorial.ts:255-279 | the same told page by page: known locale, no key and no path of an earlier page, and no redirect that was a redirect or path before |
| Redirects.TechnicalBlockers | packages/admin-contracts/src/seo-publication.ts:41-44 | the path and redirect blockers of every page, each raised exactly in its case; one for a loop exactly when the redirects from the page never end or come by the redirect they started from |
| Redirects.CollidesIffTaken | packages/admin-contracts/src/seo-publication.ts:42 | a redirect collides exactly when it stands on the page or an earlier one already, or is the path of the page or an earlier one |
| Redirects.UnmigratedIff | packages/admin-contracts/src/seo-publication.ts:44 | a migration is missing exactly when the page was published at another path from which it does not redirect |
| Redirects.PrivateIffFirstPart | packages/admin-contracts/src/seo-publication.ts:29 | a path is private exactly when its first part is one of the private names |
| Redirects.LoopNeedsChain | packages/admin-contracts/src/seo-publication.ts:43 | a blocker for a loop comes only with one for a chain |
| Redirects.LocalizedInjective | packages/admin-contracts/src/seo-publication.ts:28 | localized texts are equal if and only if tag and path are |
| Redirects.RedirectsEndAtPages | apps/web/lib/published-content.ts:100-108 | after an accepted publication every redirect leads in one step to a page that is shown |
| Redirects.MovedPagesAreFound | packages/admin-contracts/src/seo-publication.ts:44 | the path at which a page was published before leads to it |
| Redirects.HiddenIffEarlierRedirect | apps/web/lib/published-content.ts:100-108 | an accepted page is not shown at its own path if and only if a page before it redirects from there, and then it has no redirects |
| Redirects.OrderDecides | packages/admin-contracts/src/editorial.ts:272-278 | two pages accepted in one order, the second hidden, and refused in the other |
| Rollout.FirstDecides | apps/admin-api/src/read-service.ts:160-164 | the sorted head is a matching grant ahead of all others |
| Rollout.AllocationMeaning | apps/admin-api/src/read-service.ts:151-165 | a deny that covers the route gives 0; otherwise the covering grant that names most fields, of those the one with the least id, decides; otherwise 0 |
| Rollout.SpecificityCountsFields | apps/admin-api/src/read-service.ts:160-164 | a rule is as specific as the number of fields it names |
| Rollout.AllocationOrderIndependent | apps/admin-api/src/read-service.ts:151-165 | with distinct ids every permutation of the rules gives the same allocation |
| Rollout.GuardedAllocation | apps/admin-api/src/read-service.ts:167-194 | a guard never raises an allocation, and an unavailable one leaves 0 |
| Rollout.GuardedMeaning | apps/admin-api/src/read-service.ts:167-194 | unavailable exactly when required guards are missing, the snapshot is more than five seconds ahead or older than the limit, or required ones have none for the route; otherwise the smaller of the first guard's cap and the allocation is left |
| Rollout.StateMeaning | apps/admin-api/src/read-service.ts:196-214 | each of the seven states exactly in its case |
| Rollout.HealthyIsServed | apps/admin-api/src/read-service.ts:196-214 | healthy implies a positive guarded allocation from the strongest grant, no deny and no zero cap |
| Rollout.DecisionOrderIndependent | packages/rollout-control/src/decision.ts:47-119 | the router's decision does not depend on the order of the rules |
| Rollout.SelectionDecides | packages/rollout-control/src/decision.ts:58-96 | a mock is denied, a covering deny decides, and no rule matches exactly when no grant covers the route |
| Rollout.GrantDecides | packages/rollout-control/src/decision.ts:98-119 | each further answer exactly in its case: bucket and allocation of the strongest grant, age of the guards, cap of the route's first guard |
| Rollout.RouterMatchesView | packages/rollout-control/src/decision.ts:47-119 | the router allows a request if and only if its bucket is below the allocation shown and no guard is missing |
| Rollout.ViewExactIffNoGap | apps/admin-api/src/read-service.ts:167-194 | the view tells what the router does for every bucket if and only if no optional guard is missing under a positive allocation |
| Rollout.GapShowsWhatIsRefused | packages/rollout-control/src/decision.ts:47-119 | with an empty optional guard source the view shows the whole grant of a rule and the router refuses every request |
| Qualification.QualificationRepository.Review | apps/admin-api/src/qualification-service.ts:90-103 | an approval is accepted exactly for the current revision, one step up, with declaration, enablement, region and fixtures, from canary-ready on a delivery mode and a fresh canary, from limited on three sealed consecutive days of a matching proposal with enough samples, a current policy and an eligible guard; hold and deny exactly for an unchanged stage; a refusal names the first missing prerequisite |
| Qualification.EarnedIffEvidence | apps/admin-api/src/qualification-service.ts:57-101 | the list of prerequisites cut at the count for a stage asks for exactly that evidence |
| Qualification.QualificationRepository.Lock | packages/persistence/src/admin-qualification.ts:178-213 | accepted exactly for the current revision and an open, cited proposal over three sealed days; keeps stage and pause of a row, and without a row inserts one at the internal stage |
| Qualification.EligibleNeedsGuard | apps/admin-api/src/qualification-service.ts:73-85 | for the upper stages an approval is earned if and only if the view calls it eligible and a guard exists |
| Qualification.EligibleYetRefused | apps/admin-api/src/qualification-service.ts:73-100 | facts that the view calls eligible and the review of the limited stage refuses |
| Qualification.LadderIffReviewedFirst | apps/admin-api/src/qualification-service.ts:90-103 | over every history each rung up to the current stage was approved on the evidence named there, if and only if no policy was locked before the first review |
| Qualification.LockReachesInternal | packages/persistence/src/admin-qualification.ts:178-213 | one accepted lock puts an unreviewed provider at the internal stage without an approval |
| Qualification.StageIsApprovalCount | apps/admin-api/src/qualification-service.ts:90-111 | over every history the stage is the number of accepted approvals, three more after a first lock |
| Qualification.UpperStagesApproved | apps/admin-api/src/qualification-service.ts:97-101 | limited and stable are always reached by approvals with all prerequisites and an eligible guard |
| Qualification.StageNeverFalls | apps/admin-api/src/qualification-service.ts:90-111 | no history lowers a stage |
| YtDlpRunner.YtDlpAdmissionGate.TryAcquire | apps/ytdlp-runner/src/admission.ts:17-21 | YouTube is admitted exactly when nothing is active and the pause is over; other platforms always, without effect |
| YtDlpRunner.YtDlpAdmissionGate.Call | apps/ytdlp-runner/src/admission.ts:22-27 | a release frees an active gate for any holder and starts the pause |
| YtDlpRunner.YtDlpRunnerApp.Purge | apps/ytdlp-runner/src/app.ts:72 | forgets exactly the expired request ids |
| YtDlpRunner.YtDlpRunnerApp.Begin | apps/ytdlp-runner/src/app.ts:56-78 | the synchronous part of both handlers: answer, ids and gate afterwards |
| YtDlpRunner.OneAtATimeAndSpaced | apps/ytdlp-runner/src/app.ts:71-131 | over every interleaving of both handlers YouTube operations do not overlap, and each starts the interval after the last release |
| YtDlpRunner.StrayHarmlessIffNothingInFlight | apps/ytdlp-runner/src/admission.ts:22-27 | a closure called out of turn changes nothing if and only if no YouTube operation is in flight |
| YtDlpRunner.StrayBreaksSingleFlight | apps/ytdlp-runner/src/admission.ts:22-27 | otherwise it lets two operations run at once |
| YtDlpRunner.ReplayedIffRetained | apps/ytdlp-runner/src/app.ts:71-78 | a request is refused as a replay if and only if its id was taken within the last minute, or by an artifact request within the last five, be it admitted or rate-limited |
| YtDlpRunner.AnswerIff | apps/ytdlp-runner/src/app.ts:56-131 | after every orderly run each answer exactly in its case, told from the ids taken and the operations in flight or just ended |
| ByteStream.AllServedIsWhole | apps/delivery/src/app.ts:350-356 | reads that all arrive within the limit make up the whole body |
| ByteStream.ServedIsWhatArrives | apps/delivery/src/app.ts:350-356 | the chunks served are the longest run of reads from the start that arrives within the limit |
| DeliveryRelay.Ticket.Record | packages/persistence/src/index.ts:751-796 | only the first outcome of a ticket is kept, whatever the faults |
| DeliveryRelay.BoundedBody | apps/delivery/src/app.ts:347-370 | the chunks yielded, the end and the recorded outcome for every upstream, reader and fault |
| DeliveryRelay.TakenIff | apps/delivery/src/app.ts:347-356 | the reader gets exactly the chunks that arrive within the limit and that it asks for |
| DeliveryRelay.PassedMeansWhole | apps/delivery/src/app.ts:357-365 | passed is recorded if and only if the body came whole, non-empty, within the limit and of the declared length, to a reader that took it all, and the recording was not lost; nothing is recorded exactly when the reader left without an error or the recordings were lost |
| DeliveryRelay.Network.Vet | packages/delivery-core/src/index.ts:748-758 | a URL passes when policy allows it and its name resolves to public addresses only |
| DeliveryRelay.Network.FollowRedirects | apps/delivery/src/app.ts:326-338 | at most four fetches along vetted redirects; ends with a reply that is no redirect or in a dead end |
| DeliveryRelay.Network.ChainIff | apps/delivery/src/app.ts:326-338 | what is fetched starts at the target, and each next URL is where a 301, 302, 303, 307 or 308 leads, allowed and resolving to public addresses only |
| DeliveryRelay.EveryFetchVetted | apps/delivery/src/app.ts:300-338 | each fetch follows directly on the vetting of its URL |
| DeliveryRelay.ServeTarget | apps/delivery/src/app.ts:295-388 | for every fault: a reply is streamed if and only if it is the last one, with a status from 200 to 299, a body, an allowed MIME type and no declared length outside 1 to the maximum; every URL fetched is allowed and public, redirects are followed as far as they lead to such a URL and four fetches allow; bytes are bounded, and the ticket says passed only for a whole body or a redirect to a vetted target |
| BoundedRead.ReadBounded | apps/web/lib/client-processing.ts:113-142 | the bytes or the failure a response stands for under a budget |
| BoundedRead.ReadsWholeBody | apps/web/lib/client-processing.ts:113-142 | a read succeeds if and only if the body arrives whole with one byte at least and the budget at most, and gives exactly it |
| BoundedRead.TooLargeIsOverBudget | apps/web/lib/client-processing.ts:115-128 | too large is said only of more declared or sent bytes than the budget |
| BoundedRead.FailsIff | apps/web/lib/client-processing.ts:113-135 | each of the four failures exactly in its case: no usable response, an empty body, a read that fails within the budget, and a declared or arrived length over it |
| BoundedRead.Assemble | apps/web/lib/client-processing.ts:135-141 | the filled array is the concatenation of the chunks |
| BoundedRead.ReadInputs | apps/web/lib/client-processing.ts:165-177 | all inputs read under one budget, or the failure of the first that does not fit; what is kept never exceeds it |
| BoundedRead.AllReadIff | apps/web/lib/client-processing.ts:165-177 | all inputs are read if and only if each comes whole, is not empty and declares no more than what is left, and all together keep the budget |
| BoundedRead.BuffersAreBodies | apps/web/lib/client-processing.ts:165-177 | each buffer is the body its input sent |
| DownloadFilename.CleanPartMeaning | apps/web/lib/download-filename.ts:6-15 | the cleaned text is clean, made of the first letters and digits of the value in order; the fallback is taken exactly when it has none |
| DownloadFilename.CleanIffFixed | apps/web/lib/download-filename.ts:6-15 | a text is left as it is if and only if it is clean |
| DownloadFilename.CleaningTwiceIsOnce | apps/web/lib/download-filename.ts:6-15 | cleaning is idempotent for a clean fallback |
| DownloadFilename.RunBecomesDash | apps/web/lib/download-filename.ts:6-15 | whatever unsafe text stands between two clean texts becomes one dash |
| DownloadFilename.CutAtMaximum | apps/web/lib/download-filename.ts:6-15 | nothing is lost below the maximum; above it the text is cut there, and then only of the edge characters it ends with |
| DownloadFilename.BaseIsClean | apps/web/lib/download-filename.ts:43-58 | platform, source and quality make a clean base name of at most 104 characters |
| DownloadFilename.IdEndIsKept | apps/web/lib/download-filename.ts:17-31 | without a match the source part is the last eight letters and digits of the task id, or all that follows its prefix |
| DownloadFilename.MatchIsKept | apps/web/lib/download-filename.ts:17-31 | a clean match is the source part |
| DownloadFilename.ExtensionMeaning | apps/web/lib/download-filename.ts:33-37 | the container, by its letters and digits in lower case, where it is one of four; otherwise mp4 for video and mp3 for sound |
| DownloadFilename.FilenameIsSafe | apps/web/lib/download-filename.ts:43-60 | for every task and format the name is the whole base with an allowlisted extension, safe and within 120 characters |

## Left out

- Races inside one admin login or verify call, and job redelivery after a stall: a service method is one step and a job runs one attempt at a time.
- Clock differences between processes and Redis: one monotone clock serves each model.
- The length of lifetimes in `ResolveJob`: rows and references may expire at any step; `AdmissionStore` has the deadlines.
- Idempotency receipts, audit rows and revisions of other aggregates: a command is sent once.
- The wait that a refused admission or login suggests to its caller.
- Cryptography (HMAC, scrypt, AES-GCM, random ids): preimages and equality of tokens only.
- UTF-16, NFKC and `toLowerCase` outside ASCII in file names and field lengths; the URL patterns of `sourceIdFor` are a parameter.
- The comparison of ids by locale: rule ids are ranks of a total order.
- The stale limit is one number in `Rollout`, although view and router have defaults of their own.
- Temporary artifacts and client processing plans of the delivery service, and the reading of the stored secret.
- The rules inside a host policy and address ranges: `Network.allows` and the public flags of an answer stand for them.
- FFmpeg processing after the browser has read its inputs, and its time-out.
- Technical SEO rules beyond paths and redirects, and site integrations of a snapshot.
- Ties between expiry times in the cleanup: the order in which a stage takes its rows is given.
- The starter texts themselves: starter content is any list of records with distinct keys; conflicts are a set, not the first hundred in order.
- Failures of Redis during login counting, and the two increments as separate steps.
- Provider adapters, circuit breaker, pilot guard evaluation, evidence aggregation, React components and command line drivers.
- UnblockedParsesIffNothingStranded: the schema's checks on locales and keys only; those on paths and redirects are in `Redirects`.
- UncountedOnlyAlongOrFailed: one direction, because with others at work the rows at the start do not decide it; for undisturbed runs `EveryRowCountedIff` has both.
