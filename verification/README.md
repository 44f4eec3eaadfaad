# Verified models of idmagic's transfer, queue, breaker, access and claim logic

idmagic is an identity provider written in Go. This project states in Dafny what six parts of its
backend do, and proves what they promise: about single calls, about whole files, and about every
run of calls by any number of workers. `dafny verify dfyconfig.toml` checks all of it.

| part | modules |
|---|---|
| CSV transfer: writer, reader, limit check, checking copy | `CsvTypes`, `CsvCell`, `CsvGrammar`, `CsvSyntax`, `CsvWriter`, `CsvReader`, `CsvLimits`, `CsvFirstLimit`, `CsvRoundTrip`, `CsvFiles` |
| Durable job queue and its runners | `JobLifecycle`, `JobRepository`, `JobRuns`, `JobRunner` |
| Circuit breaker | `CircuitBreaker`, `BreakerRuns` |
| Access rules, limits, tool reports, actor chains | `AccessRules`, `AccessLimit`, `ToolReport`, `DelegationMode` |
| Claim release floor | `ClaimRelease`, `ClaimFloor` |
| Application assignments | `Assignments`, `AssignmentRuns`, `AssignmentOverlaps`, `OverlapNotices` |
| Shared: optional values and 64-bit integers, sorting, Go's string functions, `%q` | `GoValues`, `Sorting`, `Strings`, `GoQuote` |

What changes state in the source is a class here (`CsvWriter`, `CsvReader`, `Repository`,
`CircuitBreaker`, `KindRegistry`, `Store`), and a loop that updates variables is a method with a
loop. Each such method is tied to a function on values; the theorems about runs are about those
functions. What a method answers is besides stated without that function, on its inputs and the
state before, in its own contract or in a lemma beside it.

## How the models stand to the code

- Text is a sequence of bytes in the CSV modules, a sequence of code points or broken bytes in
  `GoQuote`, and a sequence of code points elsewhere. 64-bit integers that can wrap do wrap
  (`Wrap64`), and the breaker's counters are modulo 2^32.
- `encoding/csv` is not part of the repository. `CsvGrammar` models it from its published
  behaviour: section 2 of RFC 4180, with a CR dropped before an LF, blank lines skipped and empty
  fields written bare; the writer goes through a buffer of 4096 bytes. How far buffered reads run
  ahead of the parser is a parameter, so the results hold for every way in which the input arrives.
- The job queue is the contract of the port together with its in-memory adapter. Calls are atomic,
  as under the adapter's mutex, and each call carries its own clock: no order between the clocks of
  different workers is assumed.
- The actor chain is a graph of objects by reference, so cyclic chains are included.
- Libraries that decide something are parameters: the expression compiler and URL parser of the
  access rules, `unicode.IsPrint` in `%q`, `unicode.ToLower` in claim types, and the reader's rule
  for header keys. SHA-256 and JSON are taken to keep different canonical forms apart.

## What the proofs found

- `CopyCSVWithinPolicy` promises the whole input on success. At `MaxBytes` equal to 2^63 - 1 the
  limit plus one wraps to a negative number, nothing is read, and the copy of every file succeeds
  and is empty; the promise holds for all files exactly below that limit
  (`CsvLimits.CopyIsWholeFileExactlyBelowMaxInt`). The reader refuses every file there.
- A file that `CSVWriter` closed reads back as it was written exactly when no cell holds CR LF, no
  row is the blank line of a one-column file, every cell fits the field limit after its guard has
  been added (the writer measures cells before that), and the header keys are accepted and not
  forbidden, need no guard, hold no CR LF, do not begin with a byte order mark, and are not the
  single empty key, whose line the reader skips (`CsvRoundTrip.RoundTripExactly`).
- `docs/modules/jobs/features/queue.md` says that a failed job is retried exactly while `attempts`
  is below `max_attempts`. The runner decides by the attempt of its own claim. A failure report that
  takes effect carries the stored attempt exactly when its worker has not claimed the job again
  since (`JobRunner.EffectiveReportIsCurrentExactly`), and it follows the documented guard exactly
  unless its worker has since begun an attempt that uses up the budget while the reporting execution
  is below it (`ReportFollowsGuardExactly`); `StaleReportRequeuesSpentJob` is such a run. Runs in
  which no worker claims a job that it still executes follow the guard throughout
  (`ClaimsApartFollowGuard`). The bound on claims from the queue holds in every run
  (`RunnersClaimWithinBudget`).
- For bases and caps that are not negative, `NextRetryRunAt` computes the documented delay for all
  bases and attempt counts exactly for caps up to 2^62 nanoseconds; above that a doubling can
  overflow.
- Values in a custom attribute can be told from outside exactly when the attribute may be released
  and its key is not blank (`ClaimRelease.RevealedExactlyAboveFloor`).
- A chain of more than 64 levels counts as acting on behalf of someone although nobody else need be
  listed (`DelegationMode.SelfCycleDelegates`); within 64 levels mode and participants agree.
- In runs of calls one after another, provisioning notices of a user alternate strictly exactly when
  no call assigns a user whose row is stored or went with its application unannounced, or withdraws a user of whom
  neither is so (`AssignmentRuns.RunAlternatesExactly`); assigning twice is a run where they do not
  (`AssigningTwiceBreaksAlternation`). They alternate and agree with the stored rows exactly when no
  call assigns a user who is assigned already, withdraws one who is not, or deletes an application
  with user rows (`RunInStepExactly`). Runs of the desired-state operations alone, one call after
  another, do both.
- No lock spans the steps of a call: lookup, change of the rows, event, notice. So the event log can
  end up wrong for good: an assigning call stores its row, a withdrawing call for the same user runs
  from beginning to end, and then the first call emits; no row is left, but the log replays to one
  (`AssignmentOverlaps.LateEventBreaksLog`). In any overlap of any calls, log and rows agree
  throughout, on what is settled, exactly when every event comes while the rows are still as its call
  left them (`OverlapRunKeepsLogExactly`). Calls for one subject that do not overlap keep them in
  agreement (`SeparateCallsKeepLog`).
- Notices suffer likewise: two overlapping calls can announce a user twice as added
  (`OverlapNotices.OverlapBreaksAlternation`). In any overlap they alternate strictly exactly when no
  notice repeats what its user was told last (`OverlapRunAlternatesExactly`), and alternate and agree
  with the rows exactly when, besides, every notice is still true of the row and no row comes or goes
  without one (`OverlapRunInStepExactly`). Desired-state calls that do not overlap for the same user
  keep both (`SeparateCallsAlternate`).

## Model

| member | source | states |
|---|---|---|
| CsvCell.EncodeIsSafeAndReversible | backend/idmanagement/domain/csv.go:295-312 | no encoded cell starts a formula, and decoding gives back every cell |
| CsvCell.EncodeGuardsExactly | backend/idmanagement/domain/csv.go:283-302 | a cell changes exactly when it starts with one of eight bytes, by one apostrophe, and no result starts with another of them |
| CsvCell.DecodeIsReversibleOnGuardedCells | backend/idmanagement/domain/csv.go:297-312 | encoding undoes decoding exactly on the guarded cells, which are what encoding produces |
| CsvGrammar.ReadRecordOfWritten | backend/idmanagement/domain/csv.go:363-369 | reading the text of a record gives its fields with CR LF folded to LF and leaves the text behind it; the blank record is skipped |
| CsvGrammar.UnixShortensExactlyWithCrlf | backend/idmanagement/domain/csv.go:184-186 | a field comes back shorter exactly when it holds CR LF, and otherwise unchanged |
| CsvSyntax.FieldExactly | backend/idmanagement/domain/csv.go:184-195 | what any text starts with is a bare field up to comma, newline or end, or a quoted one up to its closing quote; a stray, open or followed quote is a syntax error |
| CsvSyntax.RecordIsItsFields | backend/idmanagement/domain/csv.go:184-195 | a record is its fields from left to right, and one refused field refuses it |
| CsvSyntax.BlankLinesAreSkipped | backend/idmanagement/domain/csv.go:184-195 | blank lines are skipped, and a file that holds nothing else has ended |
| CsvWriter.PolicyWriter.Write | backend/idmanagement/domain/csv.go:320-327 | a write goes through whole or not at all, exactly within the byte limit |
| CsvWriter.CsvWriter.Flush | backend/idmanagement/domain/csv.go:390-393 | the buffer reaches the output exactly if it still fits; otherwise the writer has failed and the output is unchanged |
| CsvWriter.CsvWriter.Push | backend/idmanagement/domain/csv.go:368 | flushed and buffered bytes are the text so far, and after a failure the flushed bytes are a prefix of a text too long for the limit |
| CsvWriter.CsvWriter.WriteRecord | backend/idmanagement/domain/csv.go:363-369 | the record joins the file, all of whose text is flushed or buffered unless it no longer fits |
| CsvWriter.CsvWriter.WriteRow | backend/idmanagement/domain/csv.go:371-388 | a refused row changes nothing; an accepted one joins the file, with an error exactly when the writer has failed |
| CsvWriter.CheckRow | backend/idmanagement/domain/csv.go:371-382 | none exactly for rows of the right width within both limits; otherwise the first of column count, row count and the first raw cell that is too long |
| CsvWriter.CsvWriter.Close | backend/idmanagement/domain/csv.go:390-393 | succeeds exactly when the whole file fits, and then the output holds the whole file; otherwise at most the limit was written |
| CsvWriter.NewCsvWriter | backend/idmanagement/domain/csv.go:338-361 | refuses an unusable policy, and a header by its first key that is too long or repeated, without output; otherwise the file holds the header |
| CsvWriter.FirstTooLong | backend/idmanagement/domain/csv.go:201-209 | none exactly when all fields are within the limit; otherwise the first that is not |
| CsvReader.HeaderProblem | backend/idmanagement/domain/csv.go:158-176 | a header is accepted exactly when no key is too long, forbidden, unknown or repeated |
| CsvReader.CheckHeader | backend/idmanagement/domain/csv.go:158-176 | the loop with the set of seen keys refuses the first key that is too long, forbidden, unknown or repeated, and nothing else |
| CsvReader.OpenReader | backend/idmanagement/domain/csv.go:143-178 | a first read beyond the byte limit is too large, one without a record is invalid; otherwise opens behind the header or names its first bad key, whatever the read-ahead |
| CsvReader.NewCsvReader | backend/idmanagement/domain/csv.go:131-141 | an unusable policy or missing rule is refused before any byte is read; otherwise as OpenReader |
| CsvReader.CsvReader.Next | backend/idmanagement/domain/csv.go:184-218 | byte limit, end, syntax, row limit, first long field and column count decide in this order; nothing but a stop beyond the byte limit, and a regular end only of a stream within it |
| CsvReader.StepTells | backend/idmanagement/domain/csv.go:184-218 | what a call of Next returns, told from the limits and the record alone |
| CsvReader.HeaderProblemIsFirst | backend/idmanagement/domain/csv.go:158-176 | the problem of a header is that of its first key that is not acceptable, and there is none without such a key |
| CsvReader.ForbiddenExactly | backend/idmanagement/domain/csv.go:96-102 | forbidden are exactly the five keys that name secrets |
| CsvReader.TrimFirstExactly | backend/idmanagement/domain/csv.go:157 | a byte order mark in front of the first key is dropped, once, and nothing else changes |
| CsvReader.JudgeRecord | backend/idmanagement/domain/csv.go:196-217 | row limit, field limit and column count in that order; only the last leaves the reader usable |
| CsvReader.BuildCells | backend/idmanagement/domain/csv.go:213-217 | each key holds the decoded cell of its column |
| CsvLimits.CheckCsvLimits | backend/idmanagement/domain/csv.go:220-243 | the stop of the reader without a vocabulary, if it is a transfer limit; which limit that is, CsvFirstLimit says on the grammar |
| CsvLimits.CheckAgreesWithReader | backend/idmanagement/domain/csv.go:220-243 | check and accepting reader see the same rows and stop, unless the reader refuses the header; a passed check means the reader never reports a limit |
| CsvLimits.LimitedMeaning | backend/idmanagement/domain/csv.go:146 | what the byte limit lets through: the file, one byte more than allowed, or nothing at the largest limit |
| CsvLimits.CopyCsvWithinPolicy | backend/idmanagement/domain/csv.go:245-266 | the output grows by a prefix of the input of at most one byte more than the limit, and without an error by all that the limit lets through |
| CsvLimits.CopyRest | backend/idmanagement/domain/csv.go:250-265 | what was pulled for the check and what is left make up the stream, even after a syntax error |
| CsvLimits.CopyIsWholeFile | backend/idmanagement/domain/csv.go:245-266 | without an error the whole file was copied and is within the limit |
| CsvLimits.CopyIsWholeFileExactlyBelowMaxInt | backend/idmanagement/domain/csv.go:247-266 | that holds for all files exactly when the limit is below the largest int64 |
| CsvLimits.CheckPassesExactly | backend/idmanagement/domain/csv.go:220-243 | for a file within the byte limit the check passes exactly when header keys, rows up to a syntax error, and their number are within the limits, stated on the grammar alone |
| CsvLimits.CopySucceedsExactly | backend/idmanagement/domain/csv.go:245-266 | the copy succeeds exactly for files within the byte limit and those limits, however the input arrives |
| CsvFirstLimit.CheckReportsFirstLimit | backend/idmanagement/domain/csv.go:220-243 | the check reports a limit exactly when some read that is reached passes one, and then the line and code of the first, for every file and every arrival |
| CsvFirstLimit.OverlongFileIsReported | backend/idmanagement/domain/csv.go:220-243 | a file beyond the byte limit whose part up to there holds no syntax error is always reported as exceeding a limit |
| CsvFirstLimit.OverlongFileNeverFinishes | backend/idmanagement/domain/csv.go:184-195 | no reader reads a file beyond the byte limit to a regular end |
| CsvRoundTrip.UnixCommutesWithEncode | backend/idmanagement/domain/csv.go:297-312 | guarding a cell and folding its CR LF commute, so decoding gives the folded cell |
| CsvRoundTrip.KeySurvivesExactly | backend/idmanagement/domain/csv.go:157 | a header key comes back exactly when it needs no guard, holds no CR LF and, in front, has no byte order mark |
| CsvRoundTrip.HeaderSurvivesExactly | backend/idmanagement/domain/csv.go:157-176 | the written header is read and accepted unchanged exactly when all its keys are such keys, accepted and not forbidden |
| CsvRoundTrip.ReadRows | backend/idmanagement/domain/csv.go:184-218 | reading the text of any rows returns what each becomes, blank ones dropped, up to the first that is too long |
| CsvRoundTrip.RowSurvivesExactly | backend/idmanagement/domain/csv.go:201-217 | a row keeps its cells exactly when it is not blank, holds no CR LF and its guarded cells fit |
| CsvRoundTrip.RowsSurviveExactly | backend/idmanagement/domain/csv.go:184-218 | all rows come back, numbered in order, exactly when each survives |
| CsvRoundTrip.BlankHeaderLosesRows | backend/idmanagement/domain/csv.go:150-157 | after a blank header the first row that is not blank is taken for the header, so fewer rows come back |
| CsvRoundTrip.RoundTripExactly | backend/idmanagement/domain/csv.go:145-218 | every written file reads back as the same header and rows, row i numbered i + 2, exactly under the conditions on header and rows |
| CsvRoundTrip.NothingReadsBackAtMaxInt | backend/idmanagement/domain/csv.go:146 | at the largest byte limit no file reads back |
| CsvFiles.WriteRows | backend/idmanagement/domain/csv.go:371-388 | all rows join the file, or the file is not one that can be written |
| CsvFiles.WriteFile | backend/idmanagement/domain/csv.go:338-393 | writer, rows and Close succeed exactly for the files that the policy admits, with exactly their text |
| CsvFiles.NextUntilStop | backend/idmanagement/domain/csv.go:184-218 | calling Next to its stop yields the outcomes that the theorems speak of |
| CsvFiles.ReadFile | backend/idmanagement/domain/csv.go:133-218 | opening and calling Next gives the header and outcomes that the round trip speaks of, and nothing under an unusable policy |
| JobLifecycle.TransitionJobLifecycle | backend/jobs/domain/job.go:149-169 | searching the table finds the declared target of every state and event, or none |
| JobLifecycle.TerminalExactlyWhenStuck | backend/jobs/domain/job.go:149-179 | a status is terminal exactly when no event leaves it |
| JobLifecycle.KindRegistry.RegisterKind | backend/jobs/domain/job.go:102-112 | a kind keeps its first lane for ever; registering fails exactly for an unknown or a different lane |
| JobLifecycle.KindRegistry.LaneFor | backend/jobs/domain/job.go:114-123 | the lane of a registered kind, which is a valid one |
| JobLifecycle.NextRetryRunAt | backend/jobs/domain/job.go:193-212 | for a base that is not negative and caps from 0 to 2^62 the 64-bit loop adds base times 2^(attempts-1), capped |
| JobLifecycle.DelayIsCapped | backend/jobs/domain/job.go:200-210 | no doubling of the loop overflows for caps up to 2^62 |
| JobLifecycle.DelayMonotone | backend/jobs/domain/job.go:193-212 | the documented delay never decreases as attempts grow, and for caps up to 2^62 neither does the loop's |
| JobLifecycle.DelayDocumentedExactlyForCapsUpTo2To62 | backend/jobs/domain/job.go:193-212 | the loop computes the documented delay for every base and attempt count exactly for caps up to 2^62 |
| JobRepository.Repository.Enqueue | backend/jobs/internal/db_memory/repository.go:41-82 | a job with the given fields is created exactly when the tenant has no unfinished job with its key; otherwise such a job is returned and nothing changes |
| JobRepository.Repository.Candidates | backend/jobs/internal/db_memory/repository.go:92-107 | exactly the claimable jobs of the lane, each once |
| JobRepository.PrefixIsPick | backend/jobs/internal/db_memory/repository.go:108-111 | a prefix of the sorted candidates is the earliest of them, as many as the batch holds |
| JobRepository.Repository.Pick | backend/jobs/internal/db_memory/repository.go:92-111 | the earliest claimable jobs of the lane that fit the batch, each once and in order of run time |
| JobRepository.Repository.LeaseAll | backend/jobs/internal/db_memory/repository.go:113-130 | exactly the picked jobs are leased with one more attempt; all others stay as they are |
| JobRepository.Repository.ClaimBatch | backend/jobs/internal/db_memory/repository.go:84-131 | claims a fitting number of the earliest claimable jobs of the lane, each once, returns them in order of run time and leaves the rest alone |
| JobRepository.Repository.Heartbeat | backend/jobs/internal/db_memory/repository.go:133-148 | extends the lease exactly for the holder of a live lease; otherwise nothing changes |
| JobRepository.Repository.Complete | backend/jobs/internal/db_memory/repository.go:150-171 | succeeds exactly for the holder of a live lease, and then only that job changes |
| JobRepository.Repository.Fail | backend/jobs/internal/db_memory/repository.go:173-202 | takes effect exactly for the holder of a live lease: the error is stored, and a retry goes back to the queue with the run time of the outcome |
| JobRepository.Repository.Cancel | backend/jobs/internal/db_memory/repository.go:204-224 | ends every job that is not terminal, and none that is |
| JobRuns.RunKeepsInv | backend/jobs/ports/repository.go:60-65 | in every reachable store a tenant's key names at most one unfinished job, and leases exist exactly while running |
| JobRuns.RunKeepsJob | backend/jobs/ports/repository.go:27-29 | jobs never vanish or change identity, attempts never shrink, and a terminal job never changes again |
| JobRuns.LeaseExcludesOthers | backend/jobs/ports/repository.go:67-85 | while every heartbeat of the holder comes by the current expiry, only those heartbeats touch the job: no claim, heartbeat or report of anybody else does, in any interleaving |
| JobRuns.NotRenewedIsUntouched | backend/jobs/ports/repository.go:67-79 | without a heartbeat the leased job stays exactly as it is |
| JobRuns.NoLeaseNoEffect | backend/jobs/ports/repository.go:67-85 | a report or heartbeat without a live lease, too late or of another worker, changes nothing |
| JobRuns.FailureIsStored | backend/jobs/internal/db_memory/repository.go:173-202 | a failure report that takes effect stores its error, and its run time exactly when it asks for a retry |
| JobRuns.QueuedWaits | backend/jobs/ports/repository.go:67-76 | as long as a job stays queued no claim with a clock before its run time picks it |
| JobRuns.ClaimTakesOnlyFreeJobsOfItsLane | backend/jobs/ports/repository.go:67-76 | a claimed job was of the lane and due, or its lease had run out |
| JobRuns.CompletedAtMostOnce | backend/jobs/ports/repository.go:81-82 | at most one completion of a job takes effect in a whole run |
| JobRuns.QueuedClaimsWithinBudget | backend/jobs/ports/repository.go:46-55 | with retries only below the budget, a job is claimed from the queue at most as often as attempts are left |
| JobRuns.NewJobClaimedWithinBudget | backend/jobs/ports/repository.go:46-76 | so a new job is claimed from the queue at most MaxAttempts times, however many leases are lost |
| JobRunner.RunnersMakeRuns | backend/jobs/internal/usecases/runner.go:161-248 | whatever runners do is a run of the repository, so all that holds of runs holds of them |
| JobRunner.RunKeepsWorldOk | backend/jobs/internal/usecases/runner.go:161-248 | in every world reached from an unused queue each attempt was started once, by one worker, and a lease belongs to the execution of the stored attempt |
| JobRunner.RequeueSpendsAttempt | backend/jobs/internal/usecases/runner.go:237-248 | a job returns to the queue only by a report that uses up a running attempt below the budget |
| JobRunner.OutcomeIsBackoff | backend/jobs/internal/usecases/runner.go:237-246 | a retry exactly below the budget, after the documented delay for the attempt |
| JobRunner.RequeuedWaitsOutBackoff | backend/jobs/internal/usecases/runner.go:237-248 | in any run a job put back on the queue is not claimed before now plus the documented delay |
| JobRunner.RunnersClaimWithinBudget | backend/jobs/internal/usecases/runner.go:233-248 | the bound of MaxAttempts holds although runners decide by outdated attempts |
| JobRunner.EffectiveReportIsCurrentExactly | backend/jobs/internal/usecases/runner.go:233-248 | a report that takes effect carries the stored attempt exactly when its worker has not claimed the job again since |
| JobRunner.ReportFollowsGuardExactly | backend/jobs/internal/usecases/runner.go:237-248 | in every reachable world a step follows the documented guard exactly unless it reports for an execution below the budget whose worker has since begun an attempt that uses the budget up |
| JobRunner.RunFollowsGuardExactly | backend/jobs/internal/usecases/runner.go:233-248 | a whole run of runners follows the documented guard exactly when it holds no such report |
| JobRunner.ClaimsApartFollowGuard | backend/jobs/internal/usecases/runner.go:233-248 | runs in which no worker claims a job that it still executes follow the documented guard throughout |
| JobRunner.StaleReportRequeuesSpentJob | backend/jobs/internal/usecases/runner.go:237-248 | one worker's steps after which a job with all attempts used is on the queue |
| CircuitBreaker.Effective | backend/shared/resilience/circuitbreaker.go:51-63 | the settings in force are usable whatever was given; which they are, the constructor says |
| CircuitBreaker.CircuitBreaker.constructor | backend/shared/resilience/circuitbreaker.go:51-86 | a new breaker is closed, with counters at zero, and each given setting that is usable is in force; 0.5, 15 s and 5 stand in for others |
| CircuitBreaker.CircuitBreaker.SetStateTo | backend/shared/resilience/circuitbreaker.go:169-175 | counters and expiry are set anew exactly when the state changes |
| CircuitBreaker.CircuitBreaker.CurrentState | backend/shared/resilience/circuitbreaker.go:162-167 | open turns half-open strictly after its expiry |
| CircuitBreaker.CircuitBreaker.BeforeRequest | backend/shared/resilience/circuitbreaker.go:120-131 | a request is admitted exactly when the state at its time is not open |
| CircuitBreaker.CircuitBreaker.AfterRequest | backend/shared/resilience/circuitbreaker.go:133-160 | one completion is one step of the breaker, which the theorems about runs use |
| CircuitBreaker.CircuitBreaker.BeginRequest | backend/shared/resilience/circuitbreaker.go:106-118 | a fresh completion hook exactly when admitted |
| CircuitBreaker.Completion.Complete | backend/shared/resilience/circuitbreaker.go:114-117 | only the first call of a hook counts |
| CircuitBreaker.CircuitBreaker.Execute | backend/shared/resilience/circuitbreaker.go:88-104 | an admitted operation is counted once, a panic as a failure; a rejected one is not run or counted |
| BreakerRuns.CountersMatch | backend/shared/resilience/circuitbreaker.go:133-175 | in every run the counters equal the completions and failures since the last state change, modulo 2^32 |
| BreakerRuns.EveryStateRests | backend/shared/resilience/circuitbreaker.go:145-159 | half-open rests at zero, and closed never at or above the threshold with enough requests |
| BreakerRuns.ClosedMeansBelowThreshold | backend/shared/resilience/circuitbreaker.go:145-152 | with fewer than 2^32 completions, closed means too few of them or a real failure rate below the threshold |
| BreakerRuns.OpensExactlyAtThreshold | backend/shared/resilience/circuitbreaker.go:145-152 | a closed breaker opens exactly at a completion with which enough of them and a rate at the threshold are reached |
| BreakerRuns.OpensAtGivenThreshold | backend/shared/resilience/circuitbreaker.go:51-63 | a breaker built from usable settings opens exactly at the threshold and count that were given |
| BreakerRuns.RequestsCountOnce | backend/shared/resilience/circuitbreaker.go:106-118 | completions that count are as many as the admitted requests that completed, each once |
| BreakerRuns.OpenUntilExpiry | backend/shared/resilience/circuitbreaker.go:120-167 | up to its expiry an open breaker stays open under any begins and late completions and admits nothing |
| BreakerRuns.OpenedRejectsThroughCooldown | backend/shared/resilience/circuitbreaker.go:120-175 | opened at t it rejects up to and including t plus cooldown, and admits the first request after that |
| BreakerRuns.RejectsThroughGivenCooldown | backend/shared/resilience/circuitbreaker.go:51-63 | and it rejects up to and including the end of the cooldown that was given |
| BreakerRuns.HalfOpenAdmits | backend/shared/resilience/circuitbreaker.go:120-131 | a half-open breaker admits every request that begins and stays as it is |
| BreakerRuns.FirstCompletionDecides | backend/shared/resilience/circuitbreaker.go:153-167 | after the cooldown any number of requests are admitted, and the first completion of all that counts decides: its success closes the breaker at zero, its failure opens it for another cooldown |
| GoQuote.QuoteDelimited | backend/oauth2/domain/resource_access_limit.go:63 | quoted strings that begin equal texts are equal, whatever characters they contain |
| AccessLimit.UnitsKeyMeansUnitSet | backend/oauth2/domain/resource_access_limit.go:80-88 | two limits have one key exactly when they name the same set of units |
| AccessLimit.CellKeyMeansCell | backend/oauth2/domain/resource_access_limit.go:112-116 | the remembered text stands for the set of units and the window |
| AccessLimit.CheckUnits | backend/oauth2/domain/resource_access_limit.go:102-111 | accepts exactly known units without repetition |
| AccessLimit.ValidateLimits | backend/oauth2/domain/resource_access_limit.go:90-119 | accepts exactly the lists of at most 8 limits in range of which no two share units and window |
| AccessLimit.NotAfterIsStrict | backend/oauth2/domain/resource_access_limit.go:70-78 | on valid limits the comparison is strict and total |
| AccessLimit.OrderedLimitsIgnoresDeclaration | backend/oauth2/domain/resource_access_limit.go:68-78 | the result is a sorted permutation and the same for every declaration order |
| AccessLimit.NarrowestIsCountedFirst | backend/oauth2/domain/resource_access_limit.go:68-78 | limits of more units come first, of as many units those of shorter windows, and within one window the order is that of the sorted unit names |
| Strings.LeqIsLexicographic | backend/oauth2/domain/resource_access_limit.go:70-88 | the first difference of two texts decides, and a prefix comes first |
| AccessLimit.Bucket | backend/oauth2/domain/resource_access_limit.go:46-66 | a bucket exactly when agent, user and resource have a value wherever the limit names them |
| AccessLimit.BucketShowsValues | backend/oauth2/domain/resource_access_limit.go:46-66 | the window, then agent, user and resource in this order, each named one with its quoted value; nothing if such a value is missing |
| AccessLimit.BucketUnambiguous | backend/oauth2/domain/resource_access_limit.go:44-66 | two buckets are the same text exactly when window, units and the values of the units are the same |
| ToolReport.ParseReportedTools | backend/oauth2/domain/mcp_tool_report.go:45-62 | accepts all tools or none: exactly lists within the limits with unique names |
| ToolReport.CheckTool | backend/oauth2/domain/mcp_tool_report.go:64-79 | accepts exactly tools whose name, texts and arguments are within their limits, with no colon or hash in the name |
| ToolReport.Fingerprint | backend/oauth2/domain/mcp_tool_report_changes.go:36-48 | the canonical form that is encoded and hashed |
| ToolReport.CanonMeansSameDefinition | backend/oauth2/domain/mcp_tool_report_changes.go:38-41 | two tools have one form exactly when they differ at most in the order of arguments |
| ToolReport.CanonicalMeansSameTools | backend/oauth2/domain/mcp_tool_report_changes.go:34-48 | canonical forms are equal exactly when the tools are the same up to order |
| ToolReport.IndexByName | backend/oauth2/domain/mcp_tool_report_changes.go:58-61 | the previous tools by name, of one name the last |
| ToolReport.FindDifferentFields | backend/oauth2/domain/mcp_tool_report_changes.go:87-99 | the fields that differ, in order, arguments compared as a multiset |
| ToolReport.Compare | backend/oauth2/domain/mcp_tool_report_changes.go:62-76 | additions only against a complete list, and every change of definition, in report order |
| ToolReport.FindChanges | backend/oauth2/domain/mcp_tool_report_changes.go:52-85 | the three lists of changes, additions and removals only from complete lists |
| ToolReport.AddedAndRemovedExactly | backend/oauth2/domain/mcp_tool_report_changes.go:52-83 | added are exactly the names only of the report, removed exactly those only of the list before, if the other list is complete |
| ToolReport.AddedAndRemovedInOrder | backend/oauth2/domain/mcp_tool_report_changes.go:62-83 | each new and each gone tool has one entry, in the order of the list that holds it |
| ToolReport.ModifiedInOrder | backend/oauth2/domain/mcp_tool_report_changes.go:58-76 | each tool that the last tool of its name before defines otherwise has one entry that describes it, in the order of the report |
| ToolReport.ModifiedDescribesBoth | backend/oauth2/domain/mcp_tool_report_changes.go:18-24 | every entry holds the definition before and exactly the fields that differ from the one now, arguments compared without order |
| ToolReport.DifferenceIsModified | backend/oauth2/domain/mcp_tool_report_changes.go:73-75 | every tool of both lists whose definition differs has an entry |
| ToolReport.ChangesAgreeWithFingerprint | backend/oauth2/domain/mcp_tool_report_changes.go:34-85 | between complete lists with unique names nothing changed exactly when the fingerprints agree |
| AccessRules.RememberedMeansClash | backend/oauth2/domain/resource_access.go:94-119 | the two maps answer exactly whether an earlier rule clashes, whichever kind comes first |
| AccessRules.CheckTarget | backend/oauth2/domain/resource_access.go:97-118 | accepts exactly valid names and tools without a remembered clash |
| AccessRules.CheckName | backend/oauth2/domain/resource_access.go:149-151 | accepts exactly a small letter followed by small letters, digits and underscores, 64 at most |
| AccessRules.CheckTool | backend/oauth2/domain/resource_tool.go:21-35 | accepts exactly tools with id, name and display name within the limits, and the target argument or relation that its resource type asks for |
| AccessRules.CheckCondition | backend/oauth2/domain/resource_access_condition.go:76-92 | accepts exactly conditions that say something, compile, and name a type exactly if they ask for approval |
| AccessRules.CheckExchange | backend/oauth2/domain/resource_access.go:154-170 | accepts exactly at most eight https URLs, and none for rules that ask for approval |
| AccessRules.CheckConstraints | backend/oauth2/domain/resource_access.go:120-144 | accepts exactly valid approval, condition, limits, exchange and scopes |
| AccessRules.ValidateAccessRules | backend/oauth2/domain/resource_access.go:90-147 | accepts exactly the lists meeting the order-free meaning: at most 100 rules, each valid alone, no two clashing |
| AccessRules.AcceptanceIgnoresOrder | backend/oauth2/domain/resource_access.go:90-147 | acceptance is the same for every permutation |
| AccessRules.RuleForIsTheOnlyOne | backend/oauth2/domain/resource_access.go:80-88 | the rule found is the only one with its target, and no tool shares that target |
| AccessRules.ToolRuleForIsTheOnlyOne | backend/oauth2/domain/resource_tool.go:41-48 | the rule found is the only one for the tool name |
| AccessRules.LookupsIgnoreOrder | backend/oauth2/domain/resource_access.go:80-88 | both lookups give the same result for every permutation of an accepted list |
| DelegationMode.ActChainDelegates | backend/oauth2/domain/delegation_mode.go:91-110 | true exactly when a chain of at most 64 nodes ends at one that names another actor, or a chain of 65 nodes exists |
| DelegationMode.ActorChainParticipants | backend/oauth2/domain/delegation_mode.go:58-89 | listed are exactly the subject and whoever the last node of a chain of at most 64 nodes names, in the order that the lemmas describe |
| DelegationMode.ActorMeansChain | backend/oauth2/domain/delegation_mode.go:58-110 | someone acts at a depth exactly when the chain of that many nodes ends at one that names them |
| DelegationMode.DeriveDelegationMode | backend/oauth2/domain/delegation_mode.go:40-51 | on behalf of exactly in those cases; otherwise autonomous exactly for agents and subjects that are absent or the client |
| DelegationMode.ParticipantsInOrder | backend/oauth2/domain/delegation_mode.go:58-66 | participants stand in the order of their first levels, the subject last |
| DelegationMode.ParticipantsDistinct | backend/oauth2/domain/delegation_mode.go:65-89 | nobody is listed twice, and at most 65 are listed |
| DelegationMode.ParticipantsHold | backend/oauth2/domain/delegation_mode.go:58-89 | listed are exactly the named actors of 64 levels and the subject |
| DelegationMode.OthersParticipate | backend/oauth2/domain/delegation_mode.go:68-110 | the participants name someone besides the subject exactly when another actor is named within 64 levels |
| DelegationMode.SubjectAlone | backend/oauth2/domain/delegation_mode.go:68-89 | without another actor the participants are just the non-empty subject |
| DelegationMode.DescribeDelegation | backend/oauth2/domain/delegation_mode.go:40-110 | mode and participants of one token agree on every chain, cyclic ones included |
| DelegationMode.SelfCycleDelegates | backend/oauth2/domain/delegation_mode.go:53-56 | a cycle of the subject itself counts as delegation and lists nobody else |
| ClaimRelease.ReservedHoweverWritten | backend/claimmapping/domain/floor.go:33-37 | case and surrounding white space do not hide a reserved claim type |
| ClaimRelease.BuiltinDefsDecideFirst | backend/claimmapping/domain/floor.go:43-53 | definitions of a tenant, which come last, never change the release of a key that is built in |
| ClaimRelease.BlankIsAllSpace | backend/claimmapping/domain/claims.go:117-134 | a value counts as empty exactly when it consists of white space alone |
| ClaimRelease.NonEmpty | backend/claimmapping/domain/claims.go:117-125 | the loop keeps the values that the next lemma describes |
| ClaimRelease.NonBlankInOrder | backend/claimmapping/domain/claims.go:117-125 | what is kept is every value that is not blank, and no other, in order |
| ClaimRelease.ResolveRule | backend/claimmapping/domain/claims.go:98-115 | the values that ClaimFloor ties to the source of the rule, or the refusal of a rule without a key |
| ClaimRelease.IssueRules | backend/claimmapping/domain/claims.go:43-62 | the claims of all rules in order, or the first refusal |
| ClaimRelease.IssueClaims | backend/claimmapping/domain/claims.go:32-64 | NameID and claims, or the first refusal and nothing else |
| ClaimRelease.IssueClaimsWithFloor | backend/claimmapping/domain/floor.go:85-104 | the value that all lemmas of ClaimRelease and ClaimFloor are about |
| ClaimRelease.NonInterference | backend/claimmapping/domain/floor.go:85-104 | users who agree on every releasable key get the same claims or the same refusal |
| ClaimRelease.RevealedExactlyAboveFloor | backend/claimmapping/domain/floor.go:39-53 | some policy tells values of a key apart exactly when the key may be released and is not blank |
| ClaimRelease.IssuedAboveFloor | backend/claimmapping/domain/floor.go:85-104 | claims follow the rules one by one, none has a reserved type or no value, and every value is fixed by the rule or held by a releasable attribute |
| ClaimRelease.IssuedExactlyWhenRulesResolve | backend/claimmapping/domain/floor.go:85-104 | claims are issued exactly when the NameID has a value above the floor and every rule can be followed |
| ClaimFloor.ReleasableExactlyUnlessWithheld | backend/claimmapping/domain/floor.go:39-53 | a key may be released exactly when it is a field of every user or its first definition is not private |
| ClaimFloor.ReservedExactlyForProtocolClaims | backend/claimmapping/domain/floor.go:25-37 | reserved are exactly the fourteen protocol claims, however written |
| ClaimFloor.WithheldIsInvisible | backend/claimmapping/domain/floor.go:85-104 | users who differ only in a key that is undefined or first defined as private get the same claims or the same refusal |
| ClaimFloor.NamingWithheldIsRefused | backend/claimmapping/domain/floor.go:64-104 | a policy that names such a key as NameID source or in a rule issues nothing |
| ClaimFloor.FloorRefusalsAreDeserved | backend/claimmapping/domain/floor.go:64-104 | no other key is ever refused as not releasable |
| ClaimFloor.NamedValuesAreIssued | backend/claimmapping/domain/floor.go:85-104 | every value that is not white space of an attribute that a rule names is in a claim of that type |
| ClaimFloor.ClaimsAreTheirSources | backend/claimmapping/domain/claims.go:43-115 | one claim for each rule with a value, in order, with exactly the values of its attribute that are not white space, its fixed value, or the NameID |
| ClaimFloor.NameIdIsFirstValue | backend/claimmapping/domain/claims.go:39-43 | the NameID is the first value of its source that is not white space, in the format of the policy |
| Assignments.Store.Save | backend/application/internal/db_memory/applications.go:304-315 | storing again keeps the time of creation, unless that is the zero time, and leaves all other rows alone |
| Assignments.Store.ListBySubject | backend/application/internal/db_memory/applications.go:283-302 | exactly the rows of the subject, in any order |
| Assignments.Store.FindDirectAssignment | backend/application/usecases/desired_state_assignments.go:99-110 | the row of user and application, whatever the order of the listing |
| Assignments.Store.AssignApplication | backend/application/usecases/assignments.go:50-103 | each refusal exactly in its case and order, with nothing changed; else the row of the trimmed subject, "visible" for no visibility, one event, and a notice exactly for users |
| Assignments.Store.UnassignApplication | backend/application/usecases/assignments.go:105-119 | row gone, one event, and a notice exactly for users, whether or not there was a row |
| Assignments.Store.AssignApplicationDesiredState | backend/application/usecases/desired_state_assignments.go:21-75 | each refusal exactly in its case and order; false and no change exactly when the row is as wanted; else the row with its first time of creation, one event, and a notice exactly if it is new |
| Assignments.Store.UnassignApplicationDesiredState | backend/application/usecases/desired_state_assignments.go:77-97 | true exactly when the row was there; then it is gone, with one event and one notice, and else nothing changes |
| Assignments.Store.DeleteByApplication | backend/application/internal/db_memory/applications.go:324-333 | exactly the rows of the application are removed, and the others kept as they are |
| Assignments.Store.DeleteApplication | backend/application/usecases/applications.go:150-167 | an existing application goes with its rows and one event; a missing one changes nothing |
| AssignmentRuns.EventsRebuildRows | backend/application/usecases/assignments.go:50-119 | after any run of all operations, one call after another, replaying the events gives exactly the stored assignments |
| AssignmentRuns.StepInStep | backend/application/usecases/desired_state_assignments.go:21-97 | a call keeps notices and rows in step exactly when it announces each change and only changes |
| AssignmentRuns.RunInStepExactly | backend/application/usecases/assignments.go:97-117 | notices alternate and agree with the stored rows throughout a run exactly when no call of it disturbs them |
| AssignmentRuns.RepeatsItsNotice | backend/application/usecases/assignments.go:92-117 | the calls that repeat what provisioning was told last are exactly assignments of stored or orphaned users and withdrawals of users who are neither |
| AssignmentRuns.RunAlternatesExactly | backend/application/usecases/assignments.go:92-117 | added and removed alternate strictly for every user in a run of any operations exactly when no call of it is one of these |
| AssignmentRuns.AssigningTwiceBreaksAlternation | backend/application/usecases/assignments.go:92-101 | a run of two assignments sends added twice |
| AssignmentRuns.DeletingDisturbsOnlyAgreement | backend/application/usecases/applications.go:150-167 | a run in which notices still alternate although a deletion has broken their agreement with the rows |
| AssignmentRuns.DesiredRunsAlternate | backend/application/usecases/desired_state_assignments.go:69-97 | in runs of the desired-state operations, one call after another, added and removed alternate strictly for every application and user |
| AssignmentRuns.DesiredRunsLeaveGroups | backend/application/usecases/desired_state_assignments.go:11-14 | such runs never touch group rows |
| AssignmentRuns.DesiredIsIdempotent | backend/application/usecases/desired_state_assignments.go:11-14 | a second call with the same input changes nothing and sends nothing |
| AssignmentRuns.UnassignUndoesAssign | backend/application/usecases/desired_state_assignments.go:77-97 | withdrawing a new assignment restores the rows |
| AssignmentRuns.CreationIsKept | backend/application/internal/db_memory/applications.go:304-315 | a row keeps its time of creation, if it has one, for as long as it is stored |
| AssignmentRuns.TenantsAreApart | backend/application/usecases/desired_state_assignments.go:21-23 | calls for other tenants leave the rows of a tenant as they are |
| AssignmentOverlaps.PartsMakeTheCall | backend/application/usecases/desired_state_assignments.go:23-97 | lookup, change, event and notice of any of the five operations, with nothing in between, are the call as a whole |
| AssignmentOverlaps.StepsMakeTheCall | backend/application/usecases/desired_state_assignments.go:23-97 | the steps of one call with nothing in between leave what the call as a whole leaves, next to any other calls in progress |
| AssignmentOverlaps.EmitKeepsLogExactly | backend/application/usecases/desired_state_assignments.go:63-69 | an event keeps log and rows in agreement, on keys of which nothing is left to emit, exactly when the rows are still as its call left them |
| AssignmentOverlaps.OthersKeepLog | backend/application/usecases/assignments.go:92-101 | no other step of any call disturbs that agreement |
| AssignmentOverlaps.OverlapRunKeepsLogExactly | backend/application/usecases/assignments.go:92-119 | however calls overlap, log and rows agree throughout exactly when no event is late |
| AssignmentOverlaps.SeparateCallsKeepLog | backend/application/usecases/assignments.go:50-119 | calls for one subject or its application that do not overlap, two deletions apart, keep the agreement, whatever other calls come in between, and once no call is in progress the log replays to exactly the stored assignments |
| AssignmentOverlaps.LateEventBreaksLog | backend/application/usecases/desired_state_assignments.go:63-97 | a run of two overlapping calls that leaves no row, a log that replays to one, and removed before added |
| OverlapNotices.InStepMeans | backend/application/usecases/assignments.go:99-117 | notices and rows are in step exactly when the notices alternate and each user was last told of as stored |
| OverlapNotices.StepAlternatesExactly | backend/application/usecases/desired_state_assignments.go:70-73 | a step of overlapping calls keeps the notices alternating exactly unless it repeats what its user was told last |
| OverlapNotices.OverlapRunAlternatesExactly | backend/application/usecases/assignments.go:92-119 | however calls overlap, added and removed alternate strictly for every user exactly when no notice repeats what its user was told last |
| OverlapNotices.StepInformsExactly | backend/application/usecases/desired_state_assignments.go:63-73 | a step keeps settled users told of as stored exactly unless its notice is not true of the row any more or it changes a row's presence without one |
| OverlapNotices.OverlapRunInStepExactly | backend/application/usecases/assignments.go:92-119 | however calls overlap, notices alternate and agree with the rows throughout exactly when no step does either |
| OverlapNotices.SeparateCallsAlternate | backend/application/usecases/desired_state_assignments.go:23-97 | desired-state calls that do not overlap for the same user keep the notices alternating and in agreement with the rows, whatever other calls come in between |
| OverlapNotices.OverlapBreaksAlternation | backend/application/usecases/desired_state_assignments.go:47-73 | a run of two overlapping calls sends added twice |

## Left out

- CsvWriter.PolicyWriter.Write: outputs whose own writes fail are not modelled, because the source only hands their errors on.
- CsvLimits.CopyCsvWithinPolicy: outputs and inputs that fail are not modelled, for the same reason.
- CsvReader.CsvReader.Next: inputs that fail with an error other than the end of the data are not modelled, for the same reason.
- CsvRoundTrip.RoundTripExactly: the largest byte limit is set apart in NothingReadsBackAtMaxInt.
- CsvGrammar.ReadRecordOfWritten: positions in the syntax errors of `encoding/csv` are left out; the source reports only its own line count.
- JobRepository.Repository.Enqueue: the new id is required to be fresh, which stands for a random UUID; zero times are replaced by the caller's clock before the call.
- JobRuns.QueuedClaimsWithinBudget: re-claims after a lost lease are not bounded, because the source does not bound them.
- JobRunner.RunnersMakeRuns: handlers, heartbeat timers, metrics, quota and shutdown of the runner are left out; any worker may enqueue, claim, heartbeat and cancel at any time, and an execution may end without a report.
- CircuitBreaker.CircuitBreaker.AfterRequest: the failure rate is compared over real numbers; rounding and a threshold that is not a number are not modelled.
- CircuitBreaker.CircuitBreaker.Execute: begin and end are one call here, and requests in between are covered by runs of separate begins and completions; an operation that ends its goroutine without a panic is not modelled.
- CircuitBreaker.CircuitBreaker.constructor: metrics and the breaker's name are left out.
- AccessLimit.Bucket: which code points print as themselves is a parameter.
- AccessRules.ValidateAccessRules: which of the error messages is returned is left out; the other fields of the resource server are validated elsewhere.
- ToolReport.ParseReportedTools: the JSON array is given as read, or as unreadable.
- ToolReport.Fingerprint: encoding and hash are left out; strings are valid UTF-8, as JSON reading yields them.
- ClaimRelease.IssueClaimsWithFloor: the text around a refusal's reason is left out, and so is the resolution of a user into attributes.
- Assignments.Store.AssignApplicationDesiredState: the method is one atomic step, and AssignmentOverlaps takes it apart into lookup, change, event and notice; repositories do not fail, and keys are tuples where the in-memory adapter joins them by NUL.
- AssignmentRuns.DesiredRunsAlternate: calls come one after another here; overlapping ones are the subject of OverlapNotices.
- AssignmentOverlaps.SeparateCallsKeepLog: agreement of log and rows is not promised for calls that overlap for one subject, because the source does not keep it; the several reads of one lookup are one step, as are the two deletions of DeleteApplication.
- Assignments.Store.DeleteApplication: sign-in policy, icons, quota and the protocol row of the application are left out.
- PostgreSQL adapters, HTTP handlers and wiring: input, output and assembly.
- Condition evaluation, page listings, portal listing and orderings: single passes that decide nothing the theorems are about.
- Record transition tables of approvals, device codes and authorization codes: finite tables that would only add easy members.
