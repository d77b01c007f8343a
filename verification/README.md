# ReadSync in Dafny

A model of the parts of ReadSync that decide what a reader's progress is: how
evidence about a book is matched (`resolver/`), how an event becomes a row of
the log, of the canonical table and of the outbox (`store/`), how outbox jobs
are executed (`outbox/`), how uploads are archived and scoped (`webdav/`), how
the KOReader endpoints read and write the store (`adapters/`), and how the Moon+
`.po` format is read and rewritten (`moon/`).

`dafny verify dfyconfig.toml` checks the whole project.

## Shape

Code that changes tables, files or arrays step by step is a method on a class or
an array, proved equal to a function on values; the theorems are about those
functions and about runs of them. What each answer is, in the fields of rows and
requests, is stated apart from those functions: in the methods' contracts and in
the lemmas named `...Exact`, `...Iff` and in `store/CommitLaws.dfy`.

- `resolver/Matching.dfy` characterises the greedy window scan as the one stable
  pairing of two texts; `resolver/Jaro.dfy` holds the array algorithm and the
  similarity's laws; `resolver/Normalize.dfy` the text normalisation;
  `resolver/Resolver.dfy` the scoring ladder.
- `store/Tables.dfy` holds the rows and the class `Database`; `store/Pipeline.dfy`
  the transaction, statement by statement, any of which may fail;
  `store/Identity.dfy`, `store/Log.dfy` and `store/Replay.dfy` what it keeps,
  `store/CommitLaws.dfy` what one event does.
- `outbox/System.dfy` is the whole store as a state machine: pipeline
  transactions, workers, the admin API, the passing of time and user pins, in
  any order. `outbox/StoreSafety.dfy` and `outbox/OutboxSafety.dfy` hold what is
  true in every state of every run, `outbox/RunProgress.dfy` how far a run can
  move a canonical row, `outbox/ManualRetry.dfy` what manual retries can do.
  `outbox/Execution.dfy` performs each action of the machine by the method that
  models its operation.
- `webdav/Archive.dfy` interleaves any number of archive calls, each a sequence
  of steps that may fail, on a disk of files and directories;
  `webdav/ArchiveRetry.dfy` says when a retry can succeed;
  `webdav/VersionedFs.dfy` is the file that captures an
  upload, and the names it may have; `webdav/SafePaths.dfy` the archive's
  directories; `webdav/Paths.dfy` slash-separated names.

## Assumptions

- A transaction is atomic: there is one connection, and it takes the write lock
  when a transaction begins (internal/db/db.go:17, internal/db/db.go:43). Ids
  only grow (internal/db/migrations.go:73).
- Timestamps are integers, in nanoseconds; text comparison of stored times is
  their order. Calibre ids are canonical decimal text.
- Percentages are exact: reals, and decimals in the Moon+ format. Rounding of
  floating-point numbers is not modelled.
- The lower-case mapping and the letter and digit tables, the normalised bytes a
  comparison sees, SHA-256, and the directory of a (user, path) in the archive
  are arbitrary functions; each result holds for all of them.
- Nothing modelled sets the pin of a canonical row, so pinning is a step of the
  environment.
- `faults`, `fails` and similar parameters name the statements that fail.

## What the model found

- The guard against a stale identity never opens a conflict for a book found by
  a column: `low_confidence` needs an event that reached its book through an
  alias (`Identity.LowConfidenceNeedsAlias`). An alias alone scores 0, since the
  stored row is read back without alias keys, so a document known by its hash
  only is written back once, at its first push, and never again without a
  conflict (`KOReaderSync.LaterPushNotPropagated`, `Resolver.SameEvidenceAgain`).
- Resolution is stable for the evidence that created a book, but not for every
  evidence: `Identity.ResolutionStableIff` gives the exact condition.
- A manual retry leaves its job to one worker at a time, whatever follows, exactly
  when no worker holds the job and it is not blocked (`ManualRetry.RetrySafeIff`).
  A held job can come to a second worker (`ManualRetry.RetryRunsJobTwice`); a
  blocked one keeps its conflict, and resolving that requeues it while a worker
  executes it (`ManualRetry.BlockedRunsTwice`).
- The comment at internal/adapters/webdav/versioned_fs.go:209-211 expects a
  client to retry after a failed archive. A failure that leaves the numbered file
  behind blocks the path for good, and so does an upload whose path leads through
  the next version's name, as that of `b/1.bin` does for `b`
  (`ArchiveRetry.LeadsThrough`, `ArchiveRetry.UploadsLeadThrough`), or a version
  whose name is on the path's own way. `ArchiveRetry.CanRecordIff` says exactly
  when another version can still be recorded.
- Users are promised never to see each other's files
  (internal/adapters/webdav/versioned_fs.go:10-11), and the server accepts any
  username but the empty one (internal/adapters/webdav/webdav.go:243). Two users
  share files exactly when one user's directory lies in the other's
  (`VersionedFs.UsersMeetIff`), as those of `a` and `a/b` do
  (`VersionedFs.UsersShareFile`). The directory spells out the username exactly
  when no segment of it is empty, `.` or `..` (`VersionedFs.ScopeHoldsIff`).
- Different users and paths can share an archive directory:
  `SafePaths.UsersShareDirIff` and `SafePaths.ShareDirIff` say which, such as
  `a*b` and `a_b`. Of the uploads that share one, only those of one user and path
  are ever recorded (`Archive.OneSlotPerDirectory`).
- A write-back that changes nothing reproduces the file byte for byte exactly
  when its percentage is a canonical numeral of at most 100 (`MoonPo.GetPut`);
  the comment at internal/adapters/moon/writeback.go:75-81 has no such condition.
- The header of resolver.go gives one fuzzy threshold, 0.9; the code uses 0.92
  for the title and 0.88 for the author. The header of engine.go's rule 4 speaks
  of a drop of 15 points; the code tests for a confidence between 1 and 59. The
  model follows the code.

## Model

| member | source | states |
|---|---|---|
| `Matching.GreedyStable` | internal/resolver/resolver.go:237-255 | the scan pairs every admissible (i, j) it does not choose with an earlier partner of i or of j: the pairing is stable |
| `Matching.StableUnique` | internal/resolver/resolver.go:237-255 | two texts have one stable pairing, so the scan's result does not depend on its order |
| `Matching.GreedySymmetric` | internal/resolver/resolver.go:237-255 | scanning from t chooses exactly the pairs that scanning from s chooses |
| `Matching.GreedyMaximum` | internal/resolver/resolver.go:237-255 | no one-to-one pairing of equal characters within the window has more pairs |
| `Jaro.Match` | internal/resolver/resolver.go:232-255 | the loop over the two bool arrays computes the greedy pairing: its size and both flag arrays |
| `Jaro.CountTransposed` | internal/resolver/resolver.go:260-272 | the second scan never runs past the end of t and counts the positions where the two matched subsequences differ |
| `Jaro.GreedyBalanced` | internal/resolver/resolver.go:237-264 | both flag arrays hold exactly `matches` trues, and the matched subsequences are permutations of each other |
| `Jaro.Jaro` | internal/resolver/resolver.go:215-275 | 1 for equal texts, 0 without matches, otherwise the mean of m over either length and 1 - tr/(2m), for m matches, tr of them out of order |
| `Jaro.JaroExact` | internal/resolver/resolver.go:215-275 | the same of the value all laws are about |
| `Jaro.MatchDistIs` | internal/resolver/resolver.go:223-230 | the window is half the longer length less one, and 0 below 4 |
| `Jaro.MismatchesAre` | internal/resolver/resolver.go:260-272 | transpositions are the number of ranks at which the matched characters differ |
| `Jaro.SelectIs` | internal/resolver/resolver.go:260-272 | the k-th flagged character is the k-th matched one |
| `Jaro.CountIs` | internal/resolver/resolver.go:232-255 | the count of an array's flags is the number of positions flagged |
| `Jaro.FullMatchValue` | internal/resolver/resolver.go:215-275 | when all n characters find a partner, h out of place, the value is 1 - h/(6n) |
| `Jaro.MarthaMarhta` | internal/resolver/resolver.go:215-275 | martha and marhta score 17/18 |
| `Jaro.JaroWinkler` | internal/resolver/resolver.go:190-213 | the loop and branches return the value `JaroWinklerExact` spells out |
| `Jaro.JaroWinklerExact` | internal/resolver/resolver.go:190-213 | from 0.7 on a tenth of the distance to 1 is added for each of at most four common first characters |
| `Jaro.PrefixLength` | internal/resolver/resolver.go:195-210 | the loop finds the longest common prefix up to the cap |
| `Jaro.CountsSymmetric` | internal/resolver/resolver.go:237-272 | matches and transpositions do not depend on the order of the arguments |
| `Jaro.JaroSymmetric` | internal/resolver/resolver.go:215-275 | jaro(s, t) = jaro(t, s) |
| `Jaro.JaroWinklerSymmetric` | internal/resolver/resolver.go:190-213 | jaroWinkler(s, t) = jaroWinkler(t, s) |
| `Jaro.MatchesMaximum` | internal/resolver/resolver.go:223-255 | `matches` is the size of a largest pairing for the window derived from the lengths |
| `Jaro.TranspositionsBound` | internal/resolver/resolver.go:260-273 | transpositions are at most the matches, and never exactly 1 |
| `Jaro.PerfectMatch` | internal/resolver/resolver.go:237-274 | all characters matched in place means the texts are equal |
| `Jaro.JaroRange` | internal/resolver/resolver.go:215-275 | the value lies in [0, 1]; it is 1 exactly for equal texts, and 0 exactly when nothing matches |
| `Jaro.JaroWinklerRange` | internal/resolver/resolver.go:190-213 | the value lies between jaro and 1 and is 1 exactly for equal texts |
| `Normalize.NormalizeText` | internal/resolver/resolver.go:178-186 | the loop and the trim compute the normal form |
| `Normalize.NormalShape` | internal/resolver/resolver.go:178-186 | exactly letters, digits and inner blanks survive; the result is empty exactly without letters and digits |
| `Normalize.NormalIdempotent` | internal/resolver/resolver.go:178-186 | normal forms are fixed points |
| `Normalize.NormalForgets` | internal/resolver/resolver.go:177-186 | the case of a rune and punctuation anywhere make no difference |
| `Normalize.NormalKeeps` | internal/resolver/resolver.go:178-186 | text of letters, digits and inner blanks is only lower-cased, its order kept |
| `Normalize.NormalTrims` | internal/resolver/resolver.go:185 | outer blanks make no difference |
| `Resolver.ComputeScore` | internal/resolver/resolver.go:131-175 | the ladder loop and the fuzzy branches compute the score |
| `Resolver.ScoreExact` | internal/resolver/resolver.go:131-175 | which confidence and reason is given when: nine identifiers in order with their scores, then title and author at 0.92 and 0.88, then the title at 0.95 |
| `Resolver.QualityExact` | internal/resolver/resolver.go:98-125 | the creation quality by the first identifier given |
| `Resolver.BandsExact` | internal/resolver/resolver.go:68-88 | the bounds of each band, and write-back from 60 on |
| `Resolver.ScoreSymmetric` | internal/resolver/resolver.go:131-175 | evidence scores against a record as the record against the evidence |
| `Resolver.ScoreAtLeast` | internal/resolver/resolver.go:139-154 | an agreeing signal gives at least its ladder score |
| `Resolver.WritebackNeedsExact` | internal/resolver/resolver.go:84-88 | a score permits write-back exactly when some ladder signal agrees; no fuzzy match does |
| `Resolver.NoExactIsFuzzy` | internal/resolver/resolver.go:150-175 | without an agreeing signal the title and author alone decide |
| `Resolver.SameEvidenceAgain` | internal/resolver/resolver.go:98-125 | scored against the row it created, evidence scores its creation quality exactly when it has a column identifier, or neither alias nor title |
| `Pipeline.NormalizeEvent` | internal/core/pipeline_helpers.go:27-45 | percentages end in [0, 1] and types are set; an event already so is unchanged |
| `Pipeline.FindBookByEvidence` | internal/core/pipeline_helpers.go:74-128 | the lookup loop returns the book of the first signal that finds one |
| `Pipeline.ResolveBook` | internal/core/pipeline_helpers.go:47-72 | finds and scores, or creates; succeeds exactly when no statement it runs fails and no UNIQUE index refuses |
| `Pipeline.InsertBookAliases` | internal/core/pipeline_helpers.go:171-192 | INSERT OR IGNORE of both alias keys |
| `Pipeline.EnqueueJobs` | internal/core/pipeline_db.go:122-151 | one job per target, in order, blocked when a conflict is given |
| `Pipeline.WithoutNeverEchoes` | internal/core/pipeline_db.go:108-120 | the targets are all others than the originator |
| `Pipeline.RecordEvent` | internal/core/pipeline.go:103-163 | log row, jump check, conflict, canonical row and jobs as one function of the tables |
| `Pipeline.Process` | internal/core/pipeline.go:86-163 | the transaction does all of its commit or nothing, and commits exactly for a valid event of which no statement fails |
| `CommitLaws.EventLogged` | internal/core/pipeline_db.go:16-34 | every field of the log row of a committed event |
| `CommitLaws.ConflictOpenedIff` | internal/conflicts/engine.go:55-115 | when a committed event opens a conflict: five rules with their thresholds and exemptions, in order, and the reason and events recorded |
| `CommitLaws.RowReplacedIff` | internal/core/pipeline_db.go:88-106 | every field of the canonical row after a committed event, and when it stays |
| `CommitLaws.RestartAccepted` | internal/conflicts/engine.go:60-71 | an event that abandons or restarts a book, of the same format and trusted identity, always moves an unpinned row |
| `CommitLaws.JobsMade` | internal/core/pipeline_db.go:122-151 | which jobs a committed event makes, field by field: blocked on its conflict, queued from confidence 60 on, else none |
| `CommitLaws.TargetsExact` | internal/core/pipeline_db.go:108-120 | the readers written back to, in order, for each originator |
| `CommitLaws.FoundIff` | internal/core/pipeline_helpers.go:74-128 | the book found is the one that the first identifier, in the order of lookups, names; none is found exactly when none names one |
| `CommitLaws.ResolvedExact` | internal/core/pipeline_helpers.go:47-72 | confidence and book of an event, and every cell of a row made for it |
| `CommitLaws.RefusedIff` | internal/db/migrations.go:51-60 | a new row is refused exactly for a clash in one of five columns |
| `CommitLaws.StagesExact` | internal/core/pipeline.go:86-163 | which statements a transaction issues |
| `Identity.LookupExact` | internal/core/pipeline_helpers.go:74-128 | a LIMIT 1 lookup returns b exactly when b is the one book with that key |
| `Identity.CreateNeverRefused` | internal/core/pipeline_helpers.go:145-192 | when no book was found no UNIQUE index refuses the new row and no alias is ignored |
| `Identity.ResolveKeepsIdentity` | internal/core/pipeline_helpers.go:47-72 | all seven columns, isbn10 and epub_id included, and both alias namespaces stay injective, and rows are only added |
| `Identity.CommitKeepsIdentity` | internal/core/pipeline.go:86-163 | so they do over a whole transaction |
| `Identity.CommitNamesCreated` | internal/core/pipeline_helpers.go:145-192 | after new evidence is committed each of its signals names the new book |
| `Identity.CreatorResolvesForever` | internal/core/pipeline_helpers.go:47-128 | evidence that created a book resolves to it in every extension of the store |
| `Identity.ResolutionStableIff` | internal/core/pipeline_helpers.go:74-128 | evidence keeps its book under every sequence of events exactly when the book carries the first signal of the evidence |
| `Identity.UnclaimedSignalDiverts` | internal/core/pipeline_helpers.go:74-128 | otherwise one event takes the evidence to a new book |
| `Identity.ColumnConfidence` | internal/core/pipeline_helpers.go:47-72 | a book found through a column has at least the column's score, 75 or more, and permits write-back |
| `Identity.LowConfidenceNeedsAlias` | internal/conflicts/engine.go:95-102 | a low_confidence conflict comes from an event that found its book by an alias |
| `Identity.AliasOnlyScoresZero` | internal/core/pipeline_helpers.go:130-143 | evidence of aliases alone finds its book with confidence 0 |
| `Log.EnqueueExact` | internal/core/pipeline_db.go:122-151 | the outbox after enqueueing: old jobs unchanged, one new job per target under the next ids |
| `Log.CommitKeepsLog` | internal/core/pipeline.go:86-163 | events are numbered, canonical rows repeat an event of their book, a conflict sets an earlier event of its book against a later one, jobs name events and conflicts of their own book |
| `Log.PinnedRowKept` | internal/core/pipeline.go:115-150 | one transaction changes no pinned row; `RunProgress.RunKeepsPinned` says so of runs |
| `Log.CanonicalAfter` | internal/core/pipeline.go:103-150 | a committed event appends one log row, and either replaces its book's canonical row or, exactly on a jump, opens one conflict and leaves the row alone |
| `Replay.CommitReplays` | internal/core/pipeline.go:86-163 | a transaction keeps canonical rows and conflicts equal to the replay of the log |
| `Replay.ReplayByBook` | internal/core/pipeline.go:108-150 | the replay of the whole log, read at one book, is the replay of that book's own log |
| `Replay.RejectionsExact` | internal/core/pipeline_db.go:76-86 | the rejections are the suspicious events of the log, each once and in order |
| `Replay.TablesReplay` | internal/core/pipeline_db.go:36-106 | in a state that replays, conflict rows correspond one-to-one with rejected events and each canonical row is its book's replay |
| `Replay.DriftBound` | internal/conflicts/engine.go:60-71 | replaying a log with k accepted events, none abandoned or not started, lowers the percentage by at most 0.10 k; `RunProgress.RunContinuesReplay` ties the replay to the table, `RunProgress.RunDrift` bounds the table itself |
| `RunProgress.NextCanonical` | internal/core/pipeline.go:108-150 | one action of any party appends at most one event, and leaves the position of a canonical row or replaces it by a new event of its book that is not suspicious against it |
| `RunProgress.RunDrift` | internal/core/pipeline.go:115-150 | over any run, pins, workers, the admin API and manual retries included, the canonical percentage of a book falls by at most 0.10 for each time its position moves, when the events that move it report progress and neither abandon nor restart it |
| `RunProgress.RunKeepsLocatorType` | internal/conflicts/engine.go:103-112 | over any run the locator type of a canonical row is constant while it and the events that move the row are not raw |
| `RunProgress.RunKeepsTotal` | internal/conflicts/engine.go:85-93 | over any run a known and positive page total is constant while the events that move the row report one |
| `RunProgress.RunKeepsPinned` | internal/core/pipeline.go:115-150 | over any run in which nobody unpins it a pinned row stays exactly as it is |
| `RunProgress.RunContinuesReplay` | internal/core/pipeline.go:86-163 | over a pin-free run a canonical row moves as the new events of its book replay from it |
| `Replay.FormatConstant` | internal/conflicts/engine.go:84-112 | the same constancy of locator type and page total for a replayed log |
| `StoreSafety.RunKeepsStore` | internal/core/pipeline_helpers.go:47-192 | identity and log invariants hold in every reachable state, manual retries and pins included |
| `StoreSafety.NeverRefused` | internal/db/migrations.go:51-69 | in a reachable state no UNIQUE index refuses a book |
| `StoreSafety.RunReplays` | internal/core/pipeline.go:86-163 | in every state of a pin-free run the canonical row of each book is the replay of its log, and conflicts are the rejected events |
| `StoreSafety.RunExtends` | internal/core/pipeline_helpers.go:145-192 | books and aliases are only added, over any run |
| `StoreSafety.CreatorResolvesInEveryRun` | internal/core/pipeline_helpers.go:47-162 | evidence that created a book resolves to it after every later run of the whole system |
| `Backoff.NextRetry` | internal/outbox/worker.go:82-100 | the nominal delay, and a fifth of it times a number in [-1, 1) that the draw decides, its fraction dropped |
| `Backoff.NominalShape` | internal/outbox/worker.go:82-95 | 5 * 2^(n-1) s up to attempt 11, the cap of 7200 s exactly from attempt 12, never shrinking |
| `Backoff.JitterBound` | internal/outbox/worker.go:95-100 | jitter is within a fifth of the delay for every draw |
| `Backoff.JitterExact` | internal/outbox/worker.go:98 | its value for each draw |
| `Backoff.RetryAtLeast` | internal/outbox/worker.go:82-100 | retry n comes no earlier than 0.8 and no later than 1.2 times its nominal delay |
| `Outbox.ClaimJob` | internal/outbox/worker.go:144-179 | the job claimed is for this reader, queued or retrying, and due, no older one is all three; it is set running |
| `Outbox.ProcessOne` | internal/outbox/worker.go:65-79 | every field of the one job that changes, for each outcome |
| `Outbox.ResolveConflict` | internal/api/conflicts_outbox.go:12-42 | every answer; the winner is the event asked for, nothing else of the conflict but its status changes, and its jobs are queued; canonical is untouched |
| `Outbox.DismissConflict` | internal/api/conflicts_outbox.go:44-58 | every answer; only the status of the conflict changes, its jobs stay blocked |
| `Outbox.RetryOutbox` | internal/api/conflicts_outbox.go:60-79 | every answer; a job in any state is queued with no attempts, its conflict kept |
| `OutboxLaws.RunHoldsTarget` | internal/outbox/worker.go:144-179 | over any run, manual retries included, a worker only holds jobs of the reader it claimed for |
| `OutboxLaws.ClaimTakesTarget` | internal/outbox/worker.go:152-159 | a claim gives a worker a due job of its reader, or none |
| `OutboxLaws.DecisionStands` | internal/api/conflicts_outbox.go:21-34 | the winner asked for stands over any run in which the conflict is not resolved again |
| `OutboxSafety.RunKeeps` | internal/outbox/worker.go:65-200 | the outbox invariant holds in every state of every run without manual retry, failed claims and lost updates included |
| `OutboxSafety.OutboxPromises` | internal/outbox/worker.go:144-200 | at most 10 executions of a job, at most one worker on it, attempts by status, dead letters at exactly 10 attempts and at least 2044 s after the first failure, blocked exactly with a conflict of the same book |
| `OutboxSafety.EndedForever` | internal/outbox/worker.go:144-200 | a succeeded, dead or deleted job is never executed or changed again |
| `OutboxSafety.ResolvedForever` | internal/api/conflicts_outbox.go:25-41 | from any state of such a run, whatever came between the two statements of resolveConflict(c): once the second has run no job is ever blocked on c again |
| `OutboxSafety.NextDrains` | internal/outbox/worker.go:144-200 | without new jobs every action that changes the outbox lowers a measure over all jobs |
| `OutboxSafety.DrainsInBoundedSteps` | internal/outbox/worker.go:144-200 | such runs change the outbox at most 22 times per job ever made |
| `ManualRetry.RunKeepsExclusive` | internal/api/conflicts_outbox.go:60-79 | in runs whose manual retries all meet jobs that are gone, or neither held nor blocked, at most one worker ever holds a job |
| `ManualRetry.RunExclusive` | internal/outbox/worker.go:144-200 | every state reached without manual retry is one these results begin from |
| `ManualRetry.RetrySafeIff` | internal/api/conflicts_outbox.go:60-79 | over all that can follow a manual retry but further ones, at most one worker holds the job at a time exactly when it is gone, or neither held nor blocked |
| `ManualRetry.BlockedRunsTwice` | internal/api/conflicts_outbox.go:38-79 | a blocked job that is retried can be executed by two workers at once, by resolving its conflict while one executes it |
| `ManualRetry.RetryRunsJobTwice` | internal/api/conflicts_outbox.go:60-79 | retrying a held job lets the next claim that meets no older ready job execute it beside the first worker |
| `Execution.Perform` | internal/outbox/worker.go:65-200 | every action of the state machine changes the database as the operation it stands for does: transaction, claim, final updates, the admin API's statements, enqueue, dead-letter clearing |
| `Archive.Archiver.ProbeVersion` | internal/adapters/webdav/archive.go:46-52 | the greatest version of the slot plus one |
| `Archive.Archiver.ArchiveUpload` | internal/adapters/webdav/archive.go:31-117 | answer, directories, file, manifest, table and notification of one call for every user, path and set of failing operations; no file that was there changes |
| `ArchiveRetry.UploadedIff` | internal/adapters/webdav/archive.go:40-117 | when a call succeeds, and the version, size, hash, place, file, manifest, row and notification it then leaves |
| `ArchiveRetry.FailedLeaves` | internal/adapters/webdav/archive.go:60-99 | exactly what a failed call leaves: no row, and a file or manifest only past the step that failed |
| `Archive.Archiver.LatestVersion` | internal/adapters/webdav/archive.go:139-171 | the row of greatest version, nothing for an unknown user, an error exactly when a query fails |
| `Archive.SoloCall` | internal/adapters/webdav/archive.go:40-105 | the interleaved steps, run without interruption, do to the store what the one call does |
| `Archive.RunKeeps` | internal/adapters/webdav/archive.go:31-117 | under every interleaving, with failures and colliding directories: versions of a slot are 1..n, rows describe their files, no two rows share one |
| `Archive.RunPromises` | internal/adapters/webdav/archive.go:46-99 | a pending insertion never violates the UNIQUE key, size and hash are those of the file, and LatestVersion returns the upload recorded last |
| `Archive.RecordedForever` | internal/adapters/webdav/archive.go:60-99 | the row and the bytes of a recorded upload never change |
| `Archive.RunDescribes` | internal/adapters/webdav/archive.go:77-134 | under every interleaving each row has a manifest that says what it says, and the observers were told of recorded uploads only, each at most once |
| `Archive.OneSlotPerDirectory` | internal/adapters/webdav/archive.go:54-64 | of the users and paths that share a directory at most one ever has a recorded upload |
| `Archive.LatestIsLast` | internal/adapters/webdav/archive.go:136-171 | the greatest version is the last inserted row of the slot, none exactly for an empty slot |
| `ArchiveRetry.NamesDistinct` | internal/adapters/webdav/archive.go:60-86 | files and manifests of different versions have different names, and no file the name of a manifest |
| `ArchiveRetry.RunAll` | internal/adapters/webdav/archive.go:54-99 | under every interleaving, however directories lead through each other, no name is a file and a directory, and each file's directory is there |
| `ArchiveRetry.CanRecordIff` | internal/adapters/webdav/archive.go:54-99 | some continuation records another version exactly when no file that stays is on the way to the directory, no directory has the name of the next file or manifest, and that file is absent, or a live call can still record or remove it |
| `ArchiveRetry.LeadsThrough` | internal/adapters/webdav/archive.go:54-61 | a recorded upload whose directory leads through the name of another path's version, or of its manifest, keeps that version from ever being recorded |
| `ArchiveRetry.UploadsLeadThrough` | internal/adapters/webdav/archive.go:54-61 | every path has such uploads below it, those named as its versions are |
| `SafePaths.DirBelow` | internal/adapters/webdav/archive.go:54-55 | an upload to a clear name below a path goes to that name below the path's directory |
| `SafePaths.SafeName` | internal/adapters/webdav/archive.go:173-182 | the replacement loop, with the substitute for an empty name |
| `SafePaths.SafeRelPath` | internal/adapters/webdav/archive.go:184-191 | every segment sanitised in place, rejoined |
| `SafePaths.SafeIsClear` | internal/adapters/webdav/archive.go:173-182 | a sanitised name is never empty and holds no unsafe text; exactly the names that are so already stay unchanged |
| `SafePaths.ClearExact` | internal/adapters/webdav/archive.go:173-182 | the unsafe texts: `..` and eight characters |
| `SafePaths.ReplaceFirstOccurrence` | internal/adapters/webdav/archive.go:175-177 | each occurrence, from left to right, becomes one underscore |
| `SafePaths.ArchiveStaysBelow` | internal/adapters/webdav/archive.go:54-58 | for every username and path the directory lies below raw, and no segment steps back |
| `SafePaths.ShareDirIff` | internal/adapters/webdav/archive.go:54-55 | uploads of users with one-segment names share a directory exactly when the names, and the named segments of the paths, are equal once sanitised |
| `SafePaths.UsersShareDirIff` | internal/adapters/webdav/archive.go:54-55 | for all users: some of their uploads share a directory exactly when one user's sanitised segments begin the other's |
| `SafePaths.SanitisedCollides` | internal/adapters/webdav/archive.go:173-191 | a user and a path share their directory with their sanitised forms |
| `VersionedFs.CapturingFile.Write` | internal/adapters/webdav/versioned_fs.go:194-206 | inner content, buffer and flags after a complete, short or failing write |
| `VersionedFs.CapturingFile.Close` | internal/adapters/webdav/versioned_fs.go:212-243 | the buffer is archived at the first close of a written file without error, never reported as a failure |
| `VersionedFs.ArchivedOnce` | internal/adapters/webdav/versioned_fs.go:186-243 | over any sequence of writes, seeks and closes: at most one archive call, never after a write error, with exactly the accepted bytes |
| `VersionedFs.InnerContent` | internal/adapters/webdav/versioned_fs.go:194-206 | without seeks the inner file is its old content with the accepted bytes written in one go |
| `VersionedFs.OverwriteAt` | internal/adapters/webdav/versioned_fs.go:194-206 | what a write leaves of the inner file, byte by byte |
| `VersionedFs.ArchiveIsContentIff` | internal/adapters/webdav/versioned_fs.go:190-243 | without seeks before the close the archived bytes are the file's content exactly when it was opened at its start and no older byte outlived the writes |
| `VersionedFs.SeekDiffers` | internal/adapters/webdav/versioned_fs.go:190-206 | with a seek between two writes the archive holds both and the file the second only |
| `VersionedFs.ScopedBelowRoot` | internal/adapters/webdav/versioned_fs.go:38-46 | whatever the name, its path is the user's directory followed by the cleaned name |
| `Paths.CleanRules` | internal/adapters/webdav/versioned_fs.go:43-44 | cleaning drops empty and `.` segments, lets `..` take back the segment before it, and stops at the root |
| `Paths.TrimSlashesExact` | internal/adapters/webdav/archive.go:35 | trimming drops slashes at both ends and nothing else |
| `VersionedFs.ScopeHoldsIff` | internal/adapters/webdav/versioned_fs.go:38-46 | the user's names all lie below /u and the segments of the username exactly when these are ordinary |
| `VersionedFs.UsersMeetIff` | internal/adapters/webdav/versioned_fs.go:10-46 | two users reach a common file exactly when one user's directory lies in the other's |
| `VersionedFs.UsersShareFile` | internal/adapters/webdav/versioned_fs.go:10-46 | users such as a and a/b reach common files, against the promise of lines 10-11 |
| `VersionedFs.UsersDisjoint` | internal/adapters/webdav/versioned_fs.go:36-46 | two users with ordinary one-segment names never reach the same file; `VersionedFs.UsersMeetIff` treats all names |
| `VersionedFs.EnsureParent` | internal/adapters/webdav/versioned_fs.go:150-173 | makes exactly the missing parents, top down, and stops at the first that cannot be made |
| `MoonPo.ScanIff` | internal/adapters/moon/parser.go:59-60 | the grammar is unambiguous: the scan finds fields exactly when the text has them |
| `MoonPo.ParseIff` | internal/adapters/moon/parser.go:66-109 | exactly the files with the suffix, the grammar's form and a percentage of at most 100.5 are read |
| `MoonPo.ParsedExact` | internal/adapters/moon/parser.go:81-130 | every field of a result: fraction, key, position, time |
| `MoonPo.TrimExact` | internal/adapters/moon/parser.go:82 | trimming drops white space at both ends and nothing else |
| `MoonPo.EventExact` | internal/adapters/moon/parser.go:133-153 | every field of a result's event |
| `MoonPo.WriteFailsIff` | internal/adapters/moon/writeback.go:86-100 | when a write is refused |
| `MoonPo.LastColonIsDelimiter` | internal/adapters/moon/writeback.go:97-101 | the last colon of a matching text is the percentage's, and what precedes it are the other fields |
| `MoonPo.PutGet` | internal/adapters/moon/writeback.go:86-104 | reparsing a written file gives the written percentage, the same key, and the same text up to the last colon |
| `MoonPo.PutPut` | internal/adapters/moon/writeback.go:86-104 | the second of two writes wins, byte for byte |
| `MoonPo.GetPut` | internal/adapters/moon/writeback.go:86-104 | writing back the parsed percentage keeps its value, and reproduces the text exactly when the numeral is canonical and at most 100 |
| `MoonPo.ParsedEventAccepted` | internal/adapters/moon/parser.go:133-153 | the pipeline accepts every parsed file's event, and normalisation leaves it unchanged |
| `Decimals.FormatParseIff` | internal/adapters/moon/writeback.go:102-103 | a numeral is reproduced exactly when it has no superfluous zero |
| `Decimals.FormatValue` | internal/adapters/moon/writeback.go:102-103 | printing and reading a decimal keeps its value |
| `Decimals.DigitsExact` | internal/adapters/moon/parser.go:93 | the value of each digit and of one digit more |
| `Decimals.PlacesExact` | internal/adapters/moon/parser.go:93 | a numeral's value: its digits, a tenth for each place after the point |
| `KOReaderSync.Adapter.HandlePush` | internal/adapters/koreader/handlers.go:68-127 | which answer is given when; a 400 or 412 changes nothing, an accepted push is one whole transaction |
| `KOReaderSync.Adapter.HandlePull` | internal/adapters/koreader/handlers.go:130-162 | which answer is given when, and every field of the response: locator, percentage and time of the document's row, device of the user seen last |
| `KOReaderSync.Adapter.PushThenPull` | internal/adapters/koreader/handlers.go:68-162 | a pull after an accepted push answers the pushed locator and clamped percentage, or the row as it was when the push was contested or the row pinned |
| `KOReaderSync.PushedEvent` | internal/adapters/koreader/translate.go:62-87 | the event of a push has the document hash as its only evidence |
| `KOReaderSync.Adapter.LastDeviceForBook` | internal/adapters/koreader/handlers.go:195-202 | a device of the user that was seen last, nothing for a user without devices |
| `KOReaderSync.PullFindsPushedBook` | internal/adapters/koreader/handlers.go:165-182 | in a reachable store the join finds exactly the book a push of the document resolves to |
| `KOReaderSync.PushConfidence` | internal/adapters/koreader/translate.go:62-87 | a document's first push has confidence 70, every later one 0 |
| `KOReaderSync.PushJumpIff` | internal/conflicts/engine.go:55-115 | a push opens a conflict exactly when it goes back by more than 0.10 or changes a non-raw locator type of an unpinned row |
| `KOReaderSync.ReadYourWrites` | internal/adapters/koreader/handlers.go:68-182 | after a committed push a pull finds a row with every field as pushed, or, when the push was contested or the row pinned, the row as it was |
| `KOReaderSync.ReadYourWritesAmidOthers` | internal/adapters/koreader/handlers.go:68-182 | the same with any actions of others between the stale check and the transaction, and a row is found after any later run |
| `KOReaderSync.PullStaysFound` | internal/adapters/koreader/handlers.go:165-182 | once a pull finds a row it finds one of the same book after every later run |
| `KOReaderSync.LaterPushNotPropagated` | internal/core/pipeline.go:150-162 | an uncontested push makes jobs for other readers exactly when it is the first of its document |

## Left out

- Rounding of 64-bit floats: similarities and percentages are exact.
- The Unicode tables of lower-casing and of letters and digits, and the UTF-8 encoding between normalisation and comparison.
- HTTP, JSON, sessions, passwords, rate limits, TLS, CSRF and the WebDAV wire protocol.
- SQL text, driver errors as values, the text format of timestamps, and columns no decision reads.
- Resolver.ComputeScore: the normalisation it applies is an arbitrary function here; `Normalize` treats the source's own.
- KOReaderSync.Adapter.HandlePush: runs the stale check and the transaction without another event between them; `KOReaderSync.ReadYourWritesAmidOthers` allows any, and a request that times out with its event still queued is a later transaction there.
- Archive.Archiver.ArchiveUpload: the received time, in row and manifest, is not modelled; a manifest names its user by id.
- ArchiveRetry.CanRecordIff: does not model a full disk that never recovers, nor files that other programs put on the disk.
- VersionedFs.CapturingFile.Write: reads of the inner file are not modelled, nor a close that races with a write.
- SafePaths.ArchiveStaysBelow: paths are segments between slashes; the separators of Windows are covered only as characters the names lose.
- Moon+ payloads are text of ASCII case; the registry that says which writers are verified is a constant table.
- Jobs left running after a crash and orphaned archive files are never recovered by the code, so only safety is stated for them.
- `Precedence` and `ChooseWinner` of the conflict engine: nothing calls them.
- Calibre and Goodreads adapters, setup, repair actions other than clearing dead letters, diagnostics, secrets, tray and user interface: thin logic around external tools.
