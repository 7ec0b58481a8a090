# cronn, verified

A Dafny model of the parts of cronn that decide what a user sees and what survives a crash: how the dashboard tracks
runs while events, crontab syncs and page requests interleave; how the scheduler keeps a command from running twice
and picks up interrupted commands after a restart; how the job table follows the crontab; how a crontab line and a
structured schedule are read; and two small algorithms, the bounded output capture and the business-day search.
Check it with `dafny verify dfyconfig.toml` (Dafny 4.11).

## How it is built

**Run tracking.** `Protocol` is a state machine: scheduler goroutines offer start and finish events to a bounded
channel that drops what does not fit; one consumer takes an event through up to three atomic steps (record the row,
prune old rows, update the memory under the lock); syncs and toggles run in between. Its invariant ties queue,
memory and table to the history of accepted, handled and recorded events. `Readers` places the two reads of a page
request at any two positions of such a run. `Dashboard.Server` and `Persistence.Store` are the classes as written,
fields changed in place; `Dashboard.HandlingIsSteps` shows that handling an event is a fragment of the protocol.
`RunBoard` says what one event does, `Executions` what retention keeps.

**Job table.** `JobTable.Synced` describes a sync without its loop: which jobs there are and what each entry's first
and last crontab lines give it. The loop over the entries with its shrinking set of old jobs is proved to refine it.
`Restart` and `Saves` follow the table across a restart, overlapping saves included, `Ordering`, `Filters` and
`JobList` onto the page.

**Scheduler.** `RunMachine` runs any number of calls of runJobWithCommand, each at its own point, with every early
return, a crash at any moment and the restart after it. `RunMachine` proves the deduplication theorem, `CrashSafety`
the crash theorem. `Scheduling.Scheduler`, `Deduplication.DeDup` and `ResumeFiles.Resumer` are the classes, and
`Scheduling.RunIsSteps` shows that a run is a fragment of the machine. `RunEvents` joins the two machines: what a run
sends to the dashboard are steps that the run tracking protocol takes.

**Crontab text.** The line format is that of the crontab utility in POSIX.1-2017 (INPUT FILES section), with the
program's own extensions: @-descriptors, step values and weekday 7. `FieldValidator` states a grammar of fields and
proves that the validator decides it; `CrontabRoundTrips` proves what parsing and printing undo.

## Where the obvious claim is false

- A sync that drops a running job and later brings it back leaves a run in progress of a job shown as not running:
  `RunBoard.DroppedAndReaddedWhileRunning`. `Protocol.FlagsFollowRunsIff` says over whole executions that such syncs
  are the only cause.
- A row saved while its job ran is loaded with the running status but not running, so the tab counts no longer add
  up: `JobList.SavedWhileRunningIsNotCounted`, with the exact conditions in `Restart.StatusesAgreeAfterLoadIff` and
  `Filters.CountsAddUpIff`.
- A failed write of a run's row is only logged, and once the run is no longer in progress it is in neither read:
  `Readers.FailedWriteLosesTheRun`. `Readers.InspectorShowsEveryRunIff` and `Readers.LiveOutputGoneIff` say exactly
  when a started run is shown and when it is gone, without a retention limit; with one, `Readers.LostRunIsNotShown`
  and `Readers.LostRunIsGone` still hold.
- Two saves that overlap can leave the older copy in the table: `Saves.OverlappingSavesRestoreOlder`, with what the
  table holds in `Saves.TableHoldsLastWritten`.
- An event of a command that is not in the table adds a job at position 0, so two jobs can share that position until
  the next sync: `JobList.NewJobsShareAPosition`, with the exact condition in `JobList.EventKeepsPositionsIff`.
- A '#' behind a tab is not cut as a comment, but becomes one in the normalised line, so parsing again cuts it:
  `CrontabRoundTrips.TabbedHashIsNotKept`, with the exact condition in `CrontabRoundTrips.ParseAgainIff`.
- The validator trims list items and the printer does not: `CrontabRoundTrips.SpacedListIsNotKept`, with the exact
  condition in `CrontabRoundTrips.PrintThenParseIff`.
- The end-of-day date can be after the business date when a moment is not in the parser's zone:
  `BusinessDays.DayParser.EndedDayCanBeLater`, with the exact condition in `BusinessDays.DayParser.DatesCompare`.
- The comment on `New` in app/resumer/resumer.go:28 says that the enabled switch affects List only; the code checks it
  in OnStart and OnFinish as well, and the model follows the code.

## Assumptions

- Starts of one job's runs differ at microsecond grain, across restarts too, and job ids do not collide.
- The rows of the jobs table were written by this program: each is stored under the id of its own command.
- Clock readings that name resume files are later than those before the last restart.
- Rows of the executions table are ordered by the instant they started.
- A critical section, a transaction and a channel operation are one atomic step each.

## Model

| member | source | states |
|---|---|---|
| `Domain.MicroIsFloor` | app/web/jobs.go:280 | a start is filed under the microsecond it falls in: a thousand nanoseconds, before the epoch too |
| `Domain.ZeroTimeIsYearOne` | app/web/jobs.go:351 | the zero time lies 1969 years and their leap days before the epoch |
| `Executions.SelectionIsNewest` | app/web/persistence/sqlite.go:288-294 | with distinct starts, any answer of the ordered, limited query is as a set exactly the rows with fewer than n newer ones, however ties are broken |
| `Executions.NewestOfPart` | app/web/persistence/sqlite.go:392-401 | rows that are not among the n newest can be missing without changing which rows are |
| `Executions.NewestSize` | app/web/persistence/sqlite.go:288-294 | the n newest rows of a job are n, or all it has |
| `Executions.NewestAreNewest` | app/web/persistence/sqlite.go:288-294 | no row left out of them started after one that is in |
| `Executions.InsertRetains` | app/web/jobs.go:314-324 | recording a new run keeps the n newest rows ever recorded of every job in the table |
| `Executions.PruneRetains` | app/web/persistence/sqlite.go:384-408 | one cleanup leaves the job with exactly the n newest rows it ever had, and every other job's rows untouched |
| `Executions.StreamKeepsNewest` | app/web/jobs.go:308-332 | after any sequence of record-then-cleanup a job that finished a run has exactly its n newest rows of all ever present, and a job that finished none has kept all of its rows |
| `Executions.StreamKeepsLatest` | app/web/jobs.go:308-332 | said of the rows themselves: as many are left as the limit or as there ever were, and none that is gone started after one that is left |
| `JobTable.SyncIsUnique` | app/web/jobs.go:120-165 | the declarative sync determines the table: no two tables satisfy it |
| `JobTable.SyncKeepsRunState` | app/web/jobs.go:138-145 | identity, switch, last run, status, exit code, duration, running flag and creation time of a surviving job do not change |
| `JobTable.SyncListsIff` | app/web/jobs.go:127-165 | after a sync the table holds exactly the commands that some entry gives a schedule that parses |
| `JobTable.SyncPlaces` | app/web/jobs.go:127-160 | name, schedule, next run and position are those of the command's last entry with a schedule that parses; a new job has that entry's command, is idle, enabled and never run, and was made at its first such entry |
| `JobTable.SyncFollowsCrontab` | app/web/jobs.go:110-171 | whatever the two tables held before, syncs with one crontab agree on the jobs and on their names, schedules and positions |
| `JobTable.SyncKeepsIdentified` | app/web/jobs.go:128-150 | a sync keeps every job under the id of its own command |
| `JobTable.SyncMakesPositionsDistinct` | app/web/jobs.go:143-157 | after a sync no two jobs have the same position, even with repeated commands and entries that do not parse |
| `RunBoard.ApplyTracks` | app/web/jobs.go:275-291 | an event puts its own run in progress, as it describes it, or takes it out, and changes no other run |
| `RunBoard.ApplySettles` | app/web/jobs.go:240-304 | after any event the job is running, and has the running status, exactly when it has runs in progress; when the last one ends it is success after a completed event and failed after a failed one, with that run's exit code and duration; an enabled job gets its next run |
| `RunBoard.ApplyMakesJob` | app/web/jobs.go:255-273 | the entry made for an unknown command, field by field |
| `RunBoard.ApplyLeavesOthers` | app/web/jobs.go:252-304 | no event touches another job's entry or runs |
| `RunBoard.ApplyKeepsConsistent` | app/web/jobs.go:238-305 | a running job has a run in progress and the running status, and no job keeps an empty set of runs, before and after every event; agreement of status and flag is kept too |
| `RunBoard.ApplyKeepsHistory` | app/web/jobs.go:283-302 | late or out-of-order starts never move the last run back; a finish leaves it; switch, creation time, name, schedule and position survive every event |
| `RunBoard.ApplyKeepsFlags` | app/web/jobs.go:275-296 | when every job is shown running exactly while it has runs in progress, every event keeps it so |
| `RunBoard.ToggledKeeps` | app/web/handlers.go:423-425 | a toggle turns the switch over, whatever the job is doing, and changes nothing else but the update time |
| `RunBoard.SyncKeepsConsistent` | app/web/jobs.go:120-166 | a sync, which never looks at the runs in progress, keeps the same invariant |
| `RunBoard.SyncKeepsFlagsIff` | app/web/jobs.go:147-165 | a sync keeps 'running iff runs in progress' exactly when it brings back no job that was dropped while running |
| `RunBoard.DroppedAndReaddedWhileRunning` | app/web/jobs.go:147-165 | the failing case: dropped and put back while running, a job has a run in progress and is not shown running |
| `Protocol.NextKeepsInv` | app/web/jobs.go:194-305 | every atomic step of goroutines, consumer, sync and toggle keeps the protocol's invariant |
| `Protocol.ReachableInv` | app/web/jobs.go:28-56 | in every interleaving the channel loses and reorders nothing it accepted, rows follow retention, and each finish taken is recorded before the memory forgets the run |
| `Protocol.ActiveIsExact` | app/web/jobs.go:275-291 | at every reachable state the runs in progress are exactly those whose start was handled and whose finish was not |
| `Protocol.QuiescentActive` | app/web/jobs.go:28-32 | with the channel drained, an ended run is still in progress exactly when its start was accepted and its finish dropped, and the recorded finishes are the accepted ones, once each, in order |
| `Protocol.LastRunNeverDecreases` | app/web/jobs.go:283-285 | while a job's entry exists its last run never decreases, over whole runs |
| `Protocol.StatusesAgreeThroughout` | app/web/jobs.go:276-296 | started without a loaded running status, status and running flag agree in every reachable state |
| `Protocol.NextKeepsFlagsIff` | app/web/jobs.go:120-166 | a step keeps 'running iff runs in progress' exactly unless it is a sync that brings back a job dropped while running |
| `Protocol.FlagsFollowRunsIff` | app/web/jobs.go:147-165 | over whole executions: it holds in all states up to the i-th exactly when no sync before that brought back such a job |
| `Protocol.RowsTellEvents` | app/web/jobs.go:240-324 | every row of a run this process started has the run, start, end, exit code and command of a recorded finish event, success exactly for a completed one and failed exactly for a failed one, and its output exactly when storing is on |
| `Protocol.HistoryGrows` | app/web/jobs.go:194-207 | what was handled, recorded or lost stays so over any stretch of a run |
| `Protocol.FinishedIsRecorded` | app/web/jobs.go:246-250 | a started run that is no longer in progress has been recorded, now and at any later state, unless its write failed |
| `Protocol.QueueIsBounded` | app/web/web.go:274 | at most 1000 events wait in any reachable state, and an event is dropped exactly when that many do |
| `Protocol.RetentionIsExact` | app/web/jobs.go:327-331 | over whole executions without a failed delete: outside a prune, a job with a recorded finish has as many rows as the limit or as it ever had, none older than one that is gone |
| `Readers.InspectorShows` | app/web/handlers.go:453-466 | for any two read positions, the inspector shows a run once if it was in progress at the first or is among the 50 newest rows at the second, and otherwise not at all |
| `Readers.InspectorListsNewest` | app/web/handlers.go:456 | history is the 50 newest rows of the job or all of them, newest first |
| `Readers.InspectorShowsEveryRun` | app/web/handlers.go:453-466 | a run whose start was handled before the first read appears exactly once, unless its write failed or 50 (or the retention limit of) newer rows exist |
| `Readers.InspectorShowsEveryRunIff` | app/web/handlers.go:453-466 | with no retention limit a started run is shown exactly once if and only if it is in progress at the first read, or its write did not fail and fewer than 50 recorded runs of the job are newer |
| `Readers.LostRunIsNotShown` | app/web/jobs.go:322-324 | a run whose write failed is not shown once it is no longer in progress, whatever the retention limit |
| `Readers.LiveOutputIsTheRun` | app/web/handlers.go:549-568 | the live output never answers with another run; 'gone' for a started run means it finished and its write failed or at least the retention limit of newer rows pruned it |
| `Readers.LiveOutputFinds` | app/web/handlers.go:549-568 | a started run of a known job is answered with its live view while in progress, and later, without a lost write or a limit, with its row |
| `Readers.LiveOutputNeverGone` | app/web/handlers.go:563-567 | with no failed write and no retention limit a started run is never reported gone |
| `Readers.LostRunIsGone` | app/web/handlers.go:557-567 | for a known job and a readable table, a run whose write failed is gone as soon as it is no longer in progress |
| `Readers.LiveOutputGoneIff` | app/web/handlers.go:549-568 | with no retention limit a started run is gone exactly when it had finished and its write failed |
| `Readers.OneRunExecutes` | app/web/jobs.go:194-207 | one run from start to handled finish, its write done or failed, is an execution of the protocol |
| `Readers.ReversedReadsLoseTheRun` | app/web/handlers.go:453-454 | with the two reads swapped there is an execution in which a started run, no write lost, is in neither read |
| `Readers.FailedWriteLosesTheRun` | app/web/jobs.go:322-324 | there is an execution with one failed write after which a started and finished run is in neither read of either page |
| `Persistence.Store.RecordExecution` | app/web/persistence/sqlite.go:263-280 | inserts exactly the given row under the next id, or changes nothing |
| `Persistence.Store.SelectNewest` | app/web/persistence/sqlite.go:288-294 | what it collects is a valid answer of the ordered, limited query |
| `Persistence.Store.GetExecutions` | app/web/persistence/sqlite.go:283-306 | a valid answer of the ordered, limited query, or an error |
| `Persistence.Store.GetExecutionByStart` | app/web/persistence/sqlite.go:333-381 | finds a row of exactly that job and start microsecond, and says not found only if there is none |
| `Persistence.Store.CleanupOldExecutions` | app/web/persistence/sqlite.go:384-408 | deletes exactly the job's rows that such a selection leaves out, or changes nothing |
| `Persistence.SavedRows` | app/web/persistence/sqlite.go:239-253 | a save writes each given job's row once with its place in the list, keeps every other row and deletes none |
| `Persistence.Store.SaveJobs` | app/web/persistence/sqlite.go:229-260 | all given rows in one transaction, or none |
| `Persistence.Store.LoadJobs` | app/web/persistence/sqlite.go:206-226 | every row once, in order of position |
| `Restart.SavedRow` | app/web/jobs.go:174-191 | every field of the row a save writes, and that it leaves the rows of other jobs |
| `Restart.LoadedEntry` | app/web/jobs.go:98-106 | every field of the entry a load makes of a row; only a next run that was never worked out is |
| `Restart.RestartRoundTrip` | app/web/jobs.go:88-191 | after save, load and sync the jobs are exactly those in the crontab, each with its history from the last save, else from an older row, else afresh; stale rows are dropped |
| `Restart.StatusesAgreeAfterLoadIff` | app/web/jobs.go:179-183 | after a load, status and flag agree exactly when nothing was saved with the running status |
| `Restart.LoadKeepsConsistent` | app/web/jobs.go:88-107 | a load keeps the memory's invariant: no row brings in a running flag, and every entry is under its own id |
| `Restart.SavedWhileRunning` | app/web/jobs.go:179-183 | the failing case: the one job saved while it runs is loaded with the running status and not running |
| `Saves.TableHoldsLastWritten` | app/web/jobs.go:174-191 | however saves overlap, a job's row is the copy of the save that was written last with the job in it, whenever that copy was taken; without one, the row is what it was |
| `Saves.RestartRestoresLastWritten` | app/web/jobs.go:88-191 | over whole executions: after a restart a job in the crontab has the history it had where that copy was taken, and is not running |
| `Saves.ApartSavesRestoreLatest` | app/web/jobs.go:174-191 | when saves do not overlap that is the latest copy of the job |
| `Saves.OverlappingSavesRestoreOlder` | app/web/jobs.go:186-190 | the failing case: two overlapping saves around a toggle, after which a restart brings the old switch back |
| `Saves.RestartIsInit` | app/web/jobs.go:88-107 | what a process leaves, its rows and its jobs saved and loaded, is a state the protocol may start from |
| `Dashboard.Server.Send` | app/web/jobs.go:28-32 | appends the event or, when 1000 are waiting, drops it; never blocks |
| `Dashboard.Server.RecordExecutionAndCleanup` | app/web/jobs.go:308-332 | the row of the event, without output when storing is off, then the prune when a limit is set; failures change nothing and stop nothing |
| `Dashboard.Server.TrackRun` | app/web/jobs.go:277-291 | the in-place changes to the runs in progress are those of the specification |
| `Dashboard.Server.JobAfter` | app/web/jobs.go:254-303 | the branches of the job's update give the entry that `RunBoard.ApplySettles`, `ApplyMakesJob` and `ApplyKeepsHistory` are about |
| `Dashboard.Server.UpdateMemory` | app/web/jobs.go:252-304 | the critical section takes the event into the memory |
| `Dashboard.Server.HandleJobEvent` | app/web/jobs.go:238-305 | table, next id and memory after one event are those of the protocol's steps |
| `Dashboard.Server.ProcessEvent` | app/web/jobs.go:194-207 | the next event off the channel is handled, and after a finish, and only then, all jobs are saved |
| `Dashboard.HandlingIsSteps` | app/web/jobs.go:194-305 | whatever the method may leave is reached by the protocol's consumer taking the event through its atomic steps |
| `Dashboard.Server.ActiveRuns` | app/web/jobs.go:217-226 | every run in progress of the job once, newest first |
| `Dashboard.Server.DropRecorded` | app/web/handlers.go:462-466 | removes exactly the runs whose start microsecond is in history |
| `Dashboard.Server.Inspect` | app/web/handlers.go:436-470 | the two reads and their merge, and the two error answers |
| `Dashboard.Server.LiveOutput` | app/web/handlers.go:537-569 | runs in progress first, then the row of that start; unknown job, unreadable table and gone are told apart |
| `Dashboard.Server.ApplySpecs` | app/web/jobs.go:121-160 | after the loop each job is as the crontab entries so far define it, and the jobs left to remove are the old ones not seen |
| `Dashboard.JobStep` | app/web/jobs.go:127-159 | one crontab entry extends the specification of its job and of no other |
| `Dashboard.Server.LoadJobsFromCrontab` | app/web/jobs.go:110-171 | the loop with its shrinking set of old jobs refines the declarative sync, and saves the result; a failing provider changes nothing |
| `Dashboard.Server.PersistJobs` | app/web/jobs.go:174-191 | a row for every job whatever order the map is walked in, running jobs with the running status |
| `Dashboard.Server.LoadJobsFromDB` | app/web/jobs.go:88-107 | every row becomes its job's entry, with a next run worked out where none was stored |
| `Dashboard.Server.ToggleJob` | app/web/handlers.go:416-428 | flips the switch of that job only and saves; nothing for an unknown job |
| `Ordering.LessIsStrictOrder` | app/web/jobs.go:345-391 | each comparator is a strict weak order that ties only jobs at the same position |
| `Ordering.SortedIsUnique` | app/web/jobs.go:345-391 | with distinct positions two sorted arrangements of the same jobs are equal |
| `Ordering.ZeroTimesLast` | app/web/jobs.go:350-383 | zero times come last in both time orders, the others newest or soonest first, ties by position |
| `Ordering.DefaultIsByPosition` | app/web/jobs.go:385-389 | in the default order positions never go down |
| `Ordering.SortJobs` | app/web/jobs.go:345-391 | sorts in place: sorted, and a permutation |
| `Filters.MatchingKeepsMatches` | app/web/jobs.go:400-419 | a tab lists each matching job as often as the input does, and no other |
| `Filters.FilterJobs` | app/web/jobs.go:395-420 | the loop gives the tab's jobs in the order given |
| `Filters.SearchJobs` | app/web/jobs.go:423-437 | the loop keeps, in order, the jobs whose command or name holds the term in lower case; an empty term keeps all |
| `Filters.SearchedIff` | app/web/jobs.go:423-437 | a search keeps exactly the jobs with the term somewhere in their lower-case command or name; an empty term keeps all |
| `Filters.SearchAndFilterCommute` | app/web/handlers.go:141-145 | searching then filtering gives the same list as filtering then searching |
| `Filters.CountJobs` | app/web/handlers.go:120-138 | every counter equals the length of the list its tab shows, and the failing list is the failed tab's |
| `Filters.CountsAddUpIff` | app/web/handlers.go:120-138 | the five tabs add up to the total exactly when no enabled job has the running status without running |
| `JobList.JobsWithStats` | app/web/handlers.go:108-148 | over one walk of the job map: counts of all jobs, failing jobs newest first, the searched and filtered list in the order asked for, and how many jobs an empty search result hides |
| `JobList.ListIsDeterministic` | app/web/handlers.go:107-148 | with distinct positions the searched, filtered and sorted list does not depend on the order the map was walked in |
| `JobList.PageShowsJob` | app/web/handlers.go:111-117 | a page shows every field as in the table, but for the next run of an enabled job, worked out anew |
| `JobList.SyncMakesPositionsFollow` | app/web/jobs.go:143-157 | after a sync every position is that of the command's last entry with a schedule that parses |
| `JobList.DefaultPageFollowsCrontab` | app/web/handlers.go:107-148 | after a sync, of two jobs on a default page the one shown first is the one whose last such entry comes earlier in the crontab |
| `JobList.TabsAfterEvent` | app/web/jobs.go:400-419 | after an event its job is on exactly one tab besides all jobs: running, success, failed or disabled, as its runs, the event and its switch say |
| `JobList.TabsAfterSync` | app/web/jobs.go:400-419 | a job a sync brought in is on the idle tab and on no other |
| `JobList.PageIsUnique` | app/web/handlers.go:107-148 | with distinct positions list, counts, failing jobs and hidden count are all settled by the job map |
| `JobList.HiddenAreNotFound` | app/web/handlers.go:141-145 | jobs are counted as hidden only when the search finds none of them |
| `JobList.HiddenCounts` | app/web/handlers.go:143-145 | a search that leaves nothing reports the size of the tab without it, any other page zero |
| `JobList.FailingAreNewestFirst` | app/web/handlers.go:131-139 | the failing jobs are the enabled ones whose last run failed, the one that ran last first |
| `JobList.EventKeepsPositionsIff` | app/web/jobs.go:255-265 | an event keeps positions distinct exactly when its job is in the table or nothing is at position 0 |
| `JobList.NewJobsShareAPosition` | app/web/jobs.go:255-265 | the failing case: the starts of two commands no sync has brought in put two jobs at one position |
| `JobList.TabsAddUpThroughout` | app/web/handlers.go:120-138 | in every reachable state of a dashboard not loaded with a running status the tabs add up |
| `JobList.SavedWhileRunningIsNotCounted` | app/web/handlers.go:120-138 | the failing case: a job saved while running and loaded is in the total and in none of the five counts |
| `Deduplication.KeysCollideIff` | app/service/service.go:216 | two schedules can share a key for different calls exactly when one ends with '#' and the other |
| `Deduplication.KeyDeterminesCall` | app/service/service.go:216 | for schedules without '#' equal keys mean the same resolved command and schedule |
| `Deduplication.DeDup.Add` | app/service/dedup.go:21-32 | registers an unused key, refuses a used one without change |
| `Deduplication.DeDup.Remove` | app/service/dedup.go:35-42 | takes that key out and no other |
| `ResumeFiles.Resumer.OnStart` | app/resumer/resumer.go:39-50 | a file under a name with a fresh number holding the command; a refused write leaves nothing, a broken one part of it |
| `ResumeFiles.Resumer.OnFinish` | app/resumer/resumer.go:53-62 | removes that file; an error when it is not there or not removable |
| `ResumeFiles.Resumer.List` | app/resumer/resumer.go:65-109 | exactly the readable flag files written no more than 24 hours ago, with their contents, each once; flag files written longer ago are deleted, nothing else changes |
| `RunMachine.NextKeepsKeys` | app/service/service.go:216-226 | every step of any run keeps: held keys are those of the calls between Add and Remove, one call per key |
| `RunMachine.OneRunPerKey` | app/service/service.go:216-221 | over every interleaving two calls between Add and Remove differ in command or schedule, and their keys are in the map |
| `RunMachine.EveryReturnReleases` | app/service/service.go:216-302 | in every reachable state a key is in the map exactly when a call is between Add and Remove with it, so the map is empty exactly when none is: every early return releases its key |
| `RunMachine.DuplicateIff` | app/service/service.go:217-221 | a call is turned away exactly when another holds its key, and that one goes on holding it |
| `CrashSafety.NextKeepsInv` | app/service/service.go:203-303 | every step, crash and restart included, keeps: names are new, files belong to one call, kept commands are whole on disk |
| `CrashSafety.ReachableInv` | app/resumer/resumer.go:39-62 | so it holds in every reachable state |
| `CrashSafety.EachRunOwnsItsFile` | app/service/service.go:223-300 | each call past OnStart and not past OnFinish has a file of its own holding exactly its resolved command; finished files are gone |
| `CrashSafety.RestartResumesWhatWasCut` | app/service/service.go:555-565 | a restart after a crash at any step resumes every kept command whose file is readable and was written no more than 24 hours ago, with exactly its text, and none that finished; only files older than that expire |
| `CrashSafety.CrashLosesNothing` | app/service/service.go:223-300 | a crash at any step of a registered call can only be followed by a start, which within 24 hours of the file's writing resumes exactly that command, unless the file is unreadable |
| `CrashSafety.OnlyFinishingEndsIt` | app/service/service.go:290-300 | over any stretch of a run: a registered command kept at its start and not at its end was ended in between by its own OnFinish, its resumed run's, or a restart more than 24 hours after its file was written |
| `CrashSafety.FailedRunIsKept` | app/service/service.go:290-300 | a command that fails, notified or not, keeps its file over any continuation until its resumed run's OnFinish or a restart more than 24 hours later |
| `Scheduling.Scheduler.RunJobWithCommand` | app/service/service.go:203-303 | outcome, resume directory and events of a run for every early return; the dedup map is afterwards as it was before |
| `Scheduling.Scheduler.RunRegistered` | app/service/service.go:223-302 | the same for the part between taking the key and releasing it |
| `Scheduling.RunMeans` | app/service/service.go:203-303 | exactly when a run ends in each way, and that it leaves no file when completed, its command in one when it failed after registration, and every other file alone |
| `Scheduling.EventsPair` | app/service/service.go:231-277 | a run sends nothing, or a start and a finish of one run with its command, schedule, times, output, and exit code 0, the command's own or 1 |
| `Scheduling.Scheduler.ResumeInterrupted` | app/service/service.go:555-589 | up to the given number at a time, begun and ended in any order: exactly the files of commands that succeeded or whose failure was notified, and that can be removed, are gone |
| `Scheduling.Scheduler.ResumeOne` | app/service/service.go:565-586 | one resumed command keeps its file exactly when it fails and its notification too, or the file cannot be removed |
| `Scheduling.RunIsSteps` | app/service/service.go:203-303 | the method alone is a fragment of the run machine: same outcome, directory and held keys |
| `Scheduling.ListingIsBoot` | app/resumer/resumer.go:65-109 | any listing and directory that List may leave is the machine's start from that directory |
| `Scheduling.ResumingIsSteps` | app/service/service.go:565-586 | one resumed command's steps take its file away exactly when the method does |
| `RunEvents.RunSendsStartThenFinish` | app/service/service.go:237-277 | what a run sends is a start the protocol takes in any state where the run is new, and then, after any interleaving, the finish of that run, which it takes too |
| `Text.TrimIsUnique` | app/crontab/crontab.go:259 | trimming gives the one middle with no white space at its ends |
| `Text.SplitJoin` | app/crontab/crontab.go:262 | splitting what was joined from words without the separator gives the words back |
| `Text.JoinSplit` | app/crontab/crontab.go:262-282 | joining what was split gives the string back |
| `CrontabLine.CutCommentCuts` | app/crontab/crontab.go:254-256 | the cut leaves a prefix without ' #', and changes the line exactly when it has one |
| `CrontabLine.SqueezeHides` | app/crontab/crontab.go:258-261 | squeezing brings a ' #' into being exactly when a '#' follows a space or two gap characters |
| `CrontabLine.SpacesThatAreNoGaps` | app/crontab/crontab.go:258-259 | the four characters that are trimmed and not squeezed |
| `CrontabRoundTrips.OwnNormalIff` | app/crontab/crontab.go:254-261 | a string is its own normal form exactly when it is trimmed, has single gaps, no tab and no comment |
| `CrontabRoundTrips.ParseGivesNormal` | app/crontab/crontab.go:262-282 | spec, space and command of a parsed line are its normal form: no character is lost or moved |
| `CrontabRoundTrips.ParseAgainIff` | app/crontab/crontab.go:248-283 | parsing again what a line parsed to gives the same job exactly when the line hides no comment behind a tab or a run of gaps |
| `CrontabRoundTrips.ParseIsNormaliser` | app/crontab/crontab.go:248-283 | so it does when no '#' directly follows white space other than a space |
| `CrontabRoundTrips.TabbedHashIsNotKept` | app/crontab/crontab.go:254-261 | the failing family: a descriptor, a word, a tab and a '#' parse to a job that parsing again cuts short |
| `CrontabRoundTrips.SpacingIsIrrelevant` | app/crontab/crontab.go:258-262 | any spacing of '#'-free words with spaces or tabs parses as the words do |
| `CrontabRoundTrips.ParseCuts` | app/crontab/crontab.go:264-282 | where a line of words is cut into spec and command: behind the interval of @every, behind another descriptor, or behind five fields; and which lines have too few words |
| `CrontabRoundTrips.CommentLineIsNoJob` | app/crontab/crontab.go:249-251 | a line whose first character other than white space is '#' is no job |
| `CrontabRoundTrips.PrintThenParseIff` | app/crontab/crontab.go:148-175 | for every accepted schedule and every command: printing and parsing gives both back exactly when the fields and the command are kept |
| `CrontabRoundTrips.PlainFieldsAreKept` | app/crontab/crontab.go:148-175 | fields without white space are kept |
| `CrontabRoundTrips.SpacedListIsNotKept` | app/crontab/verify.go:192 | the failing case: the validator accepts a list with a space, which the printer does not trim |
| `CrontabRoundTrips.SplitSpec` | app/crontab/crontab.go:174 | a printed spec splits into exactly its five fields, '*' for empty ones, before the command's words |
| `CrontabRoundTrips.SpecFields` | app/crontab/crontab.go:148-175 | the printed fields one by one, in the order of a crontab line, '*' for an unset one |
| `CrontabRoundTrips.ResolveSpecs` | app/crontab/crontab.go:130-145 | every job with some field of its schedule set gets its printed spec, in place; a job with none, and everything else, is unchanged |
| `FieldValidator.RangeExact` | app/crontab/verify.go:156-187 | a range is accepted exactly when it is lo-hi in bounds and order, with at most one positive step |
| `FieldValidator.ListExact` | app/crontab/verify.go:190-204 | a list is accepted exactly when every item, white space around it aside, is |
| `FieldValidator.FieldExact` | app/crontab/verify.go:130-216 | the validator accepts exactly the grammar: */n, or a non-empty list of in-bounds numbers and ranges |
| `FieldValidator.ValueOfCat` | app/crontab/verify.go:148 | digits are read in base ten |
| `FieldValidator.AtoiReads` | app/crontab/verify.go:148 | a number with or without a sign is read when it fits 64 bits |
| `FieldValidator.NumberAcceptedIff` | app/crontab/verify.go:207-216 | digits are accepted exactly within the bounds |
| `FieldValidator.RangeAcceptedIff` | app/crontab/verify.go:171-186 | digits, dash, digits are accepted exactly within the bounds and in order |
| `FieldValidator.StepAcceptedIff` | app/crontab/verify.go:160-186 | and with a step exactly when it is positive too |
| `FieldValidator.EveryAcceptedIff` | app/crontab/verify.go:131-133 | a step over everything is accepted exactly when it is positive |
| `FieldValidator.ListAcceptedIff` | app/crontab/verify.go:190-204 | a list of numbers is accepted exactly when each is within the bounds |
| `FieldValidator.ScheduleBounds` | app/crontab/verify.go:97-103 | the bounds of the five fields |
| `FieldValidator.WeekdayNameIff` | app/crontab/verify.go:124-127 | a weekday name is a day's three letters and then any days and dashes, in any case |
| `FieldValidator.NamesAreForWeekdays` | app/crontab/verify.go:97-113 | a weekday name is accepted for the weekday and for no other field |
| `FieldValidator.WeekdayNameInAnyCase` | app/crontab/verify.go:126 | case makes no difference to a weekday name |
| `FieldValidator.AcceptedFieldDenotes` | app/crontab/verify.go:130-216 | an accepted field stands for at least one value, and only for values within bounds |
| `FieldValidator.AcceptedHasNoMarks` | app/crontab/verify.go:105-118 | an accepted field, day names included, holds no '#' and no '@' |
| `Capture.OutputCapture.Write` | app/service/output_capture.go:23-39 | the log becomes the last N of its lines and the write's non-empty lines; with limit 0 nothing is captured |
| `Capture.OutputCapture.GetOutput` | app/service/output_capture.go:42-46 | the output's lines are exactly the log |
| `Capture.LastOfLast` | app/service/output_capture.go:33-36 | dropping old lines before new ones come loses nothing that would have stayed |
| `Capture.SmallerIsSuffix` | app/service/service.go:373-389 | the log of the smaller of two captures is the end of the other's |
| `Capture.CaptureRun` | app/service/service.go:357-399 | after any writes both captures hold the last lines, for their own limits, of all that was written |
| `Capture.CutAtLineEndIff` | app/service/output_capture.go:29-32 | two writes give the lines of one exactly when the cut between them falls on a newline |
| `Capture.WholeLinesAreCaptured` | app/service/output_capture.go:23-39 | writes that end lines are captured as the whole output would be |
| `BusinessDays.DayParser.WeekdayBackward` | app/service/day.go:139-153 | ends when there is a business day to find, at the last one up to the day given: no holiday, not a skipped weekday, and every day behind it is one or the other |
| `BusinessDays.DayParser.Dates` | app/service/day.go:77-85 | the end-of-day date is the last business day whose end has passed in the moment's zone, the business date the last up to the day in the parser's zone |
| `BusinessDays.DayParser.DatesCompare` | app/service/day.go:77-85 | for any two zones, exactly when the end-of-day date is later than the business date and exactly when it is earlier |
| `BusinessDays.DayParser.EndedDayCanBeLater` | app/service/day.go:77-85 | the case where it is later: a business day has ended and the parser's zone is still on the day before |
| `BusinessDays.DayParser.LastEndedIff` | app/service/day.go:77-82 | choosing by the hour between this day and the day before finds exactly the last business day that has ended |
| `BusinessDays.DayParser.LastUpToIsUnique` | app/service/day.go:148-152 | the walk's answer is the only one |
| `BusinessDays.DayParser.LastEndedIsMonotone` | app/service/day.go:77-82 | a later day or hour never has an earlier end-of-day date |
| `BusinessDays.DayParser.LastEndedAgainstLastUpTo` | app/service/day.go:77-85 | in one zone never after the business date, and before it exactly on a business day before the cutoff |
| `BusinessDays.DayParser.AlwaysHasBusinessDayIff` | app/service/day.go:141-146 | without holidays the walk ends for every day exactly when some weekday is not skipped, and then within six days |
| `BusinessDays.DefaultHasBusinessDay` | app/service/day.go:65-71 | the default settings always find a day |
| `BusinessDays.WeekdaysFollow` | app/service/day.go:145 | weekdays follow one another, from a known Tuesday |
| `BusinessDays.DefaultDays` | app/service/day.go:65-82 | with the default settings Monday to Friday are business days that end at 17 hours; its dates around 1 November 2016 |

## Left out

- HTTP, HTML, sessions and authentication: user interface and plumbing.
- SQL text and migrations: tables are sets and maps, and an order by start is chronological, though the stored value
  is text.
- Libraries: which schedules parse and when they fire next, template expansion, retries with backoff and notification
  are parameters.
- Running the command, jitter and the condition checks before a run: their outcomes are parameters.
- Concurrent reloads of the schedule entries by the file watcher: not synchronised in the program.
- Time zones and daylight saving: a moment comes with its day and hour in its own zone and its day in the parser's;
  how the zones give them, and clock changes, are not modelled. Holidays are a predicate on days.
- Error texts and log lines: only which error occurs is modelled.
- Bytes that are not valid UTF-8. Lower case, for the search, is a parameter.
- Schema validation of the other YAML fields.
- Live output of a run in progress: the run is returned, its output so far is not modelled.
- Dashboard.Server.HandleJobEvent: the clock readings inside one event are one reading; in a sync, those of one
  entry are one.
- Persistence.Store.SelectNewest: a limit is at least 0; callers pass positive ones.
- ResumeFiles.Resumer.List: a file whose information cannot be read counts as unreadable, also when it is old.
- Capture.OutputCapture.constructor: a limit is at least 0; with a negative one the program would drop the first line
  of an empty log.
- Ordering.SortJobs: an insertion sort stands for the library's sort, of which only a sorted permutation is used.
