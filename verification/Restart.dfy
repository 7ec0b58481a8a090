/** Saving the job table, loading it in the next process, and syncing it with the crontab again. */
module Restart {
  import opened Domain
  import opened JobTable
  import opened RunBoard
  import opened Persistence

  /** What a save writes for a job: one shown running is saved with the running status. */
  function Snapshot(job: JobInfo): JobInfo {
    job.(lastStatus := if job.isRunning then Running else job.lastStatus)
  }

  /** The table after a save of all jobs, in whatever order the job map was walked. */
  ghost predicate Persisted(jobs: Jobs, table: Table, table': Table) {
    && table'.Keys == table.Keys + jobs.Keys
    && (forall id :: id in jobs ==> table'[id].(sortIndex := 0) == StoredAs(Snapshot(jobs[id]), 0))
    && (forall id :: id in table && id !in jobs ==> table'[id] == table[id])
  }

  function Reloaded(cron: Cron, row: JobInfo, now: Time): JobInfo {
    if row.nextRun == ZERO_TIME then WithNextRun(cron, row, now) else row
  }

  ghost predicate Loaded(cron: Cron, jobs: Jobs, table: Table, now: Time, jobs': Jobs) {
    && jobs'.Keys == jobs.Keys + table.Keys
    && (forall id :: id in table ==> jobs'[id] == Reloaded(cron, table[id], now))
    && (forall id :: id in jobs && id !in table ==> jobs'[id] == jobs[id])
  }

  /** A load keeps every entry under its own id and the memory consistent: no row brings a running flag in. */
  lemma LoadKeepsConsistent(cron: Cron, b: Board, table: Table, now: Time, jobs': Jobs)
    requires Consistent(b) && Keyed(b.jobs) && Keyed(table) && NoneRunning(table)
    requires Loaded(cron, b.jobs, table, now, jobs')
    ensures Consistent(b.(jobs := jobs')) && Keyed(jobs')
  {
    forall id | id in jobs'
      ensures jobs'[id].id == id
      ensures jobs'[id].isRunning ==> id in b.active && jobs'[id].lastStatus == Running
    {
      assert id in table || id in b.jobs;
    }
  }

  lemma ApplyKeepsKeyed(cron: Cron, b: Board, e: Event, now: Time)
    requires Keyed(b.jobs)
    ensures Keyed(Apply(cron, b, e, now).jobs)
  {
  }

  /** What a save writes of a job, and what it leaves of the others. */
  lemma SavedRow(jobs: Jobs, table: Table, table': Table, id: JobId)
    requires Persisted(jobs, table, table')
    ensures id in table' <==> id in table || id in jobs
    ensures id in table' && id !in jobs ==> table'[id] == table[id]
    ensures id in jobs ==>
              var row, job := table'[id], jobs[id];
              && row.id == job.id && row.name == job.name && row.command == job.command
              && row.schedule == job.schedule && row.nextRun == job.nextRun && row.lastRun == job.lastRun
              && row.lastExitCode == job.lastExitCode && row.lastDuration == job.lastDuration
              && row.enabled == job.enabled && row.createdAt == job.createdAt && row.updatedAt == job.updatedAt
              && !row.isRunning
              && (job.isRunning ==> row.lastStatus == Running)
              && (!job.isRunning ==> row.lastStatus == job.lastStatus)
  {
    if id in jobs {
      var same := table'[id].(sortIndex := 0);
      assert same == StoredAs(Snapshot(jobs[id]), 0);
      assert same.name == table'[id].name && same.isRunning == table'[id].isRunning;
    }
  }

  /** What a load makes of a row: only a next run that was never worked out is. */
  lemma LoadedEntry(cron: Cron, jobs: Jobs, table: Table, now: Time, jobs': Jobs, id: JobId)
    requires Loaded(cron, jobs, table, now, jobs')
    ensures id in jobs' <==> id in table || id in jobs
    ensures id in jobs' && id !in table ==> jobs'[id] == jobs[id]
    ensures id in table ==>
              var job, row := jobs'[id], table[id];
              && job.id == row.id && job.name == row.name && job.command == row.command
              && job.schedule == row.schedule && job.lastRun == row.lastRun && job.lastStatus == row.lastStatus
              && job.lastExitCode == row.lastExitCode && job.lastDuration == row.lastDuration
              && job.isRunning == row.isRunning && job.enabled == row.enabled
              && job.createdAt == row.createdAt && job.updatedAt == row.updatedAt && job.sortIndex == row.sortIndex
              && (row.nextRun != ZERO_TIME ==> job.nextRun == row.nextRun)
              && (row.nextRun == ZERO_TIME && row.schedule != "" && cron.parses(row.schedule) ==>
                    job.nextRun == cron.next(row.schedule, now))
  {
  }

  lemma SaveKeepsIdentified(jobs: Jobs, table: Table, table': Table)
    requires Persisted(jobs, table, table') && Identified(jobs) && Identified(table)
    ensures Identified(table')
  {
    forall id | id in table' ensures HashCommand(table'[id].command) == id {
      SavedRow(jobs, table, table', id);
    }
  }

  lemma LoadKeepsIdentified(cron: Cron, jobs: Jobs, table: Table, now: Time, jobs': Jobs)
    requires Loaded(cron, jobs, table, now, jobs') && Identified(jobs) && Identified(table)
    ensures Identified(jobs')
  {
    forall id | id in jobs' ensures HashCommand(jobs'[id].command) == id {
      LoadedEntry(cron, jobs, table, now, jobs', id);
    }
  }

  /** The fields a job must get back after a restart. */
  ghost predicate SameHistory(a: JobInfo, b: JobInfo) {
    && a.enabled == b.enabled && a.lastRun == b.lastRun && a.lastStatus == b.lastStatus
    && a.lastExitCode == b.lastExitCode && a.lastDuration == b.lastDuration && a.createdAt == b.createdAt
  }

  lemma LoadKeepsHistory(cron: Cron, row: JobInfo, now: Time)
    ensures SameHistory(Reloaded(cron, row, now), row) && Reloaded(cron, row, now).isRunning == row.isRunning
  {
  }

  /** A restart: the last save before it, the load, and the first sync after it. */
  ghost predicate RestartRun(cron: Cron, jobs: Jobs, table: Table, table': Table, now: Time, loaded: Jobs,
                             specs: seq<Spec>, clock: Clock, jobs': Jobs) {
    && Persisted(jobs, table, table')
    && Loaded(cron, map[], table', now, loaded)
    && Synced(cron, loaded, specs, clock, jobs')
  }

  /** Where each job in the crontab gets its history from after a restart: its entry at the last save; else a row
      an earlier save left, since saves never delete rows; else nothing, and it starts afresh. The table holds
      exactly the jobs in the crontab, so every other row is dropped from memory. */
  lemma RestartRoundTrip(cron: Cron, jobs: Jobs, table: Table, table': Table, now: Time, loaded: Jobs,
                         specs: seq<Spec>, clock: Clock, jobs': Jobs, id: JobId)
    requires RestartRun(cron, jobs, table, table', now, loaded, specs, clock, jobs')
    requires forall x :: x in jobs && jobs[x].isRunning ==> jobs[x].lastStatus == Running
    ensures id in jobs' <==> Listed(cron, specs, |specs|, id)
    ensures id in jobs' && id in jobs ==> SameHistory(jobs'[id], jobs[id]) && !jobs'[id].isRunning
    ensures id in jobs' && id !in jobs && id in table ==> SameHistory(jobs'[id], table[id])
    ensures id in jobs' && id !in jobs && id !in table ==>
              jobs'[id].lastStatus == Idle && jobs'[id].enabled && jobs'[id].lastRun == ZERO_TIME
  {
    if id in jobs' {
      if id in table' {
        LoadKeepsHistory(cron, table'[id], now);
        SyncKeepsRunState(cron, loaded, specs, clock, jobs', id);
        assert id in jobs ==> table'[id].(sortIndex := 0).enabled == jobs[id].enabled;
      } else {
        var _, _ := SyncPlaces(cron, loaded, specs, clock, jobs', id);
      }
    }
  }

  /** A process killed while a job ran shows it with the running status but not running after the restart. This is
      exactly when the status column and the running flag disagree then. */
  lemma StatusesAgreeAfterLoadIff(cron: Cron, jobs: Jobs, table: Table, table': Table, now: Time, loaded: Jobs)
    requires Persisted(jobs, table, table') && Loaded(cron, map[], table', now, loaded)
    requires NoneRunning(table)
    ensures StatusesAgree(loaded) <==>
            && (forall id :: id in jobs ==> !jobs[id].isRunning && jobs[id].lastStatus != Running)
            && (forall id :: id in table && id !in jobs ==> table[id].lastStatus != Running)
  {
    forall id | id in loaded
      ensures !loaded[id].isRunning
      ensures id in jobs ==>
                (loaded[id].lastStatus == Running <==> jobs[id].isRunning || jobs[id].lastStatus == Running)
      ensures id !in jobs ==> id in table && loaded[id].lastStatus == table[id].lastStatus
    {
      LoadKeepsHistory(cron, table'[id], now);
      assert id in jobs ==> table'[id].(sortIndex := 0).lastStatus == Snapshot(jobs[id]).lastStatus;
      assert id in jobs ==> !table'[id].(sortIndex := 0).isRunning;
    }
  }

  /** It happens: the one job of a dashboard is saved while it runs, and the process dies. */
  lemma SavedWhileRunning(cron: Cron, e: Event, now: Time, later: Time) returns (table: Table, loaded: Jobs)
    requires e.kind == StartEvent
    ensures Persisted(Apply(cron, Board(map[], map[]), e, now).jobs, map[], table)
    ensures Loaded(cron, map[], table, later, loaded) && !StatusesAgree(loaded)
    ensures var id := HashCommand(e.command);
            && loaded.Keys == {id} && loaded[id].id == id && loaded[id].enabled
            && loaded[id].lastStatus == Running && !loaded[id].isRunning
  {
    var id := HashCommand(e.command);
    var job := Apply(cron, Board(map[], map[]), e, now).jobs[id];
    table := map[id := StoredAs(Snapshot(job), 0)];
    loaded := map[id := Reloaded(cron, table[id], later)];
    assert id in loaded;
  }
}
