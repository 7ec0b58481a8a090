/** What handling one event does to the dashboard's memory: the job table and the runs in progress. */
module RunBoard {
  import opened Domain
  import opened JobTable

  datatype Board = Board(jobs: Jobs, active: map<JobId, map<int, ActiveRun>>)
  {
    /** The run is in progress as far as the dashboard knows. */
    predicate Tracks(key: RunKey) {
      key.job in active && key.start in active[key.job]
    }
  }

  predicate HasNextRun(cron: Cron, job: JobInfo) {
    job.schedule != "" && cron.parses(job.schedule)
  }

  function WithNextRun(cron: Cron, job: JobInfo, now: Time): JobInfo {
    if HasNextRun(cron, job) then job.(nextRun := cron.next(job.schedule, now)) else job
  }

  /** The job's entry, or a new one for a command the crontab sync has not brought in. */
  function EntryFor(cron: Cron, jobs: Jobs, e: Event, now: Time): JobInfo {
    var id := HashCommand(e.command);
    if id in jobs then jobs[id]
    else WithNextRun(cron, JobInfo(id, "", e.command, e.schedule, ZERO_TIME, ZERO_TIME, Idle, None, 0,
                                   false, true, now, now, 0), now)
  }

  function ActiveAfter(active: map<JobId, map<int, ActiveRun>>, e: Event): map<JobId, map<int, ActiveRun>> {
    var id, start := HashCommand(e.command), Micro(e.startedAt);
    var runs := if id in active then active[id] else map[];
    if e.kind == StartEvent then active[id := runs[start := ActiveRun(e.startedAt, e.executed)]]
    else if runs - {start} == map[] then active - {id}
    else active[id := runs - {start}]
  }

  /** The job's entry after the event, given whether the job still has runs in progress. */
  function EntryAfter(cron: Cron, job: JobInfo, e: Event, busy: bool, now: Time): JobInfo {
    if e.kind == StartEvent then
      job.(isRunning := true, lastRun := if e.startedAt > job.lastRun then e.startedAt else job.lastRun,
           lastStatus := Running, updatedAt := now)
    else
      var done := job.(isRunning := busy, lastStatus := if busy then Running else e.RunStatus(),
                       lastExitCode := Some(e.exitCode), lastDuration := e.finishedAt - e.startedAt);
      (if done.enabled then WithNextRun(cron, done, now) else done).(updatedAt := now)
  }

  function Apply(cron: Cron, b: Board, e: Event, now: Time): Board {
    var id := HashCommand(e.command);
    var active := ActiveAfter(b.active, e);
    Board(b.jobs[id := EntryAfter(cron, EntryFor(cron, b.jobs, e, now), e, id in active, now)], active)
  }

  function Toggled(job: JobInfo, now: Time): JobInfo {
    job.(enabled := !job.enabled, updatedAt := now)
  }

  /** Every event decides its own run and nothing else: a start adds it, a finish takes it out. */
  lemma ApplyTracks(cron: Cron, b: Board, e: Event, now: Time, key: RunKey)
    ensures var b' := Apply(cron, b, e, now);
            && (b'.Tracks(key) <==> if key == e.Key() then e.kind == StartEvent else b.Tracks(key))
            && (b'.Tracks(key) && key == e.Key() ==>
                  b'.active[key.job][key.start] == ActiveRun(e.startedAt, e.executed))
            && (b'.Tracks(key) && key != e.Key() ==> b'.active[key.job][key.start] == b.active[key.job][key.start])
  {
    var id, start := HashCommand(e.command), Micro(e.startedAt);
    var runs := if id in b.active then b.active[id] else map[];
    if key.job == id && e.Finished() {
      assert key.start in runs - {start} <==> key.start in runs && key.start != start;
    }
  }

  /** The memory's own invariant: no job has an empty set of runs, a run is filed under its start, and a job shown
      running has a run in progress and the running status. */
  ghost predicate Consistent(b: Board) {
    && (forall id :: id in b.active ==> b.active[id] != map[])
    && (forall id, k :: id in b.active && k in b.active[id] ==> Micro(b.active[id][k].startedAt) == k)
    && (forall id :: id in b.jobs && b.jobs[id].isRunning ==> id in b.active && b.jobs[id].lastStatus == Running)
  }

  /** The status column and the running flag say the same. A job table loaded from disk can break this. */
  ghost predicate StatusesAgree(jobs: Jobs) {
    forall id :: id in jobs ==> (jobs[id].lastStatus == Running <==> jobs[id].isRunning)
  }

  /** After any event the job is shown running exactly when it has runs in progress, and its entry says so; a job
      whose last run just ended shows how that run ended. */
  lemma ApplySettles(cron: Cron, b: Board, e: Event, now: Time)
    ensures var b', id := Apply(cron, b, e, now), HashCommand(e.command);
            && id in b'.jobs && b'.jobs[id].updatedAt == now
            && (b'.jobs[id].isRunning <==> id in b'.active)
            && (b'.jobs[id].lastStatus == Running <==> id in b'.active)
            && (e.kind == CompletedEvent && id !in b'.active ==> b'.jobs[id].lastStatus == Success)
            && (e.kind == FailedEvent && id !in b'.active ==> b'.jobs[id].lastStatus == Failed)
            && (e.kind != StartEvent ==> b'.jobs[id].lastExitCode == Some(e.exitCode)
                                         && b'.jobs[id].lastDuration == e.finishedAt - e.startedAt)
            && var schedule := b'.jobs[id].schedule;
               (e.kind != StartEvent && b'.jobs[id].enabled && schedule != "" && cron.parses(schedule) ==>
                 b'.jobs[id].nextRun == cron.next(schedule, now))
  {
  }

  /** An event of a command that is not in the table brings its job in, enabled, unnamed and at position 0. */
  lemma ApplyMakesJob(cron: Cron, b: Board, e: Event, now: Time)
    requires HashCommand(e.command) !in b.jobs
    ensures var id := HashCommand(e.command);
            var job := Apply(cron, b, e, now).jobs[id];
            && job.id == id && job.command == e.command && job.schedule == e.schedule && job.name == ""
            && job.enabled && job.sortIndex == 0 && job.createdAt == now && job.updatedAt == now
            && (e.schedule != "" && cron.parses(e.schedule) ==> job.nextRun == cron.next(e.schedule, now))
            && (e.schedule == "" || !cron.parses(e.schedule) ==> job.nextRun == ZERO_TIME)
            && (e.kind == StartEvent ==> job.lastExitCode == None && job.lastDuration == 0
                                         && (e.startedAt > ZERO_TIME ==> job.lastRun == e.startedAt))
            && (e.kind != StartEvent || e.startedAt <= ZERO_TIME ==> job.lastRun == ZERO_TIME)
  {
  }

  lemma ApplyLeavesOthers(cron: Cron, b: Board, e: Event, now: Time, other: JobId)
    requires other != HashCommand(e.command)
    ensures var b' := Apply(cron, b, e, now);
            && (other in b'.jobs <==> other in b.jobs)
            && (other in b.jobs ==> b'.jobs[other] == b.jobs[other])
            && (other in b'.active <==> other in b.active)
            && (other in b.active ==> b'.active[other] == b.active[other])
  {
  }

  lemma ActiveAfterKeepsRuns(active: map<JobId, map<int, ActiveRun>>, e: Event, id: JobId)
    requires id in active ==> active[id] != map[] && forall k :: k in active[id] ==> Micro(active[id][k].startedAt) == k
    ensures var a := ActiveAfter(active, e);
            id in a ==> a[id] != map[] && forall k :: k in a[id] ==> Micro(a[id][k].startedAt) == k
  {
    var start := Micro(e.startedAt);
    var runs := if id in active then active[id] else map[];
    assert start in runs[start := ActiveRun(e.startedAt, e.executed)];
    assert forall k :: k in runs - {start} ==> k in runs;
  }

  lemma ApplyKeepsConsistent(cron: Cron, b: Board, e: Event, now: Time)
    requires Consistent(b)
    ensures Consistent(Apply(cron, b, e, now))
    ensures StatusesAgree(b.jobs) ==> StatusesAgree(Apply(cron, b, e, now).jobs)
  {
    var b' := Apply(cron, b, e, now);
    ApplySettles(cron, b, e, now);
    forall id {:trigger id in b'.active}
      ensures id in b'.active ==> b'.active[id] != map[] &&
                                  forall k :: k in b'.active[id] ==> Micro(b'.active[id][k].startedAt) == k
    {
      ActiveAfterKeepsRuns(b.active, e, id);
    }
    forall id | id in b'.jobs && id != HashCommand(e.command)
      ensures id in b.jobs && b'.jobs[id] == b.jobs[id] && (id in b'.active <==> id in b.active)
    {
      ApplyLeavesOthers(cron, b, e, now, id);
    }
  }

  /** Starts may be handled late or out of order: the last run never moves back, and a start never leaves it
      before itself. A finish does not touch it, nor the switch or the creation time. */
  lemma ApplyKeepsHistory(cron: Cron, b: Board, e: Event, now: Time, id: JobId)
    requires id in b.jobs
    ensures var b' := Apply(cron, b, e, now);
            && id in b'.jobs
            && b'.jobs[id].lastRun >= b.jobs[id].lastRun
            && (id == HashCommand(e.command) && e.kind == StartEvent ==>
                  b'.jobs[id].lastRun >= e.startedAt
                  && (b'.jobs[id].lastRun == e.startedAt || b'.jobs[id].lastRun == b.jobs[id].lastRun)
                  && b'.jobs[id].lastExitCode == b.jobs[id].lastExitCode
                  && b'.jobs[id].lastDuration == b.jobs[id].lastDuration)
            && (e.Finished() ==> b'.jobs[id].lastRun == b.jobs[id].lastRun)
            && (e.kind == StartEvent || !b.jobs[id].enabled ==> b'.jobs[id].nextRun == b.jobs[id].nextRun)
            && (b.jobs[id].schedule == "" || !cron.parses(b.jobs[id].schedule) ==>
                  b'.jobs[id].nextRun == b.jobs[id].nextRun)
            && b'.jobs[id].command == b.jobs[id].command && b'.jobs[id].id == b.jobs[id].id
            && b'.jobs[id].enabled == b.jobs[id].enabled && b'.jobs[id].createdAt == b.jobs[id].createdAt
            && b'.jobs[id].sortIndex == b.jobs[id].sortIndex && b'.jobs[id].name == b.jobs[id].name
            && b'.jobs[id].schedule == b.jobs[id].schedule
  {
  }

  lemma ApplyKeepsIdentified(cron: Cron, b: Board, e: Event, now: Time)
    requires Identified(b.jobs)
    ensures Identified(Apply(cron, b, e, now).jobs)
  {
  }

  /** A toggle turns the switch over, whatever the job is doing, and changes nothing else. */
  lemma ToggledKeeps(job: JobInfo, now: Time)
    ensures var t := Toggled(job, now);
            && t.enabled != job.enabled && t.updatedAt == now
            && t.id == job.id && t.name == job.name && t.command == job.command && t.schedule == job.schedule
            && t.nextRun == job.nextRun && t.lastRun == job.lastRun && t.lastStatus == job.lastStatus
            && t.lastExitCode == job.lastExitCode && t.lastDuration == job.lastDuration
            && t.isRunning == job.isRunning && t.createdAt == job.createdAt && t.sortIndex == job.sortIndex
  {
  }

  /** A sync leaves the runs in progress alone, so the memory stays consistent. */
  lemma SyncKeepsConsistent(cron: Cron, b: Board, specs: seq<Spec>, clock: Clock, jobs': Jobs)
    requires Consistent(b) && Synced(cron, b.jobs, specs, clock, jobs')
    ensures Consistent(b.(jobs := jobs'))
    ensures StatusesAgree(b.jobs) ==> StatusesAgree(jobs')
  {
    forall id | id in jobs'
      ensures jobs'[id].isRunning ==> id in b.active && jobs'[id].lastStatus == Running
      ensures StatusesAgree(b.jobs) ==> (jobs'[id].lastStatus == Running <==> jobs'[id].isRunning)
    {
      if id in b.jobs {
        SyncKeepsRunState(cron, b.jobs, specs, clock, jobs', id);
      } else {
        var _, _ := SyncPlaces(cron, b.jobs, specs, clock, jobs', id);
      }
    }
  }

  /** Every job with runs in progress is shown running. */
  ghost predicate FlagsFollowRuns(b: Board) {
    forall id :: id in b.jobs ==> (b.jobs[id].isRunning <==> id in b.active)
  }

  /** An event sets its own job's flag right and leaves the other jobs' alone. */
  lemma ApplyKeepsFlags(cron: Cron, b: Board, e: Event, now: Time)
    requires FlagsFollowRuns(b)
    ensures FlagsFollowRuns(Apply(cron, b, e, now))
  {
    var b' := Apply(cron, b, e, now);
    ApplySettles(cron, b, e, now);
    forall id | id in b'.jobs ensures b'.jobs[id].isRunning <==> id in b'.active {
      if id != HashCommand(e.command) {
        ApplyLeavesOthers(cron, b, e, now, id);
      }
    }
  }

  /** Exactly when a sync keeps the flags right: unless it brings back a job that was dropped while running. */
  lemma SyncKeepsFlagsIff(cron: Cron, b: Board, specs: seq<Spec>, clock: Clock, jobs': Jobs)
    requires FlagsFollowRuns(b) && Synced(cron, b.jobs, specs, clock, jobs')
    ensures FlagsFollowRuns(b.(jobs := jobs')) <==>
            forall id :: Listed(cron, specs, |specs|, id) && id in b.active ==> id in b.jobs
  {
    forall id | id in jobs'
      ensures id in b.jobs ==> (jobs'[id].isRunning <==> id in b.active)
      ensures id !in b.jobs ==> !jobs'[id].isRunning
    {
      if id in b.jobs {
        SyncKeepsRunState(cron, b.jobs, specs, clock, jobs', id);
      } else {
        var _, _ := SyncPlaces(cron, b.jobs, specs, clock, jobs', id);
      }
    }
  }

  /** The bad case happens: a running job is dropped from the crontab and put back, and is then shown as not
      running while its run is still in progress. */
  lemma DroppedAndReaddedWhileRunning(cron: Cron, e: Event, s: Spec, now: Time, clock: Clock)
    returns (dropped: Jobs, readded: Jobs)
    requires e.kind == StartEvent && s.command == e.command && cron.parses(s.spec)
    ensures var b := Apply(cron, Board(map[], map[]), e, now);
            && FlagsFollowRuns(b)
            && Synced(cron, b.jobs, [], clock, dropped)
            && Synced(cron, dropped, [s], clock, readded)
            && var id := HashCommand(e.command);
               id in b.active && id in readded && !readded[id].isRunning
  {
    dropped := map[];
    var id := HashCommand(s.command);
    readded := map[id := Fresh(cron, s, clock(0), 0)];
    assert Defines(cron, [s], 0, id) && IsFirst(cron, [s], 0, id) && IsLast(cron, [s], 1, 0, id);
    assert EntryFrom(cron, dropped, [s], clock, 1, id, readded[id], 0, 0);
    assert Listed(cron, [s], 1, id);
  }
}
